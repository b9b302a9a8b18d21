/**
 How a protocol version is written, `major.minor.build`, and read back. Texts are sequences of
 bytes; only ASCII ones can be versions.
 */
module VersionText {
  import opened Basics
  import opened Options
  import opened Negotiation

  predicate Digit(c: char) {
    '0' <= c <= '9'
  }

  function DigitValue(c: char): nat
    requires Digit(c)
  {
    c as int - '0' as int
  }

  function DigitOf(n: nat): (c: char)
    requires n < 10
    ensures Digit(c) && DigitValue(c) == n
  {
    (n + '0' as int) as char
  }

  predicate AllDigits(s: string) {
    forall i :: 0 <= i < |s| ==> Digit(s[i])
  }

  function Decimal(n: nat): string {
    if n < 10 then [DigitOf(n)] else Decimal(n / 10) + [DigitOf(n % 10)]
  }

  function Value(s: string): nat
    requires AllDigits(s)
  {
    if s == "" then 0 else Value(s[..|s| - 1]) * 10 + DigitValue(s[|s| - 1])
  }

  function Display(v: Version): string {
    Decimal(v.major) + "." + Decimal(v.minor) + "." + Decimal(v.build)
  }

  /** The pieces of a text between its dots; there is always at least one. */
  function Split(s: string): (parts: seq<string>)
    ensures parts != []
  {
    if s == "" then [""]
    else
      var parts := Split(s[1..]);
      if s[0] == '.' then [""] + parts else [[s[0]] + parts[0]] + parts[1..]
  }

  datatype ParseError = NotAVersion

  predicate Canonical(part: string) {
    part != "" && (|part| > 1 ==> part[0] != '0') && AllDigits(part)
  }

  /** One number of a version: written canonically, and small enough. */
  function Part(parts: seq<string>, i: nat): Result<u16, ParseError> {
    if i >= |parts| || !Canonical(parts[i]) || Value(parts[i]) >= 0x1_0000 then Err(NotAVersion)
    else Ok(Value(parts[i]))
  }

  function Parse(s: string): Result<Version, ParseError> {
    if |s| > 17 then Err(NotAVersion)
    else
      var parts := Split(s);
      match Part(parts, 0)
      case Err(error) => Err(error)
      case Ok(major) =>
        match Part(parts, 1)
        case Err(error) => Err(error)
        case Ok(minor) =>
          match Part(parts, 2)
          case Err(error) => Err(error)
          case Ok(build) =>
            if |parts| > 3 || major == 0 then Err(NotAVersion) else Ok(Version(major, minor, build))
  }

  // ----- Decimal numbers -----

  function PowerOfTen(k: nat): nat {
    if k == 0 then 1 else 10 * PowerOfTen(k - 1)
  }

  lemma {:induction false} DecimalIsCanonical(n: nat)
    ensures Canonical(Decimal(n)) && Value(Decimal(n)) == n
    ensures n > 0 ==> Decimal(n)[0] != '0'
  {
    if n < 10 {
      assert Decimal(n)[..0] == "";
    } else {
      DecimalIsCanonical(n / 10);
      assert Decimal(n)[..|Decimal(n)| - 1] == Decimal(n / 10);
    }
  }

  /** The first digit of a number has the greatest weight. */
  lemma {:induction false} ValueIsPositional(s: string)
    requires AllDigits(s) && s != ""
    ensures Value(s) == DigitValue(s[0]) * PowerOfTen(|s| - 1) + Value(s[1..])
  {
    var init := s[..|s| - 1];
    if init == "" {
      assert s[1..] == "";
    } else {
      ValueIsPositional(init);
      assert s[1..][..|s| - 2] == init[1..];
    }
  }

  lemma {:induction false} DecimalIsShort(n: nat, k: nat)
    requires 0 < k && n < PowerOfTen(k)
    ensures |Decimal(n)| <= k
  {
    if n >= 10 {
      DecimalIsShort(n / 10, k - 1);
    }
  }

  lemma {:induction false} CanonicalIsDecimal(s: string)
    requires Canonical(s)
    ensures Decimal(Value(s)) == s
    ensures s[0] != '0' ==> Value(s) > 0
  {
    var init, last := s[..|s| - 1], s[|s| - 1];
    assert s == init + [last];
    if init == "" {
      assert DigitOf(DigitValue(last)) == last;
    } else {
      CanonicalIsDecimal(init);
      assert Value(s) / 10 == Value(init) && Value(s) % 10 == DigitValue(last);
      assert DigitOf(DigitValue(last)) == last;
    }
  }

  // ----- Dots -----

  predicate NoDots(s: string) {
    '.' !in s
  }

  lemma {:induction false} SplitPlain(s: string)
    requires NoDots(s)
    ensures Split(s) == [s]
  {
    if s != "" {
      SplitPlain(s[1..]);
      assert [s[0]] + s[1..] == s;
    }
  }

  lemma {:induction false} SplitAtDot(s: string, rest: string)
    requires NoDots(s)
    ensures Split(s + "." + rest) == [s] + Split(rest)
  {
    var whole := s + "." + rest;
    if s == "" {
      assert whole[1..] == rest;
    } else {
      SplitAtDot(s[1..], rest);
      assert whole[1..] == s[1..] + "." + rest;
      assert [s[0]] + s[1..] == s;
    }
  }

  function Joined(parts: seq<string>): string
    requires parts != []
  {
    if |parts| == 1 then parts[0] else parts[0] + "." + Joined(parts[1..])
  }

  lemma {:induction false} JoinedIsSplit(s: string)
    ensures Joined(Split(s)) == s
  {
    if s != "" {
      JoinedIsSplit(s[1..]);
      var parts := Split(s[1..]);
      if s[0] == '.' {
        assert ([""] + parts)[1..] == parts;
        assert "" + "." + Joined(parts) == s;
      } else {
        JoinedPrefixed(s[0], parts);
        assert [s[0]] + s[1..] == s;
      }
    }
  }

  lemma JoinedPrefixed(c: char, parts: seq<string>)
    requires parts != []
    ensures Joined([[c] + parts[0]] + parts[1..]) == [c] + Joined(parts)
  {
    var prefixed := [[c] + parts[0]] + parts[1..];
    assert prefixed[1..] == parts[1..];
    if |parts| > 1 {
      assert [c] + parts[0] + "." + Joined(parts[1..]) == [c] + (parts[0] + "." + Joined(parts[1..]));
    }
  }

  // ----- Round trips -----

  lemma DisplayIsParsed(v: Version)
    requires v.major != 0
    ensures Parse(Display(v)) == Ok(v)
  {
    hide Decimal, Split, Value;
    DecimalIsCanonical(v.major);
    DecimalIsCanonical(v.minor);
    DecimalIsCanonical(v.build);
    assert PowerOfTen(5) == 100_000;
    DecimalIsShort(v.major, 5);
    DecimalIsShort(v.minor, 5);
    DecimalIsShort(v.build, 5);
    assert Display(v) == Decimal(v.major) + "." + (Decimal(v.minor) + "." + Decimal(v.build));
    SplitAtDot(Decimal(v.major), Decimal(v.minor) + "." + Decimal(v.build));
    SplitAtDot(Decimal(v.minor), Decimal(v.build));
    SplitPlain(Decimal(v.build));
  }

  lemma ParsedIsDisplay(s: string)
    requires Parse(s).Ok?
    ensures Parse(s).value.major != 0 && Display(Parse(s).value) == s
  {
    hide Decimal, Split, Value;
    var parts := Split(s);
    JoinedIsSplit(s);
    CanonicalIsDecimal(parts[0]);
    CanonicalIsDecimal(parts[1]);
    CanonicalIsDecimal(parts[2]);
    assert parts == [parts[0], parts[1], parts[2]];
    JoinedThree(parts[0], parts[1], parts[2]);
  }

  lemma JoinedThree(a: string, b: string, c: string)
    ensures Joined([a, b, c]) == a + "." + b + "." + c
  {
    assert [a, b, c][1..] == [b, c] && [b, c][1..] == [c];
    assert Joined([c]) == c && Joined([b, c]) == b + "." + c;
    assert a + "." + (b + "." + c) == a + "." + b + "." + c;
  }

  /** A text is read as a version exactly when it is what that version is written as. */
  lemma ParseInvertsDisplay(s: string, v: Version)
    ensures Parse(s) == Ok(v) <==> v.major != 0 && s == Display(v)
  {
    hide Parse, Display;
    if v.major != 0 {
      DisplayIsParsed(v);
    }
    if Parse(s).Ok? {
      ParsedIsDisplay(s);
    }
  }
}
