/**
 Which command lines are accepted, and as which words: words are made of plain characters, escaped
 characters and quoted parts, and white space is between them.
 */
module CommandGrammar {
  import opened Basics
  import opened Options
  import opened Characters
  import opened Tokenizer

  datatype Atom = Bare(c: char) | Escaped(c: char)

  /** What a line is made of. */
  datatype Part = Open(atom: Atom) | Singles(text: string) | Doubles(atoms: seq<Atom>) | Space(c: char)

  function AtomText(atom: Atom): string {
    match atom
    case Bare(c) => [c]
    case Escaped(c) => ['\\', c]
  }

  function AtomsText(atoms: seq<Atom>): string {
    if atoms == [] then "" else AtomText(atoms[0]) + AtomsText(atoms[1..])
  }

  /** The characters that these atoms stand for. */
  function Letters(atoms: seq<Atom>): string {
    if atoms == [] then "" else [atoms[0].c] + Letters(atoms[1..])
  }

  function PartText(part: Part): string {
    match part
    case Open(atom) => AtomText(atom)
    case Singles(text) => "'" + text + "'"
    case Doubles(atoms) => "\"" + AtomsText(atoms) + "\""
    case Space(c) => [c]
  }

  function LineText(parts: seq<Part>): string {
    if parts == [] then "" else PartText(parts[0]) + LineText(parts[1..])
  }

  /** A character that may stand without quotes, `first` in a word or later in it. */
  predicate Plain(c: char, first: bool) {
    && !IsWhitespace(c) && c !in {'\'', '"', '\\', '$', '`', ';', '|', '&', '<', '>', '{', '}', '#', '*', '?', '[', ']'}
    && !(c == '~' && first)
  }

  predicate InDoubles(atom: Atom) {
    atom.Bare? ==> atom.c !in {'"', '\\', '$', '`'}
  }

  predicate Legal(part: Part, first: bool) {
    match part
    case Open(Bare(c)) => Plain(c, first)
    case Open(Escaped(_)) => true
    case Singles(text) => '\'' !in text
    case Doubles(atoms) => forall i :: 0 <= i < |atoms| ==> InDoubles(atoms[i])
    case Space(c) => IsWhitespace(c)
  }

  /** All parts are legal, the first one inside a word or not. */
  predicate AllLegal(parts: seq<Part>, inWord: bool) {
    parts == [] || (Legal(parts[0], !inWord) && AllLegal(parts[1..], !parts[0].Space?))
  }

  /** What a part adds to its word. */
  function Meaning(part: Part): string {
    match part
    case Open(atom) => [atom.c]
    case Singles(text) => text
    case Doubles(atoms) => Letters(atoms)
    case Space(_) => ""
  }

  /** The word that has been begun, with more at its end. */
  function Longer(word: Option<string>, more: string): Option<string> {
    Some((if word.Some? then word.value else "") + more)
  }

  /** The words: parts between white space, joined. `word` is the one that has been begun, if any. */
  function Parsed(word: Option<string>, parts: seq<Part>): seq<string>
    decreases |parts|
  {
    if parts == [] then if word.Some? then [word.value] else []
    else if parts[0].Space? then (if word.Some? then [word.value] else []) + Parsed(None, parts[1..])
    else Parsed(Longer(word, Meaning(parts[0])), parts[1..])
  }

  // ----- Parts are read -----

  function Begun(words: seq<string>, word: Option<string>): State {
    State(words, if word.Some? then word.value else "", word.Some?, Unquoted)
  }

  lemma {:induction false} SinglesAreRead(state: State, text: string, rest: string)
    requires state.quote.Single? && '\'' !in text
    ensures Run(state, text + "'" + rest) == Run(state.(word := state.word + text, quote := Unquoted), rest)
    decreases |text|
  {
    hide Run;
    var whole := text + "'" + rest;
    RunStep(state, whole);
    if text == "" {
      assert whole == "'" + rest && whole[1..] == rest && state.word + "" == state.word;
    } else {
      assert whole[1..] == text[1..] + "'" + rest;
      SinglesAreRead(state.(word := state.word + [text[0]]), text[1..], rest);
      Regroup(state.word, [text[0]], text[1..]);
      assert [text[0]] + text[1..] == text;
    }
  }

  lemma {:induction false} DoublesGoOn(state: State, atoms: seq<Atom>, rest: string)
    requires state.quote.Double? && state.started && forall i :: 0 <= i < |atoms| ==> InDoubles(atoms[i])
    ensures Run(state, AtomsText(atoms) + rest) == Run(state.(word := state.word + Letters(atoms)), rest)
    decreases |atoms|
  {
    hide Run;
    if atoms == [] {
      assert "" + rest == rest && state.word + "" == state.word;
    } else {
      var first, behind := atoms[0], AtomsText(atoms[1..]) + rest;
      var whole := AtomText(first) + behind;
      Regroup(AtomText(first), AtomsText(atoms[1..]), rest);
      assert InDoubles(first);
      RunStep(state, whole);
      assert whole[|AtomText(first)|..] == behind;
      DoublesGoOn(state.Push(first.c), atoms[1..], rest);
      Regroup(state.word, [first.c], Letters(atoms[1..]));
    }
  }

  lemma DoublesAreRead(state: State, atoms: seq<Atom>, rest: string)
    requires state.quote.Double? && state.started && forall i :: 0 <= i < |atoms| ==> InDoubles(atoms[i])
    ensures Run(state, AtomsText(atoms) + "\"" + rest)
         == Run(state.(word := state.word + Letters(atoms), quote := Unquoted), rest)
  {
    hide Run, AtomsText, Letters;
    Regroup(AtomsText(atoms), "\"", rest);
    DoublesGoOn(state, atoms, "\"" + rest);
    RunStep(state.(word := state.word + Letters(atoms)), "\"" + rest);
    assert ("\"" + rest)[1..] == rest;
  }

  lemma OpenIsRead(words: seq<string>, word: Option<string>, atom: Atom, rest: string)
    requires Legal(Open(atom), word.None?)
    ensures Run(Begun(words, word), AtomText(atom) + rest) == Run(Begun(words, Longer(word, [atom.c])), rest)
  {
    hide Run;
    var whole := AtomText(atom) + rest;
    RunStep(Begun(words, word), whole);
    assert whole[|AtomText(atom)|..] == rest;
  }

  lemma SinglesPartIsRead(words: seq<string>, word: Option<string>, text: string, rest: string)
    requires '\'' !in text
    ensures Run(Begun(words, word), "'" + text + "'" + rest) == Run(Begun(words, Longer(word, text)), rest)
  {
    hide Run, IsWhitespace;
    var behind := text + "'" + rest;
    var state, whole := Begun(words, word), "'" + behind;
    assert whole == "'" + text + "'" + rest && whole[1..] == behind;
    RunStep(state, whole);
    SinglesAreRead(state.(started := true, quote := Single), text, rest);
  }

  lemma DoublesPartIsRead(words: seq<string>, word: Option<string>, atoms: seq<Atom>, rest: string)
    requires forall i :: 0 <= i < |atoms| ==> InDoubles(atoms[i])
    ensures Run(Begun(words, word), "\"" + AtomsText(atoms) + "\"" + rest)
         == Run(Begun(words, Longer(word, Letters(atoms))), rest)
  {
    hide Run, AtomsText, Letters, IsWhitespace, InDoubles;
    var behind := AtomsText(atoms) + "\"" + rest;
    var state, whole := Begun(words, word), "\"" + behind;
    assert whole == "\"" + AtomsText(atoms) + "\"" + rest && whole[1..] == behind;
    RunStep(state, whole);
    DoublesAreRead(state.(started := true, quote := Double), atoms, rest);
  }

  lemma SpaceIsRead(words: seq<string>, word: Option<string>, c: char, rest: string)
    requires IsWhitespace(c)
    ensures Run(Begun(words, word), [c] + rest)
         == Run(Begun(words + if word.Some? then [word.value] else [], None), rest)
  {
    hide Run;
    RunStep(Begun(words, word), [c] + rest);
    assert ([c] + rest)[1..] == rest && words + [] == words;
  }

  lemma PartIsRead(words: seq<string>, word: Option<string>, part: Part, rest: string)
    requires Legal(part, word.None?)
    ensures
      Run(Begun(words, word), PartText(part) + rest) ==
      if part.Space? then Run(Begun(words + if word.Some? then [word.value] else [], None), rest)
      else Run(Begun(words, Longer(word, Meaning(part))), rest)
  {
    hide Run, Step, AtomText, Begun, Longer;
    match part
    case Open(atom) => OpenIsRead(words, word, atom, rest);
    case Space(c) => SpaceIsRead(words, word, c, rest);
    case Singles(text) => SinglesPartIsRead(words, word, text, rest);
    case Doubles(atoms) => DoublesPartIsRead(words, word, atoms, rest);
  }

  lemma {:induction false} PartsAreRead(words: seq<string>, word: Option<string>, parts: seq<Part>)
    requires AllLegal(parts, word.Some?)
    ensures
      var read := Run(Begun(words, word), LineText(parts));
      read.Ok? && Finish(read.value) == Ok(words + Parsed(word, parts))
    decreases |parts|
  {
    hide Run, Legal, PartText, Meaning;
    if parts == [] {
      RunAtEnd(Begun(words, word));
      assert words + [] == words;
    } else {
      PartIsRead(words, word, parts[0], LineText(parts[1..]));
      if parts[0].Space? {
        var ended := if word.Some? then [word.value] else [];
        PartsAreRead(words + ended, None, parts[1..]);
        Regroup(words, ended, Parsed(None, parts[1..]));
      } else {
        PartsAreRead(words, Longer(word, Meaning(parts[0])), parts[1..]);
      }
    }
  }

  // ----- What is read has parts -----

  lemma {:induction false} SinglesClose(state: State, text: string) returns (inside: string, rest: string)
    requires state.quote.Single? && Run(state, text).Ok? && Finish(Run(state, text).value).Ok?
    ensures text == inside + "'" + rest && '\'' !in inside
    decreases |text|
  {
    hide Run;
    if text == "" {
      RunAtEnd(state);
      inside, rest := "", "";
    } else {
      RunStep(state, text);
      if text[0] == '\'' {
        inside, rest := "", text[1..];
        assert text == "" + "'" + rest;
      } else {
        inside, rest := SinglesClose(state.(word := state.word + [text[0]]), text[1..]);
        assert text == [text[0]] + text[1..];
        assert [text[0]] + (inside + "'" + rest) == [text[0]] + inside + "'" + rest;
        inside := [text[0]] + inside;
      }
    }
  }

  lemma StepMustSucceed(state: State, text: string)
    requires text != "" && Run(state, text).Ok?
    ensures Step(state, text).Ok? && 1 <= Step(state, text).value.1 <= |text|
  {
  }

  lemma {:induction false} DoublesClose(state: State, text: string) returns (atoms: seq<Atom>, rest: string)
    requires state.quote.Double? && Run(state, text).Ok? && Finish(Run(state, text).value).Ok?
    ensures text == AtomsText(atoms) + "\"" + rest && forall i :: 0 <= i < |atoms| ==> InDoubles(atoms[i])
    decreases |text|
  {
    hide Run;
    if text == "" {
      RunAtEnd(state);
      atoms, rest := [], "";
    } else {
      StepMustSucceed(state, text);
      RunStep(state, text);
      if text[0] == '"' {
        atoms, rest := [], text[1..];
        assert text == "" + "\"" + rest;
      } else {
        var read := Step(state, text).value.1;
        var first := if text[0] == '\\' then Escaped(text[1]) else Bare(text[0]);
        assert text == AtomText(first) + text[read..];
        var others: seq<Atom>;
        others, rest := DoublesClose(Step(state, text).value.0, text[read..]);
        atoms := [first] + others;
        assert atoms[1..] == others;
        assert AtomText(first) + (AtomsText(others) + "\"" + rest) == AtomsText(atoms) + "\"" + rest;
      }
    }
  }

  lemma NothingLeft(state: State)
    requires !state.quote.Unquoted?
    ensures Run(state, "") == Ok(state) && Finish(state).Err?
  {
  }

  /** The part with which an accepted text begins. */
  lemma FirstPart(words: seq<string>, word: Option<string>, text: string) returns (part: Part, rest: string)
    requires text != "" && Run(Begun(words, word), text).Ok? && Finish(Run(Begun(words, word), text).value).Ok?
    ensures text == PartText(part) + rest && Legal(part, word.None?)
  {
    hide Run;
    var state, c := Begun(words, word), text[0];
    StepMustSucceed(state, text);
    RunStep(state, text);
    assert text == [c] + text[1..];
    if c == '\'' {
      var inside;
      inside, rest := SinglesClose(state.(started := true, quote := Single), text[1..]);
      part := Singles(inside);
      assert [c] + (inside + "'" + rest) == "'" + inside + "'" + rest;
    } else if c == '"' {
      var atoms;
      atoms, rest := DoublesClose(state.(started := true, quote := Double), text[1..]);
      part := Doubles(atoms);
      assert [c] + (AtomsText(atoms) + "\"" + rest) == "\"" + AtomsText(atoms) + "\"" + rest;
    } else if c == '\\' {
      part, rest := Open(Escaped(text[1])), text[2..];
      assert text == ['\\', text[1]] + rest;
    } else {
      part, rest := if IsWhitespace(c) then Space(c) else Open(Bare(c)), text[1..];
    }
  }

  lemma {:induction false} ReadHasParts(words: seq<string>, word: Option<string>, text: string)
    returns (parts: seq<Part>)
    requires Run(Begun(words, word), text).Ok? && Finish(Run(Begun(words, word), text).value).Ok?
    ensures LineText(parts) == text && AllLegal(parts, word.Some?)
    decreases |text|
  {
    hide Run, Legal, PartText, Meaning;
    if text == "" {
      parts := [];
    } else {
      var first, rest := FirstPart(words, word, text);
      PartIsRead(words, word, first, rest);
      PartTakesSpace(first);
      var others;
      if first.Space? {
        others := ReadHasParts(words + if word.Some? then [word.value] else [], None, rest);
      } else {
        others := ReadHasParts(words, Longer(word, Meaning(first)), rest);
      }
      parts := [first] + others;
      assert parts[1..] == others;
    }
  }

  lemma PartTakesSpace(part: Part)
    ensures PartText(part) != ""
  {
  }

  ghost predicate Spells(parts: seq<Part>, text: string, words: seq<string>) {
    LineText(parts) == text && AllLegal(parts, false) && Parsed(None, parts) == words
  }

  /** A line is accepted as these words if and only if it is short enough, has no control character and
      is made of legal parts that spell them. */
  lemma AcceptedIff(text: string, words: seq<string>)
    ensures Words(text) == Ok(words) <==>
            Bytes(text) <= MAX_TEXT_BYTES && !HasControl(text) && exists parts :: Spells(parts, text, words)
  {
    hide Run, AllLegal, LineText, Parsed, HasControl;
    assert START == Begun([], None);
    if parts :| Spells(parts, text, words) {
      PartsAreRead([], None, parts);
      assert [] + words == words;
    }
    if Words(text) == Ok(words) {
      var parts := ReadHasParts([], None, text);
      PartsAreRead([], None, parts);
      assert [] + Parsed(None, parts) == Parsed(None, parts);
      assert Spells(parts, text, words);
    }
  }

  // ----- What is refused -----

  /** What is wrong with a line that goes on like this behind legal parts. */
  ghost predicate Refuses(inWord: bool, rest: string, error: Error) {
    || (rest == "\\" && error.TrailingBackslash?)
    || (rest != "" && (rest[0] == '$' || rest[0] == '`') && error.Expansion?)
    || (rest != "" && rest[0] == '~' && !inWord && error.Expansion?)
    || (rest != "" && rest[0] in {';', '|', '&', '<', '>', '{', '}', '#'} && error.CommandChain?)
    || (rest != "" && rest[0] in {'*', '?', '[', ']'} && error.Pattern?)
    || (rest != "" && rest[0] == '\'' && '\'' !in rest[1..] && error.UnterminatedSingle?)
    || (exists atoms, behind :: RefusesInDoubles(rest, atoms, behind, error))
  }

  ghost predicate RefusesInDoubles(rest: string, atoms: seq<Atom>, behind: string, error: Error) {
    && rest == "\"" + (AtomsText(atoms) + behind) && (forall i :: 0 <= i < |atoms| ==> InDoubles(atoms[i]))
    && ((behind == "" && error.UnterminatedDouble?)
        || (behind == "\\" && error.TrailingBackslash?)
        || (behind != "" && (behind[0] == '$' || behind[0] == '`') && error.Expansion?))
  }

  lemma {:induction false} SinglesGoOn(state: State, text: string)
    requires state.quote.Single? && '\'' !in text
    ensures Run(state, text) == Ok(state.(word := state.word + text))
    decreases |text|
  {
    hide Run;
    if text == "" {
      RunAtEnd(state);
      assert state.word + "" == state.word;
    } else {
      RunStep(state, text);
      SinglesGoOn(state.(word := state.word + [text[0]]), text[1..]);
      Regroup(state.word, [text[0]], text[1..]);
      assert [text[0]] + text[1..] == text;
    }
  }

  lemma RefusedHere(words: seq<string>, word: Option<string>, rest: string, error: Error)
    requires Refuses(word.Some?, rest, error)
    ensures
      var read := Run(Begun(words, word), rest);
      read == Err(error) || (read.Ok? && Finish(read.value) == Err(error))
  {
    var state := Begun(words, word);
    if rest[0] == '\'' {
      hide Run;
      RunStep(state, rest);
      SinglesGoOn(state.(started := true, quote := Single), rest[1..]);
    } else if rest[0] == '"' {
      var atoms, behind :| RefusesInDoubles(rest, atoms, behind, error);
      RefusedInDoubles(state, rest, atoms, behind, error);
    }
  }

  lemma RefusedInDoubles(state: State, rest: string, atoms: seq<Atom>, behind: string, error: Error)
    requires state.quote.Unquoted? && RefusesInDoubles(rest, atoms, behind, error)
    ensures
      var read := Run(state, rest);
      read == Err(error) || (read.Ok? && Finish(read.value) == Err(error))
  {
    hide AtomsText, Letters;
    var inside := state.(started := true, quote := Double);
    RunStep(state, rest);
    assert rest[1..] == AtomsText(atoms) + behind;
    DoublesGoOn(inside, atoms, behind);
  }

  lemma {:induction false} ReadsSoFar(words: seq<string>, word: Option<string>, parts: seq<Part>, rest: string)
    returns (now: seq<string>, begun: Option<string>)
    requires AllLegal(parts, word.Some?)
    ensures Run(Begun(words, word), LineText(parts) + rest) == Run(Begun(now, begun), rest)
    ensures begun.Some? <==> if parts == [] then word.Some? else !parts[|parts| - 1].Space?
    decreases |parts|
  {
    hide Run, Legal, PartText, Meaning, Begun;
    if parts == [] {
      assert "" + rest == rest;
      now, begun := words, word;
    } else {
      Regroup(PartText(parts[0]), LineText(parts[1..]), rest);
      PartIsRead(words, word, parts[0], LineText(parts[1..]) + rest);
      assert |parts| > 1 ==> parts[1..][|parts| - 2] == parts[|parts| - 1];
      if parts[0].Space? {
        now, begun := ReadsSoFar(words + if word.Some? then [word.value] else [], None, parts[1..], rest);
      } else {
        now, begun := ReadsSoFar(words, Longer(word, Meaning(parts[0])), parts[1..], rest);
      }
    }
  }

  /** Behind legal parts, the next character tells why a line is refused, whatever follows it. */
  lemma RefusedBecause(parts: seq<Part>, rest: string, error: Error)
    requires AllLegal(parts, false) && Refuses(parts != [] && !parts[|parts| - 1].Space?, rest, error)
    ensures
      var text := LineText(parts) + rest;
      Words(text) == Err(if Bytes(text) > MAX_TEXT_BYTES then TooLong
                         else if HasControl(text) then ControlCharacter else error)
  {
    hide HasControl, AllLegal, LineText, Run, Refuses;
    assert START == Begun([], None);
    var now, begun := ReadsSoFar([], None, parts, rest);
    RefusedHere(now, begun, rest, error);
  }
}
