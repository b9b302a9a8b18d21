/**
 Feeding terminal output to the emulator. Output arrives in fragments that may cut a character;
 the bytes of an unfinished character wait for the next fragment, and ill-formed bytes are
 replaced as section 3.9 of the Unicode Standard recommends.
 */
module OutputFeed {
  import opened Basics

  // ----- UTF-8 -----

  predicate Continuation(b: byte) {
    0x80 <= b <= 0xBF
  }

  /** The second bytes that Table 3-7 of the Unicode Standard allows behind a first byte. */
  predicate SecondByte(first: byte, second: byte) {
    match first
    case 0xE0 => 0xA0 <= second <= 0xBF
    case 0xED => 0x80 <= second <= 0x9F
    case 0xF0 => 0x90 <= second <= 0xBF
    case 0xF4 => 0x80 <= second <= 0x8F
    case _ => Continuation(second)
  }

  /** The number of bytes of a character that starts with this byte, 0 if none does. */
  function Width(first: byte): nat {
    if first < 0x80 then 1
    else if 0xC2 <= first <= 0xDF then 2
    else if 0xE0 <= first <= 0xEF then 3
    else if 0xF0 <= first <= 0xF4 then 4
    else 0
  }

  /** What stands at the start of some bytes. */
  datatype Head = Scalar(length: nat) | Invalid(length: nat) | Incomplete

  function HeadOf(s: seq<byte>): (head: Head)
    requires s != []
    ensures !head.Incomplete? ==> 1 <= head.length <= |s|
    ensures head.Incomplete? ==> |s| <= 3
  {
    var width := Width(s[0]);
    if width == 0 then Invalid(1)
    else if width == 1 then Scalar(1)
    else if |s| == 1 then Incomplete
    else if !SecondByte(s[0], s[1]) then Invalid(1)
    else if width == 2 then Scalar(2)
    else if |s| == 2 then Incomplete
    else if !Continuation(s[2]) then Invalid(2)
    else if width == 3 then Scalar(3)
    else if |s| == 3 then Incomplete
    else if !Continuation(s[3]) then Invalid(3)
    else Scalar(4)
  }

  /** The byte sequences that encode one character. */
  predicate WellFormed(s: seq<byte>) {
    && s != [] && |s| == Width(s[0])
    && (2 <= |s| ==> SecondByte(s[0], s[1]))
    && (3 <= |s| ==> Continuation(s[2]))
    && (4 <= |s| ==> Continuation(s[3]))
  }

  /** An initial part of the encoding of some character. */
  ghost predicate Initial(s: seq<byte>) {
    exists rest :: WellFormed(s + rest)
  }

  lemma InitialIff(s: seq<byte>)
    ensures Initial(s) <==>
            s == [] || (|s| <= Width(s[0]) && (2 <= |s| ==> SecondByte(s[0], s[1]))
                        && (3 <= |s| ==> Continuation(s[2])) && (4 <= |s| ==> Continuation(s[3])))
  {
    if Initial(s) {
      var rest :| WellFormed(s + rest);
    }
    if s == [] {
      assert WellFormed([] + [0x20]);
    } else if |s| <= Width(s[0]) && (2 <= |s| ==> SecondByte(s[0], s[1]))
              && (3 <= |s| ==> Continuation(s[2])) && (4 <= |s| ==> Continuation(s[3])) {
      var second := if s[0] == 0xE0 then 0xA0 else if s[0] == 0xF0 then 0x90 else 0x80;
      var rest := if |s| == 1 then [second, 0x80, 0x80][..Width(s[0]) - 1] else [0x80, 0x80][..Width(s[0]) - |s|];
      var whole := s + rest;
      assert |whole| == Width(s[0]) && whole[..|s|] == s;
      assert 2 <= |whole| ==> whole[1] == (if |s| == 1 then second else s[1]) && SecondByte(s[0], whole[1]);
      assert 3 <= |whole| ==> whole[2] == if |s| <= 2 then 0x80 else s[2];
      assert 4 <= |whole| ==> whole[3] == if |s| <= 3 then 0x80 else s[3];
      assert WellFormed(s + rest);
    }
  }

  /** What is taken from the start is one whole character, or else a maximal subpart of an
      ill-formed sequence: the longest initial part of a character, and at least one byte. */
  lemma HeadIsMaximalSubpart(s: seq<byte>)
    requires s != []
    ensures
      match HeadOf(s)
      case Scalar(n) => WellFormed(s[..n])
      case Invalid(n) =>
        && (forall k :: 0 <= k <= |s| ==> !WellFormed(s[..k]))
        && (n == 1 || Initial(s[..n]))
        && (forall k :: n < k <= |s| ==> !Initial(s[..k]))
      case Incomplete => Initial(s) && forall k :: 0 <= k <= |s| ==> !WellFormed(s[..k])
  {
    forall k | 0 <= k <= |s|
      ensures k == 0 || s[..k][0] == s[0]
      ensures Initial(s[..k]) <==>
              k == 0 || (k <= Width(s[0]) && (2 <= k ==> SecondByte(s[0], s[1]))
                         && (3 <= k ==> Continuation(s[2])) && (4 <= k ==> Continuation(s[3])))
    {
      InitialIff(s[..k]);
    }
    assert s[..|s|] == s;
  }

  lemma HeadIsStable(s: seq<byte>, more: seq<byte>)
    requires s != [] && !HeadOf(s).Incomplete?
    ensures HeadOf(s + more) == HeadOf(s)
  {}

  /** What the emulator is given: a character, known by its encoding, or the replacement character. */
  datatype Item = Character(encoding: seq<byte>) | Replacement

  /** Nothing can be taken from the start yet. */
  predicate Waiting(s: seq<byte>) {
    s == [] || HeadOf(s).Incomplete?
  }

  function First(s: seq<byte>): Item
    requires !Waiting(s)
  {
    if HeadOf(s).Scalar? then Character(s[..HeadOf(s).length]) else Replacement
  }

  function Behind(s: seq<byte>): seq<byte>
    requires !Waiting(s)
  {
    s[HeadOf(s).length..]
  }

  /** The items in some bytes. */
  function Items(s: seq<byte>): seq<Item>
    decreases |s|
  {
    if Waiting(s) then [] else [First(s)] + Items(Behind(s))
  }

  /** The bytes of an unfinished character at the end. */
  function Rest(s: seq<byte>): (rest: seq<byte>)
    ensures |rest| <= 3
    decreases |s|
  {
    if Waiting(s) then s else Rest(Behind(s))
  }

  lemma FirstIsStable(a: seq<byte>, b: seq<byte>)
    requires !Waiting(a)
    ensures !Waiting(a + b) && First(a + b) == First(a) && Behind(a + b) == Behind(a) + b
  {
    HeadIsStable(a, b);
  }

  lemma Prepend<T>(x: T, a: seq<T>, b: seq<T>)
    ensures [x] + (a + b) == [x] + a + b
  {}

  /** Decoding in two parts is decoding at once. */
  lemma {:induction false} DecodingContinues(a: seq<byte>, b: seq<byte>)
    ensures Items(a + b) == Items(a) + Items(Rest(a) + b)
    ensures Rest(a + b) == Rest(Rest(a) + b)
    decreases |a|
  {
    if Waiting(a) {
      assert [] + Items(a + b) == Items(a + b);
    } else {
      FirstIsStable(a, b);
      DecodingContinues(Behind(a), b);
      Prepend(First(a), Items(Behind(a)), Items(Rest(a) + b));
    }
  }

  // ----- The emulator -----

  /** How an emulator state changes, and what it answers. The replacement of ill-formed bytes is
      shown, but is never part of a query. */
  datatype Machine<!S> = Machine(character: (S, seq<byte>) -> (S, seq<byte>), replacement: S -> S)

  function Stepped<S>(machine: Machine<S>, state: S, item: Item): (S, seq<byte>) {
    match item
    case Character(encoding) => machine.character(state, encoding)
    case Replacement => (machine.replacement(state), [])
  }

  function Shown<S>(machine: Machine<S>, state: S, items: seq<Item>): S {
    if items == [] then state
    else Stepped(machine, Shown(machine, state, items[..|items| - 1]), items[|items| - 1]).0
  }

  function Replies<S>(machine: Machine<S>, state: S, items: seq<Item>): seq<byte> {
    if items == [] then []
    else
      var init := items[..|items| - 1];
      Replies(machine, state, init) + Stepped(machine, Shown(machine, state, init), items[|items| - 1]).1
  }

  lemma ShownNext<S>(machine: Machine<S>, state: S, items: seq<Item>, item: Item)
    ensures
      var (next, reply) := Stepped(machine, Shown(machine, state, items), item);
      && Shown(machine, state, items + [item]) == next
      && Replies(machine, state, items + [item]) == Replies(machine, state, items) + reply
  {
    assert (items + [item])[..|items|] == items;
  }

  lemma ShownNothing<S>(machine: Machine<S>, state: S)
    ensures Shown(machine, state, []) == state && Replies(machine, state, []) == []
  {}

  lemma {:induction false} ShownConcat<S>(machine: Machine<S>, state: S, a: seq<Item>, b: seq<Item>)
    ensures
      var middle := Shown(machine, state, a);
      && Shown(machine, state, a + b) == Shown(machine, middle, b)
      && Replies(machine, state, a + b) == Replies(machine, state, a) + Replies(machine, middle, b)
    decreases |b|
  {
    hide Shown, Replies, Stepped;
    if b == [] {
      ShownNothing(machine, Shown(machine, state, a));
      assert a + [] == a && Replies(machine, state, a) + [] == Replies(machine, state, a);
    } else {
      var init, last := b[..|b| - 1], b[|b| - 1];
      ShownConcat(machine, state, a, init);
      assert b == init + [last] && a + b == a + init + [last];
      ShownNext(machine, state, a + init, last);
      ShownNext(machine, Shown(machine, state, a), init, last);
    }
  }

  datatype Feeding<S> = Feeding(state: S, pending: seq<byte>)

  function Fed<S>(machine: Machine<S>, now: Feeding<S>, bytes: seq<byte>): Feeding<S> {
    Feeding(Shown(machine, now.state, Items(now.pending + bytes)), Rest(now.pending + bytes))
  }

  function Answers<S>(machine: Machine<S>, now: Feeding<S>, bytes: seq<byte>): seq<byte> {
    Replies(machine, now.state, Items(now.pending + bytes))
  }

  function FedAll<S>(machine: Machine<S>, now: Feeding<S>, fragments: seq<seq<byte>>): Feeding<S>
    decreases |fragments|
  {
    if fragments == [] then now else FedAll(machine, Fed(machine, now, fragments[0]), fragments[1..])
  }

  function AllAnswers<S>(machine: Machine<S>, now: Feeding<S>, fragments: seq<seq<byte>>): seq<byte>
    decreases |fragments|
  {
    if fragments == [] then []
    else Answers(machine, now, fragments[0]) + AllAnswers(machine, Fed(machine, now, fragments[0]), fragments[1..])
  }

  function Joined(fragments: seq<seq<byte>>): seq<byte> {
    if fragments == [] then [] else fragments[0] + Joined(fragments[1..])
  }

  lemma FedTwice<S>(machine: Machine<S>, now: Feeding<S>, a: seq<byte>, b: seq<byte>)
    ensures
      var next := Fed(machine, now, a);
      && Fed(machine, now, a + b) == Fed(machine, next, b)
      && Answers(machine, now, a + b) == Answers(machine, now, a) + Answers(machine, next, b)
  {
    hide Items, Rest;
    DecodingContinues(now.pending + a, b);
    assert now.pending + a + b == now.pending + (a + b);
    ShownConcat(machine, now.state, Items(now.pending + a), Items(Rest(now.pending + a) + b));
  }

  /** However output is cut into fragments, the emulator ends in the same state, with the same
      bytes waiting, and has given the same answers as for all output at once. */
  lemma {:induction false} FragmentsAreInvisible<S>(machine: Machine<S>, now: Feeding<S>, fragments: seq<seq<byte>>)
    requires fragments != []
    ensures FedAll(machine, now, fragments) == Fed(machine, now, Joined(fragments))
    ensures AllAnswers(machine, now, fragments) == Answers(machine, now, Joined(fragments))
    decreases |fragments|
  {
    hide Fed, Answers;
    var next := Fed(machine, now, fragments[0]);
    if |fragments| == 1 {
      assert fragments[1..] == [] && Joined([]) == [];
      assert fragments[0] + [] == fragments[0];
      assert AllAnswers(machine, next, []) == [];
    } else {
      FragmentsAreInvisible(machine, next, fragments[1..]);
      FedTwice(machine, now, fragments[0], Joined(fragments[1..]));
    }
  }

  // ----- The model of a pane -----

  /** The length of the longest start of `s` that consists of whole characters. */
  function ValidUpTo(s: seq<byte>): (n: nat)
    ensures n <= |s|
    decreases |s|
  {
    if Waiting(s) || HeadOf(s).Invalid? then 0 else HeadOf(s).length + ValidUpTo(Behind(s))
  }

  lemma OneCharacter(s: seq<byte>)
    requires !Waiting(s) && HeadOf(s).Scalar?
    ensures
      var character := s[..HeadOf(s).length];
      && Items(character) == [Character(character)] && Rest(character) == []
      && s == character + Behind(s)
  {
    var character := s[..HeadOf(s).length];
    assert HeadOf(character) == HeadOf(s) && Behind(character) == [] && First(character) == Character(character);
    assert Items([]) == [] && Rest([]) == [];
  }

  lemma ValidUpToStep(s: seq<byte>)
    ensures (Waiting(s) || HeadOf(s).Invalid?) ==> ValidUpTo(s) == 0
    ensures !(Waiting(s) || HeadOf(s).Invalid?) ==>
              var n, first := ValidUpTo(s), HeadOf(s).length;
              && first <= n && n - first == ValidUpTo(Behind(s))
              && s[..n] == s[..first] + Behind(s)[..n - first] && s[n..] == Behind(s)[n - first..]
  {}

  lemma OneMoreCharacter(s: seq<byte>, rest: seq<byte>)
    requires !Waiting(s) && HeadOf(s).Scalar? && Rest(rest) == []
    ensures
      var text := s[..HeadOf(s).length] + rest;
      Items(text) == [First(s)] + Items(rest) && Rest(text) == []
  {
    OneCharacter(s);
    hide Items, Rest, Waiting, HeadOf;
    var character := s[..HeadOf(s).length];
    DecodingContinues(character, rest);
    assert [] + rest == rest;
  }

  /** The text before the first ill-formed or unfinished byte decodes on its own. */
  lemma {:induction false} ValidUpToDecodes(s: seq<byte>)
    ensures
      var text, behind := s[..ValidUpTo(s)], s[ValidUpTo(s)..];
      && Rest(text) == []
      && (forall item :: item in Items(text) ==> item.Character?)
      && Items(s) == Items(text) + Items(behind) && Rest(s) == Rest(behind)
      && (Waiting(behind) || HeadOf(behind).Invalid?)
    decreases |s|
  {
    hide Items, Rest, HeadOf, ValidUpTo;
    ValidUpToStep(s);
    var n := ValidUpTo(s);
    assert s == s[..n] + s[n..];
    if Waiting(s) || HeadOf(s).Invalid? {
      NothingMore([], []);
      assert s[..0] == [] && s[0..] == s && [] + Items([]) == Items([]) && [] + Items(s) == Items(s);
    } else {
      ValidUpToDecodes(Behind(s));
      OneMoreCharacter(s, Behind(s)[..n - HeadOf(s).length]);
      DecodingContinues(s[..n], s[n..]);
      assert [] + s[n..] == s[n..];
    }
  }

  class Model<S> {
    const machine: Machine<S>
    var state: S
    var pending: seq<byte>

    ghost function Now(): Feeding<S>
      reads this
    {
      Feeding(state, pending)
    }

    constructor (machine: Machine<S>, state: S)
      ensures this.machine == machine && Now() == Feeding(state, [])
    {
      this.machine, this.state, pending := machine, state, [];
    }

    method Feed(bytes: seq<byte>) returns (replies: seq<byte>)
      modifies this
      ensures Now() == Fed(machine, old(Now()), bytes)
      ensures replies == Answers(machine, old(Now()), bytes)
      ensures |pending| <= 3
    {
      hide Items, Rest, First, HeadOf, Shown, Replies;
      pending := pending + bytes;
      replies := [];
      ghost var start, all := state, pending;
      ghost var done: seq<Item> := [];
      ShownNothing(machine, start);
      assert [] + Items(pending) == Items(pending);
      while true
        invariant Items(all) == done + Items(pending) && Rest(all) == Rest(pending)
        invariant state == Shown(machine, start, done) && replies == Replies(machine, start, done)
        decreases |pending|
      {
        var length := ValidUpTo(pending);
        ValidUpToDecodes(pending);
        if length > 0 {
          var text := pending[..length];
          pending := pending[length..];
          var answers := FeedText(text);
          ShownConcat(machine, start, done, Items(text));
          replies := replies + answers;
          assert done + (Items(text) + Items(pending)) == done + Items(text) + Items(pending);
          done := done + Items(text);
        } else {
          assert pending[0..] == pending;
        }
        if pending == [] || HeadOf(pending).Incomplete? {
          NothingMore(pending, done);
          return;
        }
        TakeFirst(pending);
        assert done + ([Replacement] + Items(Behind(pending))) == done + [Replacement] + Items(Behind(pending));
        pending := pending[HeadOf(pending).length..];
        state := machine.replacement(state);
        ShownNext(machine, start, done, Replacement);
        assert replies + [] == replies;
        done := done + [Replacement];
      }
    }

    /** Feeds whole characters one by one. */
    method FeedText(text: seq<byte>) returns (replies: seq<byte>)
      requires Rest(text) == [] && forall item :: item in Items(text) ==> item.Character?
      modifies this`state
      ensures state == Shown(machine, old(state), Items(text))
      ensures replies == Replies(machine, old(state), Items(text))
    {
      hide Items, Rest, HeadOf, Shown, Replies;
      var rest := text;
      replies := [];
      ghost var done: seq<Item> := [];
      ShownNothing(machine, old(state));
      assert [] + Items(text) == Items(text);
      while rest != []
        invariant Items(text) == done + Items(rest) && Rest(rest) == []
        invariant state == Shown(machine, old(state), done) && replies == Replies(machine, old(state), done)
        decreases |rest|
      {
        NotWaiting(rest);
        TakeFirst(rest);
        assert Items(rest)[0] in Items(text);
        var length := HeadOf(rest).length;
        var (next, reply) := machine.character(state, rest[..length]);
        ShownNext(machine, old(state), done, First(rest));
        assert done + ([First(rest)] + Items(Behind(rest))) == done + [First(rest)] + Items(Behind(rest));
        done := done + [First(rest)];
        state := next;
        replies := replies + reply;
        rest := rest[length..];
      }
      NothingMore(rest, done);
    }

    /** Starts over from a checkpoint: its screen answers no queries, and the bytes of a character
        that the checkpoint cuts wait for the rest. */
    method Restore(blank: S, payload: seq<byte>, prefix: seq<byte>)
      modifies this
      ensures
        var shown := Fed(machine, Feeding(blank, []), payload);
        Now() == Feeding(shown.state, shown.pending + prefix)
    {
      state, pending := blank, [];
      var _ := Feed(payload);
      pending := pending + prefix;
    }
  }

  lemma NothingMore(s: seq<byte>, done: seq<Item>)
    requires Waiting(s)
    ensures done + Items(s) == done && Rest(s) == s && |s| <= 3
  {}

  lemma NotWaiting(s: seq<byte>)
    requires s != [] && Rest(s) == []
    ensures !Waiting(s)
  {}

  lemma TakeFirst(s: seq<byte>)
    requires !Waiting(s)
    ensures Items(s) == [First(s)] + Items(Behind(s)) && Rest(s) == Rest(Behind(s))
    ensures HeadOf(s).Invalid? ==> First(s) == Replacement
    ensures |Behind(s)| < |s|
  {}

  /** A checkpoint that cuts a character loses nothing: output after it is shown as if the character
      had never been cut. */
  lemma RestoredPrefixContinues<S>(machine: Machine<S>, blank: S, payload: seq<byte>, prefix: seq<byte>,
                                   output: seq<byte>)
    ensures
      var shown := Fed(machine, Feeding(blank, []), payload);
      Fed(machine, Feeding(shown.state, shown.pending + prefix), output)
      == Fed(machine, Feeding(blank, []), payload + (prefix + output))
  {
    FedTwice(machine, Feeding(blank, []), payload, prefix + output);
    var shown := Fed(machine, Feeding(blank, []), payload);
    assert shown.pending + (prefix + output) == shown.pending + prefix + output;
  }
}
