/**
 How a command line is cut into words, without evaluating a shell language.
 */
module Tokenizer {
  import opened Basics
  import opened Options
  import opened Characters

  datatype Quote = Unquoted | Single | Double

  datatype Error =
    | TooLong
    | ControlCharacter
    | TrailingBackslash
    | Expansion
    | CommandChain
    | Pattern
    | UnterminatedSingle
    | UnterminatedDouble

  datatype State = State(words: seq<string>, word: string, started: bool, quote: Quote) {
    function Push(c: char): State {
      State(words, word + [c], true, quote)
    }

    function EndWord(): State {
      if started then State(words + [word], "", false, quote) else this
    }
  }

  predicate HasControl(text: string) {
    exists i :: 0 <= i < |text| && IsControl(text[i])
  }

  predicate Chains(c: char) {
    c in {';', '|', '&', '<', '>', '{', '}', '#'}
  }

  predicate Matches(c: char) {
    c in {'*', '?', '[', ']'}
  }

  /** One step: the state after reading from the front of a text, and how many characters were read. */
  function Step(state: State, text: string): Result<(State, nat), Error>
    requires text != ""
  {
    var c := text[0];
    if state.quote.Single? then
      if c == '\'' then Ok((state.(quote := Unquoted), 1))
      else Ok((state.(word := state.word + [c]), 1))
    else if state.quote.Double? && c == '"' then Ok((state.(quote := Unquoted), 1))
    else if c == '\\' then
      if |text| > 1 then Ok((state.Push(text[1]), 2)) else Err(TrailingBackslash)
    else if c == '$' || c == '`' then Err(Expansion)
    else if state.quote.Double? then Ok((state.Push(c), 1))
    else if c == '\'' then Ok((state.(started := true, quote := Single), 1))
    else if c == '"' then Ok((state.(started := true, quote := Double), 1))
    else if Chains(c) then Err(CommandChain)
    else if Matches(c) then Err(Pattern)
    else if c == '~' && !state.started then Err(Expansion)
    else if IsWhitespace(c) then Ok((state.EndWord(), 1))
    else Ok((state.Push(c), 1))
  }

  function Run(state: State, text: string): Result<State, Error>
    decreases |text|
  {
    if text == "" then Ok(state)
    else
      match Step(state, text)
      case Err(error) => Err(error)
      case Ok((next, read)) => Run(next, text[read..])
  }

  function Finish(state: State): Result<seq<string>, Error> {
    match state.quote
    case Single => Err(UnterminatedSingle)
    case Double => Err(UnterminatedDouble)
    case Unquoted => Ok(state.EndWord().words)
  }

  const START := State([], "", false, Unquoted)

  function Words(text: string): Result<seq<string>, Error> {
    if Bytes(text) > MAX_TEXT_BYTES then Err(TooLong)
    else if HasControl(text) then Err(ControlCharacter)
    else
      match Run(START, text)
      case Err(error) => Err(error)
      case Ok(state) => Finish(state)
  }

  /** The words of one command line. */
  method Tokenize(text: string) returns (result: Result<seq<string>, Error>)
    ensures result == Words(text)
  {
    if Bytes(text) > MAX_TEXT_BYTES {
      return Err(TooLong);
    }
    if HasControl(text) {
      return Err(ControlCharacter);
    }
    var words: seq<string>, word: string, started := [], "", false;
    var quote := Unquoted;
    var i := 0;
    assert text[0..] == text;
    while i < |text|
      invariant 0 <= i <= |text|
      invariant Run(START, text) == Run(State(words, word, started, quote), text[i..])
    {
      var c := text[i];
      ghost var before := State(words, word, started, quote);
      assert text[i..][0] == c && text[i..][1..] == text[i + 1..];
      assert i + 1 < |text| ==> text[i..][1] == text[i + 1] && text[i..][2..] == text[i + 2..];
      i := i + 1;
      if (quote.Single? && c == '\'') || (quote.Double? && c == '"') {
        quote := Unquoted;
      } else if quote.Single? {
        word := word + [c];
      } else if quote.Unquoted? && c == '\'' {
        started, quote := true, Single;
      } else if quote.Unquoted? && c == '"' {
        started, quote := true, Double;
      } else if c == '\\' {
        if i == |text| {
          return Err(TrailingBackslash);
        }
        word := word + [text[i]];
        i := i + 1;
        started := true;
      } else if c == '$' || c == '`' {
        return Err(Expansion);
      } else if quote.Unquoted? && Chains(c) {
        return Err(CommandChain);
      } else if quote.Unquoted? && Matches(c) {
        return Err(Pattern);
      } else if quote.Unquoted? && c == '~' && !started {
        return Err(Expansion);
      } else if quote.Unquoted? && IsWhitespace(c) {
        if started {
          words := words + [word];
          word, started := "", false;
        }
      } else {
        word := word + [c];
        started := true;
      }
    }
    assert text[|text|..] == "";
    match quote {
      case Single =>
        return Err(UnterminatedSingle);
      case Double =>
        return Err(UnterminatedDouble);
      case Unquoted =>
    }
    if started {
      words := words + [word];
    }
    return Ok(words);
  }

  // ----- Quoting -----

  /** The ways of writing a word literally. */
  datatype Style = SingleQuotes | DoubleQuotes | Backslashes

  /** One character of a word, as it is written between the quotes. */
  function Written(c: char, style: Style): string {
    match style
    case SingleQuotes => if c == '\'' then "'\\''" else [c]
    case DoubleQuotes => if c in {'"', '\\', '$', '`'} then ['\\', c] else [c]
    case Backslashes => ['\\', c]
  }

  function Inside(word: string, style: Style): string {
    if word == "" then "" else Written(word[0], style) + Inside(word[1..], style)
  }

  function Mark(style: Style): string {
    match style
    case SingleQuotes => "'"
    case DoubleQuotes => "\""
    case Backslashes => ""
  }

  function Quoted(word: string, style: Style): string {
    Mark(style) + Inside(word, style) + Mark(style)
  }

  /** A word and the way in which it is written; an empty word cannot be written with backslashes. */
  type Literal = l: (string, Style) | l.0 != "" || !l.1.Backslashes? witness ("", SingleQuotes)

  function Line(literals: seq<Literal>): string {
    if literals == [] then ""
    else
      var quoted := Quoted(literals[0].0, literals[0].1);
      if |literals| == 1 then quoted else quoted + " " + Line(literals[1..])
  }

  function Plain(literals: seq<Literal>): seq<string> {
    if literals == [] then [] else [literals[0].0] + Plain(literals[1..])
  }

  function QuoteOf(style: Style): Quote {
    match style
    case SingleQuotes => Single
    case DoubleQuotes => Double
    case Backslashes => Unquoted
  }

  lemma RunStep(state: State, text: string)
    requires text != "" && Step(state, text).Ok?
    ensures Run(state, text) == Run(Step(state, text).value.0, text[Step(state, text).value.1..])
  {
  }

  lemma WrittenIsRead(state: State, c: char, style: Style, rest: string)
    requires state.quote == QuoteOf(style) && (style.Backslashes? || state.started)
    ensures Run(state, Written(c, style) + rest) == Run(state.Push(c), rest)
  {
    hide Run;
    var text := Written(c, style) + rest;
    RunStep(state, text);
    if style.SingleQuotes? && c == '\'' {
      assert text[1..] == "\\''" + rest && text[1..][2..] == "'" + rest && text[1..][2..][1..] == rest;
      RunStep(state.(quote := Unquoted), text[1..]);
      RunStep(state.(quote := Unquoted).Push(c), text[1..][2..]);
    } else if |Written(c, style)| == 2 {
      assert text[2..] == rest;
    } else {
      assert text[1..] == rest;
    }
  }

  lemma {:induction false} InsideIsRead(state: State, word: string, style: Style, rest: string)
    requires state.quote == QuoteOf(style) && (style.Backslashes? || state.started)
    ensures Run(state, Inside(word, style) + rest)
         == Run(state.(word := state.word + word, started := state.started || word != ""), rest)
    decreases |word|
  {
    hide Run, Written;
    if word == "" {
      assert "" + rest == rest && state.word + word == state.word;
    } else {
      Regroup(Written(word[0], style), Inside(word[1..], style), rest);
      WrittenIsRead(state, word[0], style, Inside(word[1..], style) + rest);
      InsideIsRead(state.Push(word[0]), word[1..], style, rest);
      Regroup(state.word, [word[0]], word[1..]);
      assert [word[0]] + word[1..] == word;
    }
  }

  /** A quoted word is read as that word, wherever it starts. */
  lemma QuotedIsRead(state: State, literal: Literal, rest: string)
    requires state.quote.Unquoted? && !state.started && state.word == ""
    ensures Run(state, Quoted(literal.0, literal.1) + rest)
         == Run(state.(word := literal.0, started := true), rest)
  {
    hide Run, Inside;
    var word, style := literal.0, literal.1;
    var inside, mark := Inside(word, style), Mark(style);
    assert mark + inside + mark + rest == mark + (inside + (mark + rest));
    assert "" + word == word;
    if style.Backslashes? {
      assert mark + (inside + (mark + rest)) == inside + rest;
      InsideIsRead(state, word, style, rest);
    } else {
      var opening := state.(started := true, quote := QuoteOf(style));
      RunStep(state, mark + (inside + (mark + rest)));
      assert (mark + (inside + (mark + rest)))[1..] == inside + (mark + rest);
      InsideIsRead(opening, word, style, mark + rest);
      RunStep(opening.(word := word), mark + rest);
      assert (mark + rest)[1..] == rest;
    }
  }

  lemma SpaceEndsWord(state: State, rest: string)
    requires state.quote.Unquoted? && state.started
    ensures Run(state, " " + rest) == Run(State(state.words + [state.word], "", false, Unquoted), rest)
  {
    hide Run;
    RunStep(state, " " + rest);
    assert (" " + rest)[1..] == rest;
  }

  lemma RunAtEnd(state: State)
    ensures Run(state, "") == Ok(state)
  {
  }

  lemma {:induction false} LineIsRead(words: seq<string>, literals: seq<Literal>)
    ensures
      var read := Run(State(words, "", false, Unquoted), Line(literals));
      read.Ok? && Finish(read.value) == Ok(words + Plain(literals))
    decreases |literals|
  {
    hide Run, Quoted;
    var state := State(words, "", false, Unquoted);
    if literals == [] {
      RunAtEnd(state);
      assert words + [] == words;
    } else {
      var quoted := Quoted(literals[0].0, literals[0].1);
      var after := state.(word := literals[0].0, started := true);
      if |literals| == 1 {
        QuotedIsRead(state, literals[0], "");
        assert quoted + "" == quoted && literals[1..] == [];
        RunAtEnd(after);
        assert [literals[0].0] + [] == [literals[0].0];
      } else {
        Regroup(quoted, " ", Line(literals[1..]));
        QuotedIsRead(state, literals[0], " " + Line(literals[1..]));
        SpaceEndsWord(after, Line(literals[1..]));
        LineIsRead(words + [literals[0].0], literals[1..]);
        Regroup(words, [literals[0].0], Plain(literals[1..]));
      }
    }
  }

  // ----- Where control characters come from -----

  predicate ControlFree(words: seq<string>) {
    forall i :: 0 <= i < |words| ==> !HasControl(words[i])
  }

  lemma ControlOfJoined(a: string, b: string)
    ensures HasControl(a + b) <==> HasControl(a) || HasControl(b)
  {
    var ab := a + b;
    if i :| 0 <= i < |a| && IsControl(a[i]) {
      assert ab[i] == a[i];
    }
    if i :| 0 <= i < |b| && IsControl(b[i]) {
      assert ab[|a| + i] == b[i];
    }
  }

  lemma WrittenControl(c: char, style: Style)
    ensures HasControl(Written(c, style)) <==> HasControl([c])
  {
    var text := Written(c, style);
    assert [c][0] == c;
    assert text[|text| - 1] == c || (c == '\'' && text == "'\\''");
  }

  lemma {:induction false} InsideControl(word: string, style: Style)
    ensures HasControl(Inside(word, style)) <==> HasControl(word)
  {
    hide HasControl, Written;
    if word != "" {
      InsideControl(word[1..], style);
      WrittenControl(word[0], style);
      ControlOfJoined(Written(word[0], style), Inside(word[1..], style));
      ControlOfJoined([word[0]], word[1..]);
      assert [word[0]] + word[1..] == word;
    }
  }

  lemma QuotedControl(word: string, style: Style)
    ensures HasControl(Quoted(word, style)) <==> HasControl(word)
  {
    hide HasControl, Inside;
    InsideControl(word, style);
    MarkControl(style);
    ControlOfJoined(Mark(style) + Inside(word, style), Mark(style));
    ControlOfJoined(Mark(style), Inside(word, style));
  }

  lemma MarkControl(style: Style)
    ensures !HasControl(Mark(style)) && !HasControl(" ") && !HasControl("")
  {
  }

  lemma {:induction false} LineControl(literals: seq<Literal>)
    ensures HasControl(Line(literals)) <==> !ControlFree(Plain(literals))
  {
    hide HasControl, Quoted;
    MarkControl(SingleQuotes);
    if literals != [] {
      LineControl(literals[1..]);
      QuotedControl(literals[0].0, literals[0].1);
      ControlFreeFirst(literals[0].0, Plain(literals[1..]));
      if |literals| > 1 {
        var quoted := Quoted(literals[0].0, literals[0].1);
        ControlOfJoined(quoted + " ", Line(literals[1..]));
        ControlOfJoined(quoted, " ");
      }
    }
  }

  lemma ControlFreeFirst(word: string, words: seq<string>)
    ensures ControlFree([word] + words) <==> !HasControl(word) && ControlFree(words)
  {
    hide HasControl;
    assert ([word] + words)[0] == word;
    assert forall i :: 0 <= i < |words| ==> ([word] + words)[i + 1] == words[i];
  }

  /** Any list of words, each written in any of the three literal ways, is read back as that list,
      exactly when the line is not too long and there is no control character in the words. */
  lemma QuotingRoundTrip(literals: seq<Literal>)
    ensures Words(Line(literals)) == Ok(Plain(literals))
      <==> Bytes(Line(literals)) <= MAX_TEXT_BYTES && ControlFree(Plain(literals))
  {
    hide Run, Line, Plain, ControlFree, HasControl;
    LineIsRead([], literals);
    LineControl(literals);
    assert [] + Plain(literals) == Plain(literals);
  }

  // ----- Nothing is invented -----

  ghost predicate From(words: seq<string>, text: string) {
    forall i, j :: 0 <= i < |words| && 0 <= j < |words[i]| ==> words[i][j] in text
  }

  ghost predicate StateFrom(state: State, text: string) {
    From(state.words, text) && From([state.word], text)
  }

  lemma StepTakesFrom(state: State, text: string, whole: string)
    requires text != "" && Step(state, text).Ok? && StateFrom(state, whole)
    requires forall c :: c in text ==> c in whole
    ensures StateFrom(Step(state, text).value.0, whole)
    ensures 0 < Step(state, text).value.1 <= |text|
  {
    assert text[0] in text;
    assert |text| > 1 ==> text[1] in text;
    PushTakesFrom(state, text[0], whole);
    if |text| > 1 {
      PushTakesFrom(state, text[1], whole);
    }
    assert From([""], whole);
    assert [state.word][0] == state.word;
  }

  lemma PushTakesFrom(state: State, c: char, whole: string)
    requires StateFrom(state, whole) && c in whole
    ensures From([state.word + [c]], whole)
  {
    assert [state.word][0] == state.word;
  }

  lemma {:induction false} RunTakesFrom(state: State, text: string, whole: string)
    requires Run(state, text).Ok? && StateFrom(state, whole)
    requires forall c :: c in text ==> c in whole
    ensures StateFrom(Run(state, text).value, whole)
    decreases |text|
  {
    hide Step, StateFrom;
    if text != "" {
      StepTakesFrom(state, text, whole);
      RunTakesFrom(Step(state, text).value.0, text[Step(state, text).value.1..], whole);
    }
  }

  /** A word holds only characters of the line; so no word ever holds a control character, and any
      accepted command can be written again, in quotes, and read as the same words. */
  lemma WordsComeFromLine(text: string)
    requires Words(text).Ok?
    ensures From(Words(text).value, text) && ControlFree(Words(text).value)
  {
    hide Run;
    RunTakesFrom(START, text, text);
    var state := Run(START, text).value;
    assert [state.word][0] == state.word;
    forall i, j | 0 <= i < |Words(text).value| && 0 <= j < |Words(text).value[i]|
      ensures !IsControl(Words(text).value[i][j])
    {
      assert Words(text).value[i][j] in text;
    }
  }

  function InSingleQuotes(words: seq<string>): (literals: seq<Literal>)
    ensures Plain(literals) == words
  {
    if words == [] then [] else [(words[0], SingleQuotes)] + InSingleQuotes(words[1..])
  }

  lemma RequotingKeepsCommand(text: string)
    requires Words(text).Ok?
    ensures
      var again := Line(InSingleQuotes(Words(text).value));
      Bytes(again) <= MAX_TEXT_BYTES <==> Words(again) == Words(text)
  {
    hide Words, Line, InSingleQuotes, ControlFree;
    WordsComeFromLine(text);
    QuotingRoundTrip(InSingleQuotes(Words(text).value));
  }
}
