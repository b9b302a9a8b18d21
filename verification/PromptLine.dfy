/**
 The prompt: editing a line of text whose cursor is a byte offset, walking through the history of
 commands, and showing the part of the line around the cursor in one row.
 */
module PromptLine {
  import opened Basics
  import opened Options
  import opened Characters

  const MAX_HISTORY := 100

  /** The number of cells that a character takes; none for a combining mark. */
  type Widths = char -> nat

  // ----- Byte offsets -----

  /** The offset does not split a character. */
  predicate Boundary(text: string, at: nat) {
    at == 0 || (text != "" && at >= Utf8Length(text[0]) && Boundary(text[1..], at - Utf8Length(text[0])))
  }

  /** The number of characters before a byte offset. */
  function Index(text: string, at: nat): (k: nat)
    requires Boundary(text, at)
    ensures k <= |text| && Bytes(text[..k]) == at
  {
    if at == 0 then 0
    else
      var k := 1 + Index(text[1..], at - Utf8Length(text[0]));
      assert text[..k][1..] == text[1..][..k - 1];
      k
  }

  lemma {:induction false} BytesAreBoundary(text: string, k: nat)
    requires k <= |text|
    ensures Boundary(text, Bytes(text[..k])) && Index(text, Bytes(text[..k])) == k
  {
    if k > 0 {
      BytesAreBoundary(text[1..], k - 1);
      assert text[..k][1..] == text[1..][..k - 1];
    }
  }

  lemma {:induction false} BytesIncrease(text: string, j: nat, k: nat)
    requires j <= k <= |text|
    ensures Bytes(text[..j]) + (k - j) <= Bytes(text[..k])
    decreases k - j
  {
    if j < k {
      BytesIncrease(text, j, k - 1);
      BytesOfJoined(text[..k - 1], [text[k - 1]]);
      assert text[..k] == text[..k - 1] + [text[k - 1]];
    }
  }

  // ----- Showing the line -----

  function Width(w: Widths, text: string): nat {
    if text == "" then 0 else Width(w, text[..|text| - 1]) + w(text[|text| - 1])
  }

  /** A character that takes cells, with the marks on it. */
  datatype Group = Group(text: string, cells: nat)

  function Grouped(w: Widths, groups: seq<Group>, c: char): seq<Group> {
    if w(c) > 0 then groups + [Group([c], w(c))]
    else if groups == [] then []
    else
      var last := groups[|groups| - 1];
      groups[..|groups| - 1] + [Group(last.text + [c], last.cells)]
  }

  /** The text, cut before each character that takes cells; marks before the first one are in no group. */
  function Groups(w: Widths, text: string): seq<Group> {
    if text == "" then [] else Grouped(w, Groups(w, text[..|text| - 1]), text[|text| - 1])
  }

  function Sum(groups: seq<Group>): nat {
    if groups == [] then 0 else Sum(groups[..|groups| - 1]) + groups[|groups| - 1].cells
  }

  function Joined(groups: seq<Group>): string {
    if groups == [] then "" else Joined(groups[..|groups| - 1]) + groups[|groups| - 1].text
  }

  predicate WellFormed(w: Widths, group: Group) {
    && group.text != "" && group.cells == w(group.text[0]) > 0
    && forall i :: 0 < i < |group.text| ==> w(group.text[i]) == 0
  }

  /** How many marks there are at the very start of a text, with no character to be on. */
  function LeadingMarks(w: Widths, text: string): (count: nat)
    ensures count <= |text| && forall i :: 0 <= i < count ==> w(text[i]) == 0
    ensures count < |text| ==> w(text[count]) > 0
  {
    if text == "" then 0
    else
      var count := LeadingMarks(w, text[..|text| - 1]);
      if count == |text| - 1 && w(text[|text| - 1]) == 0 then |text| else count
  }

  lemma SumPlus(groups: seq<Group>, group: Group)
    ensures Sum(groups + [group]) == Sum(groups) + group.cells
    ensures Joined(groups + [group]) == Joined(groups) + group.text
  {
    assert (groups + [group])[..|groups|] == groups;
  }

  lemma GroupsNext(w: Widths, text: string, c: char)
    ensures Groups(w, text + [c]) == Grouped(w, Groups(w, text), c)
    ensures Width(w, text + [c]) == Width(w, text) + w(c)
  {
    assert (text + [c])[..|text|] == text;
  }

  lemma GroupedKeepsText(w: Widths, groups: seq<Group>, c: char)
    ensures Sum(Grouped(w, groups, c)) == Sum(groups) + w(c)
    ensures groups != [] || w(c) > 0 ==> Joined(Grouped(w, groups, c)) == Joined(groups) + [c]
  {
    hide Sum, Joined;
    if w(c) > 0 {
      SumPlus(groups, Group([c], w(c)));
    } else if groups != [] {
      var init, last := groups[..|groups| - 1], groups[|groups| - 1];
      assert groups == init + [last];
      SumPlus(init, last);
      SumPlus(init, Group(last.text + [c], last.cells));
      assert Joined(init) + (last.text + [c]) == Joined(init) + last.text + [c];
    }
  }

  ghost predicate AllWellFormed(w: Widths, groups: seq<Group>) {
    forall i :: 0 <= i < |groups| ==> WellFormed(w, groups[i])
  }

  lemma GroupedIsWellFormed(w: Widths, groups: seq<Group>, c: char)
    requires AllWellFormed(w, groups)
    ensures AllWellFormed(w, Grouped(w, groups, c))
  {
  }

  lemma EmptyGroups(w: Widths)
    ensures Groups(w, "") == [] && Sum([]) == 0 == Width(w, "") && Joined([]) == ""
  {
  }

  /** The groups are the whole text but for its leading marks, in order; each is one character that
      takes cells with the marks on it, and they take the cells of the text. */
  lemma {:induction false} GroupsCutText(w: Widths, text: string)
    ensures AllWellFormed(w, Groups(w, text))
    ensures Sum(Groups(w, text)) == Width(w, text)
    ensures Joined(Groups(w, text)) == text[LeadingMarks(w, text)..]
    ensures Groups(w, text) == [] <==> LeadingMarks(w, text) == |text|
  {
    hide AllWellFormed, Groups, Width, Sum, Joined;
    EmptyGroups(w);
    if text == "" {
      NoneIllFormed(w);
    } else {
      var init, c := text[..|text| - 1], text[|text| - 1];
      assert text == init + [c];
      GroupsCutText(w, init);
      GroupsNext(w, init, c);
      GroupedIsWellFormed(w, Groups(w, init), c);
      GroupedKeepsText(w, Groups(w, init), c);
      if Groups(w, init) == [] && w(c) > 0 {
        assert text[|init|..] == [c];
      }
    }
  }

  lemma NoneIllFormed(w: Widths)
    ensures AllWellFormed(w, [])
  {
  }

  /** The groups of a part of the text begin the groups of the whole, but that the last one may get
      more marks. */
  lemma {:induction false} GroupsGrow(w: Widths, text: string, k: nat)
    requires k <= |text|
    ensures |Groups(w, text[..k])| <= |Groups(w, text)|
    ensures forall i :: 0 <= i < |Groups(w, text[..k])| ==>
      Groups(w, text)[i].cells == Groups(w, text[..k])[i].cells
    decreases |text| - k
  {
    hide Groups, Width;
    if k < |text| {
      GroupsGrow(w, text, k + 1);
      GroupsNext(w, text[..k], text[k]);
      assert text[..k + 1] == text[..k] + [text[k]];
    } else {
      assert text[..k] == text;
    }
  }

  lemma {:induction false} SameCells(a: seq<Group>, b: seq<Group>)
    requires |a| == |b| && forall i :: 0 <= i < |a| ==> a[i].cells == b[i].cells
    ensures Sum(a) == Sum(b)
  {
    if a != [] {
      SameCells(a[..|a| - 1], b[..|b| - 1]);
    }
  }

  lemma {:induction false} SumsIncrease(groups: seq<Group>, i: nat, j: nat)
    requires i <= j <= |groups|
    ensures Sum(groups[..j]) == Sum(groups[..i]) + Sum(groups[i..j])
  {
    if i < j {
      SumsIncrease(groups, i, j - 1);
      assert groups[..j][..j - 1] == groups[..j - 1];
      assert groups[i..j][..j - 1 - i] == groups[i..j - 1];
    } else {
      assert groups[i..j] == [];
    }
  }

  /** The groups before the cursor take exactly the cells of the text before it. */
  lemma GroupsBeforeCursor(w: Widths, text: string, k: nat)
    requires k <= |text|
    ensures
      var before := |Groups(w, text[..k])|;
      before <= |Groups(w, text)| && Sum(Groups(w, text)[..before]) == Width(w, text[..k])
  {
    hide Groups, Width, Sum;
    GroupsGrow(w, text, k);
    GroupsCutText(w, text[..k]);
    SameCells(Groups(w, text)[..|Groups(w, text[..k])|], Groups(w, text[..k]));
  }

  lemma GroupedAlone(w: Widths, groups: seq<Group>, c: char)
    ensures w(c) > 0 ==> Grouped(w, groups, c) == groups + [Group([c], w(c))]
    ensures w(c) == 0 ==> Grouped(w, [], c) == []
  {
  }

  lemma GroupedMark(w: Widths, groups: seq<Group>, last: Group, c: char)
    requires w(c) == 0
    ensures Grouped(w, groups + [last], c) == groups + [Group(last.text + [c], last.cells)]
  {
    assert (groups + [last])[..|groups|] == groups;
  }

  method DisplayGroups(w: Widths, text: string) returns (groups: seq<Group>)
    ensures groups == Groups(w, text)
  {
    hide Groups, Width, Grouped;
    groups := [];
    EmptyGroups(w);
    var start: Option<nat>, cells: nat := None, 0;
    for index := 0 to |text|
      invariant start.None? ==> groups == [] == Groups(w, text[..index])
      invariant start.Some? ==>
        start.value < index
        && groups + [Group(text[start.value..index], cells)] == Groups(w, text[..index])
    {
      GroupsNext(w, text[..index], text[index]);
      assert text[..index + 1] == text[..index] + [text[index]];
      var width := w(text[index]);
      GroupedAlone(w, Groups(w, text[..index]), text[index]);
      if width > 0 {
        if start.Some? {
          groups := groups + [Group(text[start.value..index], cells)];
        }
        start := Some(index);
        cells := width;
        assert text[index..index + 1] == [text[index]];
      } else if start.Some? {
        GroupedMark(w, groups, Group(text[start.value..index], cells), text[index]);
        assert text[start.value..index + 1] == text[start.value..index] + [text[index]];
      }
    }
    assert text[..|text|] == text;
    if start.Some? {
      groups := groups + [Group(text[start.value..], cells)];
    }
  }

  /** A row of at least two columns shows the groups from one to another: it does not exceed the
      columns; it holds every group between its first one and the cursor, which is on the cell after
      those; it has no room for one more group; and it has been scrolled no farther than the cursor
      needs. */
  ghost predicate Shown(w: Widths, text: string, k: nat, columns: nat, row: string, cursor: nat,
                        first: nat, last: nat)
    requires k <= |text|
  {
    var groups, before := Groups(w, text), |Groups(w, text[..k])|;
    && first <= before <= last <= |groups|
    && row == ":" + Joined(groups[first..last])
    && 1 + Sum(groups[first..last]) <= columns
    && cursor == 1 + Sum(groups[first..before]) < columns
    && (last == |groups| || 1 + Sum(groups[first..last + 1]) > columns)
    && (first == 0 || 1 + Sum(groups[first - 1..before]) >= columns)
  }

  lemma Parts(groups: seq<Group>, i: nat, j: nat)
    requires i <= j < |groups|
    ensures Sum(groups[i..j + 1]) == Sum(groups[i..j]) + groups[j].cells
    ensures Joined(groups[i..j + 1]) == Joined(groups[i..j]) + groups[j].text
  {
    SumPlus(groups[i..j], groups[j]);
    assert groups[i..j + 1] == groups[i..j] + [groups[j]];
  }

  lemma EmptyPart(groups: seq<Group>, i: nat)
    requires i <= |groups|
    ensures Sum(groups[i..i]) == 0 && Joined(groups[i..i]) == ""
  {
  }

  method CellsOf(w: Widths, text: string) returns (cells: nat)
    ensures cells == Width(w, text)
  {
    cells := 0;
    for i := 0 to |text|
      invariant cells == Width(w, text[..i])
    {
      assert text[..i + 1][..i] == text[..i];
      cells := cells + w(text[i]);
    }
    assert text[..|text|] == text;
  }

  /** The first group to show, and the cells before it. */
  method Scrolled(groups: seq<Group>, cursorColumn: nat, target: nat, ghost before: nat)
    returns (start: nat, startColumn: nat)
    requires before <= |groups| && Sum(groups[..before]) == cursorColumn && target <= cursorColumn
    ensures start <= before && startColumn == Sum(groups[..start])
    ensures target <= startColumn <= cursorColumn
    ensures start > 0 ==> Sum(groups[..start - 1]) < target
  {
    hide Sum;
    start, startColumn := 0, 0;
    EmptyPart(groups, 0);
    while start < |groups|
      invariant start <= before && startColumn == Sum(groups[..start])
      invariant start > 0 ==> Sum(groups[..start - 1]) < target
    {
      if start < before {
        SumsIncrease(groups, start + 1, before);
      }
      Parts(groups, 0, start);
      assert groups[0..start + 1] == groups[..start + 1] && groups[0..start] == groups[..start];
      if startColumn >= target || startColumn + groups[start].cells > cursorColumn {
        break;
      }
      startColumn := startColumn + groups[start].cells;
      start := start + 1;
    }
    SumsIncrease(groups, start, before);
  }

  /** As many groups as fit. */
  method Filled(groups: seq<Group>, start: nat, width: nat) returns (text: string, last: nat)
    requires start <= |groups|
    ensures start <= last <= |groups| && text == ":" + Joined(groups[start..last])
    ensures Sum(groups[start..last]) <= width
    ensures last < |groups| ==> Sum(groups[start..last + 1]) > width
  {
    hide Sum, Joined;
    text := ":";
    var used: nat := 0;
    last := start;
    EmptyPart(groups, start);
    while last < |groups|
      invariant start <= last <= |groups|
      invariant text == ":" + Joined(groups[start..last])
      invariant used == Sum(groups[start..last]) <= width
    {
      Parts(groups, start, last);
      if used + groups[last].cells > width {
        break;
      }
      text := text + groups[last].text;
      used := used + groups[last].cells;
      last := last + 1;
    }
  }

  lemma NotCutBeforeCursor(groups: seq<Group>, start: nat, before: nat, last: nat, width: nat)
    requires start <= before <= |groups| && start <= last <= |groups|
    requires Sum(groups[start..before]) <= width
    requires last < |groups| ==> Sum(groups[start..last + 1]) > width
    ensures before <= last
  {
    hide Sum;
    if last < before {
      SumsIncrease(groups, start, last + 1);
      SumsIncrease(groups, last + 1, before);
      SumsIncrease(groups, start, before);
    }
  }

  /** The part of the line around the cursor, and the column of the cursor. */
  method Display(w: Widths, text: string, at: nat, columns: nat) returns (row: string, cursor: nat)
    requires Boundary(text, at) && columns < 0x1_0000
    ensures columns == 0 ==> row == "" && cursor == 0
    ensures columns == 1 ==> row == ":" && cursor == 0
    ensures columns >= 2 ==> exists first, last :: Shown(w, text, Index(text, at), columns, row, cursor, first, last)
  {
    hide Groups, Sum, Joined, Width, Boundary, Index;
    if columns == 0 {
      return "", 0;
    }
    if columns == 1 {
      return ":", 0;
    }
    var width := columns - 1;
    var cursorColumn := CellsOf(w, text[..Index(text, at)]);
    var target := if cursorColumn < width - 1 then 0 else cursorColumn - (width - 1);
    var groups := DisplayGroups(w, text);
    ghost var before := |Groups(w, text[..Index(text, at)])|;
    GroupsBeforeCursor(w, text, Index(text, at));
    var start, startColumn := Scrolled(groups, cursorColumn, target, before);
    SumsIncrease(groups, start, before);
    var last;
    row, last := Filled(groups, start, width);
    NotCutBeforeCursor(groups, start, before, last, width);
    if start > 0 {
      SumsIncrease(groups, start - 1, before);
    }
    var offset := cursorColumn - startColumn;
    cursor := 1 + if offset < width - 1 then offset else width - 1;
    assert Shown(w, text, Index(text, at), columns, row, cursor, start, last);
  }

  // ----- Walking through the history -----

  /** What the arrow keys change: the line, and where it has been taken from. */
  datatype Walk = Walk(text: string, cursor: nat, index: Option<nat>, draft: string, draftCursor: nat)

  function Up(history: seq<string>, walk: Walk): Walk
    requires walk.index.Some? ==> walk.index.value < |history|
  {
    if history == [] then walk
    else if walk.index.Some? then
      var index := if walk.index.value == 0 then 0 else walk.index.value - 1;
      walk.(index := Some(index), text := history[index], cursor := Bytes(history[index]))
    else
      var index := |history| - 1;
      Walk(history[index], Bytes(history[index]), Some(index), walk.text, walk.cursor)
  }

  function Down(history: seq<string>, walk: Walk): Walk {
    if walk.index.None? then walk
    else
      var index := walk.index.value + 1;
      if index < |history| then walk.(index := Some(index), text := history[index], cursor := Bytes(history[index]))
      else walk.(index := None, text := walk.draft, cursor := walk.draftCursor)
  }

  function Ups(history: seq<string>, walk: Walk, n: nat): (after: Walk)
    requires walk.index.Some? ==> walk.index.value < |history|
    ensures after.index.Some? ==> after.index.value < |history|
  {
    if n == 0 then walk else Up(history, Ups(history, walk, n - 1))
  }

  function Downs(history: seq<string>, walk: Walk, n: nat): Walk
    decreases n
  {
    if n == 0 then walk else Downs(history, Down(history, walk), n - 1)
  }

  lemma {:induction false} UpsGoBack(history: seq<string>, walk: Walk, n: nat)
    requires walk.index.None? && history != [] && n > 0
    ensures
      var index := |history| - Min(n, |history|);
      Ups(history, walk, n) == Walk(history[index], Bytes(history[index]), Some(index), walk.text, walk.cursor)
  {
    if n > 1 {
      UpsGoBack(history, walk, n - 1);
    }
  }

  lemma {:induction false} DownsReturn(history: seq<string>, walk: Walk, n: nat)
    requires walk.index == Some(|history| - n) && 0 < n <= |history|
    ensures Downs(history, walk, n) == Walk(walk.draft, walk.draftCursor, None, walk.draft, walk.draftCursor)
    decreases n
  {
    if n > 1 {
      DownsReturn(history, Down(history, walk), n - 1);
    }
  }

  /** However far one walks up the history, walking down as many entries as there are brings back the
      line that was being written, with its cursor. */
  lemma WalkingBackRestoresDraft(history: seq<string>, walk: Walk, n: nat)
    requires walk.index.None?
    ensures
      var back := Downs(history, Ups(history, walk, n), Min(n, |history|));
      back.text == walk.text && back.cursor == walk.cursor && back.index.None?
  {
    hide Up, Down;
    if history == [] {
      NoHistory(walk, n);
    } else if n > 0 {
      UpsGoBack(history, walk, n);
      DownsReturn(history, Ups(history, walk, n), Min(n, |history|));
    }
  }

  lemma {:induction false} NoHistory(walk: Walk, n: nat)
    requires walk.index.None?
    ensures Ups([], walk, n) == walk
  {
    if n > 0 {
      NoHistory(walk, n - 1);
    }
  }

  datatype Arrow = Upwards | Downwards

  function Walked(history: seq<string>, walk: Walk, arrows: seq<Arrow>): (after: Walk)
    requires walk.index.Some? ==> walk.index.value < |history|
    ensures after.index.Some? ==> after.index.value < |history|
  {
    if arrows == [] then walk
    else
      var before := Walked(history, walk, arrows[..|arrows| - 1]);
      if arrows[|arrows| - 1].Upwards? then Up(history, before) else Down(history, before)
  }

  /** Where one is among some entries, with the unfinished line behind the last one. */
  function Place(count: nat, arrows: seq<Arrow>): (place: nat)
    ensures place <= count
  {
    if arrows == [] then count
    else
      var before := Place(count, arrows[..|arrows| - 1]);
      if arrows[|arrows| - 1].Upwards? then Sub(before, 1) else Min(before + 1, count)
  }

  /** After any arrow keys the entry shown is that of one's place, with the cursor at its end, and behind
      the last entry it is the line that was being written. */
  lemma {:induction false} ArrowsShowEntry(history: seq<string>, walk: Walk, arrows: seq<Arrow>)
    requires walk.index.None?
    ensures
      var after, place := Walked(history, walk, arrows), Place(|history|, arrows);
      if place == |history| then after.index.None? && after.text == walk.text && after.cursor == walk.cursor
      else after == Walk(history[place], Bytes(history[place]), Some(place), walk.text, walk.cursor)
  {
    if arrows != [] {
      ArrowsShowEntry(history, walk, arrows[..|arrows| - 1]);
    }
  }

  // ----- Editing -----

  /** How many characters of a piece fit into some bytes. */
  function Fitting(piece: string, bytes: nat): (n: nat)
    ensures n <= |piece| && Bytes(piece[..n]) <= bytes
    ensures n < |piece| ==> Bytes(piece[..n + 1]) > bytes
  {
    if piece == "" || Utf8Length(piece[0]) > bytes then
      assert piece != "" ==> piece[..1] == [piece[0]] && piece[..1][1..] == "";
      0
    else
      var n := 1 + Fitting(piece[1..], bytes - Utf8Length(piece[0]));
      assert piece[..n][1..] == piece[1..][..n - 1];
      assert n < |piece| ==> piece[..n + 1][1..] == piece[1..][..n];
      n
  }

  predicate Blank(text: string) {
    forall i :: 0 <= i < |text| ==> IsWhitespace(text[i])
  }

  /** The history holds no blank command, no command twice in a row, and not more than its limit. */
  ghost predicate Remembered(history: seq<string>) {
    && |history| <= MAX_HISTORY
    && (forall i :: 0 <= i < |history| ==> !Blank(history[i]))
    && (forall i :: 0 < i < |history| ==> history[i] != history[i - 1])
  }

  /** The history after a command has been submitted. */
  function Remember(history: seq<string>, text: string): seq<string> {
    if Blank(text) || (history != [] && history[|history| - 1] == text) then history
    else if |history| < MAX_HISTORY then history + [text]
    else history[1..] + [text]
  }

  lemma RememberedKept(history: seq<string>, text: string)
    requires Remembered(history)
    ensures Remembered(Remember(history, text))
    ensures !Blank(text) ==>
              Remember(history, text) != [] && Remember(history, text)[|Remember(history, text)| - 1] == text
  {
    hide Blank;
    if Blank(text) || (history != [] && history[|history| - 1] == text) {
    } else if |history| < MAX_HISTORY {
      AppendedIsRemembered(history, text);
    } else {
      AppendedIsRemembered(history[1..], text);
    }
  }

  /** What one is likely to look for again: the commands without blank ones and repetitions in a row. */
  function Distinct(commands: seq<string>): seq<string> {
    if commands == [] then []
    else
      var before, last := Distinct(commands[..|commands| - 1]), commands[|commands| - 1];
      if Blank(last) || (before != [] && before[|before| - 1] == last) then before else before + [last]
  }

  function Last(commands: seq<string>, n: nat): seq<string> {
    if |commands| <= n then commands else commands[|commands| - n..]
  }

  /** The history after these commands have been submitted one after the other. */
  function AfterCommands(commands: seq<string>): seq<string> {
    if commands == [] then []
    else Remember(AfterCommands(commands[..|commands| - 1]), commands[|commands| - 1])
  }

  /** The history is always the newest of all distinct commands, in their order. */
  lemma {:induction false} HistoryIsNewest(commands: seq<string>)
    ensures AfterCommands(commands) == Last(Distinct(commands), MAX_HISTORY)
  {
    hide Blank;
    if commands != [] {
      var n := |commands| - 1;
      HistoryIsNewest(commands[..n]);
      var before, last := Distinct(commands[..n]), commands[n];
      var kept := Last(before, MAX_HISTORY);
      assert kept != [] ==> kept[|kept| - 1] == before[|before| - 1];
      assert Last(before + [last], MAX_HISTORY) == if |kept| < MAX_HISTORY then kept + [last] else kept[1..] + [last];
    }
  }

  lemma AppendedIsRemembered(history: seq<string>, text: string)
    requires Remembered(history) && |history| < MAX_HISTORY && !Blank(text)
    requires history != [] ==> history[|history| - 1] != text
    ensures Remembered(history + [text]) && (history + [text])[|history|] == text
  {
    hide Blank;
    var longer := history + [text];
    forall i | 0 <= i < |longer|
      ensures !Blank(longer[i])
    {
      assert longer[i] == if i < |history| then history[i] else text;
    }
    forall i | 0 < i < |longer|
      ensures longer[i] != longer[i - 1]
    {
      assert longer[i - 1] == history[i - 1] && longer[i] == if i < |history| then history[i] else text;
    }
  }

  lemma {:induction false} EndIsBoundary(text: string)
    ensures Boundary(text, Bytes(text)) && Index(text, Bytes(text)) == |text|
  {
    BytesAreBoundary(text, |text|);
    assert text[..|text|] == text;
  }

  lemma CutIsBoundary(before: string, after: string)
    ensures Boundary(before + after, Bytes(before)) && Index(before + after, Bytes(before)) == |before|
  {
    BytesAreBoundary(before + after, |before|);
    assert (before + after)[..|before|] == before;
  }

  class Prompt {
    var active: bool
    var text: string
    var cursor: nat
    var history: seq<string>
    var historyIndex: Option<nat>
    var draft: string
    var draftCursor: nat
    var commandMode: bool

    ghost predicate Valid()
      reads this
    {
      && Boundary(text, cursor) && Remembered(history)
      && (historyIndex.Some? ==> historyIndex.value < |history| && Boundary(draft, draftCursor))
    }

    /** The number of characters before the cursor. */
    function At(): (k: nat)
      requires Boundary(text, cursor)
      reads this
      ensures k <= |text|
    {
      Index(text, cursor)
    }

    function Walking(): Walk
      reads this
    {
      Walk(text, cursor, historyIndex, draft, draftCursor)
    }

    constructor ()
      ensures Valid() && !active && text == "" && history == []
    {
      active, commandMode := false, false;
      text, cursor := "", 0;
      history, historyIndex := [], None;
      draft, draftCursor := "", 0;
    }

    /** Start to edit a text, with the cursor at its end. */
    method OpenText(newText: string)
      requires Valid()
      modifies this
      ensures Valid() && active && !commandMode && history == old(history)
      ensures text == newText && At() == |text| && historyIndex.None?
    {
      EndIsBoundary(newText);
      active := true;
      text := newText;
      cursor := Bytes(text);
      commandMode := false;
      historyIndex := None;
      draft, draftCursor := "", 0;
    }

    method Open()
      requires Valid()
      modifies this
      ensures Valid() && active && commandMode && history == old(history) && text == "" && historyIndex.None?
    {
      OpenText("");
      commandMode := true;
    }

    method Edited()
      modifies this`historyIndex, this`draft
      ensures historyIndex.None? && draft == ""
    {
      historyIndex := None;
      draft := "";
    }

    /** Insert as much of a piece at the cursor as the line may still hold. */
    method Insert(piece: string)
      requires Valid()
      modifies this`text, this`cursor, this`historyIndex, this`draft
      ensures Valid()
      ensures
        var k, used := old(At()), old(Bytes(text));
        var n := Fitting(piece, if used > MAX_TEXT_BYTES then 0 else MAX_TEXT_BYTES - used);
        && text == old(text[..At()]) + piece[..n] + old(text[At()..])
        && At() == k + n
        && (n == 0 ==> Walking() == old(Walking()))
        && (n > 0 ==> historyIndex.None? && Bytes(text) <= MAX_TEXT_BYTES)
    {
      hide Boundary, Index, Remembered, Fitting;
      var remaining := if Bytes(text) > MAX_TEXT_BYTES then 0 else MAX_TEXT_BYTES - Bytes(text);
      var bytes, n := FittingPrefix(piece, remaining);
      InsertedIs(text, cursor, piece[..n]);
      if bytes > 0 {
        Edited();
        text := text[..Index(text, cursor)] + piece[..n] + text[Index(text, cursor)..];
        cursor := cursor + bytes;
      } else {
        BytesIncrease(piece, 0, n);
        assert piece[..n] == "";
      }
    }

    /** Remove the characters between two places; the cursor goes to where they were. */
    method Remove(start: nat, end: nat)
      requires Valid() && Boundary(text, start) && Boundary(text, end)
      modifies this`text, this`cursor, this`historyIndex, this`draft
      ensures Valid()
      ensures start < end ==>
        && text == old(text[..Index(text, start)]) + old(text[Index(text, end)..])
        && At() == old(Index(text, start)) && historyIndex.None?
      ensures start >= end ==> Walking() == old(Walking())
    {
      hide Boundary, Index, Remembered;
      if start < end {
        Edited();
        CutIsBoundary(text[..Index(text, start)], text[Index(text, end)..]);
        text := text[..Index(text, start)] + text[Index(text, end)..];
        cursor := start;
      }
    }

    method Backspace()
      requires Valid()
      modifies this`text, this`cursor, this`historyIndex, this`draft
      ensures Valid()
      ensures
        var k := old(At());
        if k == 0 then Walking() == old(Walking())
        else text == old(text)[..k - 1] + old(text)[k..] && At() == k - 1 && historyIndex.None?
    {
      hide Boundary, Index, Remembered;
      var previous := PreviousBoundary(text, cursor);
      PreviousIs(text, cursor);
      Remove(previous, cursor);
    }

    method Delete()
      requires Valid()
      modifies this`text, this`cursor, this`historyIndex, this`draft
      ensures Valid()
      ensures
        var k := old(At());
        if k == |old(text)| then Walking() == old(Walking())
        else text == old(text)[..k] + old(text)[k + 1..] && At() == k && historyIndex.None?
    {
      hide Boundary, Index, Remembered;
      NextIs(text, cursor);
      Remove(cursor, NextBoundary(text, cursor));
    }

    method MoveLeft()
      requires Valid()
      modifies this`cursor
      ensures Valid() && At() == if old(At()) == 0 then 0 else old(At()) - 1
    {
      hide Boundary, Index, Remembered;
      PreviousIs(text, cursor);
      cursor := PreviousBoundary(text, cursor);
    }

    method MoveRight()
      requires Valid()
      modifies this`cursor
      ensures Valid() && At() == if old(At()) == |text| then |text| else old(At()) + 1
    {
      hide Boundary, Index, Remembered;
      NextIs(text, cursor);
      cursor := NextBoundary(text, cursor);
    }

    method PreviousHistory()
      requires Valid()
      modifies this`text, this`cursor, this`historyIndex, this`draft, this`draftCursor
      ensures Valid() && Walking() == Up(history, old(Walking()))
    {
      hide Boundary, Remembered;
      if history == [] {
        return;
      }
      var index;
      if historyIndex.Some? {
        index := if historyIndex.value == 0 then 0 else historyIndex.value - 1;
      } else {
        draft, draftCursor := text, cursor;
        index := |history| - 1;
      }
      historyIndex := Some(index);
      text := history[index];
      cursor := Bytes(text);
      EndIsBoundary(text);
    }

    method NextHistory()
      requires Valid()
      modifies this`text, this`cursor, this`historyIndex
      ensures Valid() && Walking() == Down(history, old(Walking()))
    {
      hide Boundary, Remembered;
      if historyIndex.None? {
        return;
      }
      var index := historyIndex.value;
      if index + 1 < |history| {
        historyIndex := Some(index + 1);
        text := history[index + 1];
        cursor := Bytes(text);
        EndIsBoundary(text);
      } else {
        historyIndex := None;
        text := draft;
        cursor := draftCursor;
      }
    }

    method Submit() returns (line: string)
      requires Valid()
      modifies this`active, this`historyIndex, this`history
      ensures Valid() && !active && line == text && historyIndex.None?
      ensures history == if commandMode then Remember(old(history), text) else old(history)
    {
      hide Boundary, Remembered;
      RememberedKept(history, text);
      active, historyIndex := false, None;
      if commandMode && !Blank(text) && (history == [] || history[|history| - 1] != text) {
        ghost var before := history;
        history := history + [text];
        LimitedBefore(before);
        if |history| > MAX_HISTORY {
          history := history[1..];
          assert history == before[1..] + [text];
        }
      }
      line := text;
    }
  }

  lemma LimitedBefore(history: seq<string>)
    requires Remembered(history)
    ensures |history| <= MAX_HISTORY
  {
  }

  lemma NoBytes(piece: string)
    ensures Bytes(piece[..0]) == 0
  {
  }

  lemma NextBytes(piece: string, n: nat)
    requires n < |piece|
    ensures Bytes(piece[..n + 1]) == Bytes(piece[..n]) + Utf8Length(piece[n])
  {
    BytesOfJoined(piece[..n], [piece[n]]);
    assert piece[..n + 1] == piece[..n] + [piece[n]];
  }

  method FittingPrefix(piece: string, remaining: nat) returns (bytes: nat, n: nat)
    ensures n == Fitting(piece, remaining) && bytes == Bytes(piece[..n])
  {
    hide Fitting, Bytes;
    bytes, n := 0, 0;
    NoBytes(piece);
    while n < |piece|
      invariant n <= |piece| && bytes == Bytes(piece[..n]) <= remaining
    {
      NextBytes(piece, n);
      if bytes + Utf8Length(piece[n]) > remaining {
        break;
      }
      bytes := bytes + Utf8Length(piece[n]);
      n := n + 1;
    }
    FittingIs(piece, remaining, n);
  }

  lemma InsertedIs(text: string, at: nat, piece: string)
    requires Boundary(text, at)
    ensures
      var k := Index(text, at);
      var after := text[..k] + piece + text[k..];
      && Boundary(after, at + Bytes(piece)) && Index(after, at + Bytes(piece)) == k + |piece|
      && Bytes(after) == Bytes(text) + Bytes(piece)
      && (piece == "" ==> after == text)
  {
    hide Boundary, Index, Bytes;
    var k := Index(text, at);
    CutIsBoundary(text[..k] + piece, text[k..]);
    assert text[..k] + text[k..] == text;
    BytesOfJoined(text[..k], text[k..]);
    BytesOfJoined(text[..k], piece);
    BytesOfJoined(text[..k] + piece, text[k..]);
  }

  lemma FittingIs(piece: string, bytes: nat, n: nat)
    requires n <= |piece| && Bytes(piece[..n]) <= bytes && (n < |piece| ==> Bytes(piece[..n + 1]) > bytes)
    ensures n == Fitting(piece, bytes)
  {
    hide Fitting, Bytes;
    var m := Fitting(piece, bytes);
    if n < m {
      BytesIncrease(piece, n + 1, m);
    } else if m < n {
      BytesIncrease(piece, m + 1, n);
    }
  }

  /** The offset of the character before an offset. */
  function PreviousBoundary(text: string, at: nat): nat
    requires Boundary(text, at)
  {
    var k := Index(text, at);
    if k == 0 then 0 else Bytes(text[..k - 1])
  }

  /** The offset after the character at an offset. */
  function NextBoundary(text: string, at: nat): nat
    requires Boundary(text, at)
  {
    var k := Index(text, at);
    if k == |text| then at else at + Utf8Length(text[k])
  }

  lemma PreviousIs(text: string, at: nat)
    requires Boundary(text, at)
    ensures Boundary(text, PreviousBoundary(text, at))
    ensures Index(text, PreviousBoundary(text, at)) == if Index(text, at) == 0 then 0 else Index(text, at) - 1
    ensures Index(text, at) > 0 ==> PreviousBoundary(text, at) < at
    ensures Index(text, at) == 0 ==> PreviousBoundary(text, at) == at
  {
    var k := Index(text, at);
    if k > 0 {
      BytesAreBoundary(text, k - 1);
      BytesIncrease(text, k - 1, k);
    }
  }

  lemma NextIs(text: string, at: nat)
    requires Boundary(text, at)
    ensures Boundary(text, NextBoundary(text, at))
    ensures Index(text, NextBoundary(text, at)) == if Index(text, at) == |text| then |text| else Index(text, at) + 1
    ensures Index(text, at) < |text| ==> at < NextBoundary(text, at)
    ensures Index(text, at) == |text| ==> NextBoundary(text, at) == at
  {
    var k := Index(text, at);
    if k < |text| {
      NextBytes(text, k);
      BytesAreBoundary(text, k + 1);
    }
  }
}
