// The line diff that config/center.go shows between two configurations.
module Diffs {

  // ---- Lines ------------------------------------------------------------

  predicate OneLine(s: string) {
    '\n' !in s
  }

  function IndexNewline(s: string): (i: nat)
    ensures i <= |s| && (i < |s| ==> s[i] == '\n') && OneLine(s[..i])
  {
    if s == "" || s[0] == '\n' then 0 else 1 + IndexNewline(s[1..])
  }

  // strings.Split(s, "\n").
  function Split(s: string): (lines: seq<string>)
    ensures |lines| >= 1 && forall l :: l in lines ==> OneLine(l)
  {
    var i := IndexNewline(s);
    if i == |s| then [s] else [s[..i]] + Split(s[i + 1..])
  }

  function Join(lines: seq<string>): string {
    if lines == [] then ""
    else if |lines| == 1 then lines[0]
    else lines[0] + "\n" + Join(lines[1..])
  }

  lemma JoinOne(line: string, rest: seq<string>)
    ensures Join([line]) == line
    ensures rest != [] ==> Join([line] + rest) == line + "\n" + Join(rest)
  {
    assert ([line] + rest)[1..] == rest;
  }

  lemma {:induction false} JoinSplit(s: string)
    ensures Join(Split(s)) == s
  {
    hide Join;
    var i := IndexNewline(s);
    if i < |s| {
      JoinSplit(s[i + 1..]);
      JoinOne(s[..i], Split(s[i + 1..]));
    } else {
      JoinOne(s, []);
    }
  }

  lemma SplitLine(line: string, rest: string)
    requires OneLine(line)
    ensures Split(line + "\n" + rest) == [line] + Split(rest)
  {
    var s := line + "\n" + rest;
    var i := IndexNewline(s);
    assert s[|line|] == '\n';
    assert forall k :: 0 <= k < |line| ==> s[k] == line[k] && line[k] in line;
    assert forall k :: 0 <= k < i ==> s[k] == s[..i][k] && s[k] in s[..i];
    assert i == |line|;
    assert s[..i] == line && s[i + 1..] == rest;
  }

  // ---- Edits ------------------------------------------------------------

  datatype Edit = Context(line: string) | Plus(line: string) | Minus(line: string)

  function Mark(e: Edit): char {
    match e
    case Context(_) => ' '
    case Plus(_) => '+'
    case Minus(_) => '-'
  }

  function ShowEdit(e: Edit): string {
    [Mark(e), ' '] + e.line + "\n"
  }

  function Show(edits: seq<Edit>): string {
    if edits == [] then "" else ShowEdit(edits[0]) + Show(edits[1..])
  }

  const HEADER: string := "--- Original Configuration\n+++ Proposed Configuration\n\n"

  // The edits between two lists of lines, of which `before` and `after` remain to be read.
  function Edits(olds: set<string>, news: set<string>, before: seq<string>, after: seq<string>): seq<Edit>
    decreases |before| + |after|
  {
    if before == [] && after == [] then []
    else if before != [] && after != [] && before[0] == after[0] then
      [Context(before[0])] + Edits(olds, news, before[1..], after[1..])
    else if after != [] && after[0] !in olds then
      [Plus(after[0])] + Edits(olds, news, before, after[1..])
    else if before != [] && before[0] !in news then
      [Minus(before[0])] + Edits(olds, news, before[1..], after)
    else if after == [] then
      [Minus(before[0])] + Edits(olds, news, before[1..], after)
    else if before == [] then
      [Plus(after[0])] + Edits(olds, news, before, after[1..])
    else
      [Minus(before[0]), Plus(after[0])] + Edits(olds, news, before[1..], after[1..])
  }

  function LineSet(lines: seq<string>): set<string> {
    set l | l in lines
  }

  function Between(before: seq<string>, after: seq<string>): seq<Edit> {
    Edits(LineSet(before), LineSet(after), before, after)
  }

  // The lines an edit list keeps when edits of kind `dropped` are left out.
  function Side(edits: seq<Edit>, dropped: char): seq<string> {
    if edits == [] then []
    else if Mark(edits[0]) == dropped then Side(edits[1..], dropped)
    else [edits[0].line] + Side(edits[1..], dropped)
  }

  lemma SideNone(dropped: char)
    ensures Side([], dropped) == []
  {}

  lemma SideOne(e: Edit, rest: seq<Edit>, dropped: char)
    ensures Side([e] + rest, dropped) == (if Mark(e) == dropped then [] else [e.line]) + Side(rest, dropped)
  {
    assert ([e] + rest)[1..] == rest;
  }

  lemma SideTwo(d: Edit, e: Edit, rest: seq<Edit>, dropped: char)
    ensures Side([d, e] + rest, dropped) ==
      (if Mark(d) == dropped then [] else [d.line]) + (if Mark(e) == dropped then [] else [e.line])
      + Side(rest, dropped)
  {
    assert [d, e] + rest == [d] + ([e] + rest);
    SideOne(d, [e] + rest, dropped);
    SideOne(e, rest, dropped);
  }

  // Both lists of lines can be read off their edits.
  lemma {:induction false} EditsDetermineBoth(
    olds: set<string>, news: set<string>, before: seq<string>, after: seq<string>)
    ensures Side(Edits(olds, news, before, after), '+') == before
    ensures Side(Edits(olds, news, before, after), '-') == after
    decreases |before| + |after|
  {
    hide Side;
    if before == [] && after == [] {
      SideNone('+');
      SideNone('-');
    } else if before != [] && after != [] && before[0] == after[0] {
      EditsDetermineBoth(olds, news, before[1..], after[1..]);
      var rest := Edits(olds, news, before[1..], after[1..]);
      SideOne(Context(before[0]), rest, '+');
      SideOne(Context(before[0]), rest, '-');
    } else if after != [] && (after[0] !in olds || before == []) {
      EditsDetermineBoth(olds, news, before, after[1..]);
      var rest := Edits(olds, news, before, after[1..]);
      SideOne(Plus(after[0]), rest, '+');
      SideOne(Plus(after[0]), rest, '-');
    } else if before[0] !in news || after == [] {
      EditsDetermineBoth(olds, news, before[1..], after);
      var rest := Edits(olds, news, before[1..], after);
      SideOne(Minus(before[0]), rest, '+');
      SideOne(Minus(before[0]), rest, '-');
    } else {
      EditsDetermineBoth(olds, news, before[1..], after[1..]);
      var rest := Edits(olds, news, before[1..], after[1..]);
      SideTwo(Minus(before[0]), Plus(after[0]), rest, '+');
      SideTwo(Minus(before[0]), Plus(after[0]), rest, '-');
    }
  }

  // ---- Reading a diff back ----------------------------------------------

  // The lines of a diff body without their two-character marks, except those marked `dropped`.
  function Unmarked(lines: seq<string>, dropped: char): seq<string> {
    if lines == [] then []
    else if |lines[0]| < 2 || lines[0][0] == dropped then Unmarked(lines[1..], dropped)
    else [lines[0][2..]] + Unmarked(lines[1..], dropped)
  }

  // What a reader recovers from a diff by dropping the header and one kind of line.
  function Recovered(diff: string, dropped: char): string {
    if |diff| < |HEADER| then "" else Join(Unmarked(Split(diff[|HEADER|..]), dropped))
  }

  function OldText(diff: string): string {
    Recovered(diff, '+')
  }

  function NewText(diff: string): string {
    Recovered(diff, '-')
  }

  lemma {:induction false} ShownSide(edits: seq<Edit>, dropped: char)
    requires forall e: Edit :: e in edits ==> OneLine(e.line)
    ensures Unmarked(Split(Show(edits)), dropped) == Side(edits, dropped)
  {
    if edits == [] {
      assert Unmarked([""], dropped) == Unmarked([""][1..], dropped);
    } else {
      ShownSide(edits[1..], dropped);
      var e := edits[0];
      var line := [Mark(e), ' '] + e.line;
      SplitLine(line, Show(edits[1..]));
      assert line[2..] == e.line;
    }
  }

  lemma {:induction false} EditsAreLines(
    olds: set<string>, news: set<string>, before: seq<string>, after: seq<string>)
    requires forall l :: l in before || l in after ==> OneLine(l)
    ensures forall e: Edit :: e in Edits(olds, news, before, after) ==> OneLine(e.line)
    decreases |before| + |after|
  {
    if before != [] { EditsAreLines(olds, news, before[1..], after); }
    if after != [] { EditsAreLines(olds, news, before, after[1..]); }
    if before != [] && after != [] { EditsAreLines(olds, news, before[1..], after[1..]); }
  }

  // The context and minus lines of a diff spell the old text, the context and plus lines
  // the new one, whatever the two texts are.
  lemma DiffDeterminesBothTexts(before: string, after: string)
    ensures var diff := HEADER + Show(Between(Split(before), Split(after)));
            OldText(diff) == before && NewText(diff) == after
  {
    var olds, news := Split(before), Split(after);
    var edits := Between(olds, news);
    EditsAreLines(LineSet(olds), LineSet(news), olds, news);
    ShownSide(edits, '+');
    ShownSide(edits, '-');
    EditsDetermineBoth(LineSet(olds), LineSet(news), olds, news);
    JoinSplit(before);
    JoinSplit(after);
    assert (HEADER + Show(edits))[|HEADER|..] == Show(edits);
  }

  // ---- Which lines are marked -------------------------------------------

  function Kept(lines: seq<string>, wanted: set<string>): seq<string> {
    if lines == [] then []
    else if lines[0] in wanted then [lines[0]] + Kept(lines[1..], wanted)
    else Kept(lines[1..], wanted)
  }

  // When the new text is the old one with foreign lines put in, nothing is shown as removed.
  lemma {:induction false} OnlyInsertions(
    olds: set<string>, news: set<string>, before: seq<string>, after: seq<string>)
    requires Kept(after, olds) == before
    ensures forall e: Edit :: e in Edits(olds, news, before, after) ==> !e.Minus?
    decreases |after|
  {
    KeptAreWanted(after, olds);
    if after != [] {
      OnlyInsertions(olds, news, Kept(after[1..], olds), after[1..]);
    }
  }

  lemma KeptAreWanted(lines: seq<string>, wanted: set<string>)
    ensures forall l :: l in Kept(lines, wanted) ==> l in wanted && l in lines
  {}

  // When the new text is the old one with every copy of some lines left out, nothing is
  // shown as added.
  lemma {:induction false} OnlyDeletions(
    olds: set<string>, news: set<string>, before: seq<string>, after: seq<string>)
    requires Kept(before, news) == after && forall l :: l in before ==> l in olds
    ensures forall e: Edit :: e in Edits(olds, news, before, after) ==> !e.Plus?
    decreases |before|
  {
    KeptAreWanted(before, news);
    if before != [] {
      OnlyDeletions(olds, news, before[1..], Kept(before[1..], news));
    }
  }

  // ---- The loop ---------------------------------------------------------

  lemma {:induction false} ShowConcat(a: seq<Edit>, b: seq<Edit>)
    ensures Show(a + b) == Show(a) + Show(b)
  {
    hide ShowEdit;
    if a == [] {
      assert a + b == b;
    } else {
      ShowConcat(a[1..], b);
      assert (a + b)[1..] == a[1..] + b && (a + b)[0] == a[0];
      Associate(ShowEdit(a[0]), Show(a[1..]), Show(b));
    }
  }

  lemma Associate(a: string, b: string, c: string)
    ensures (a + b) + c == a + (b + c)
  {}

  // `diff` shows `done`, and the lines still to be read give the other edits.
  ghost predicate Written(diff: string, done: seq<Edit>, olds: seq<string>, news: seq<string>, i: nat, j: nat) {
    && i <= |olds| && j <= |news|
    && diff == HEADER + Show(done)
    && Between(olds, news) == done + Edits(LineSet(olds), LineSet(news), olds[i..], news[j..])
  }

  lemma WriteStep(
    diff: string, done: seq<Edit>, step: seq<Edit>, olds: seq<string>, news: seq<string>,
    i: nat, j: nat, i': nat, j': nat)
    requires Written(diff, done, olds, news, i, j) && i' <= |olds| && j' <= |news|
    requires Edits(LineSet(olds), LineSet(news), olds[i..], news[j..]) ==
             step + Edits(LineSet(olds), LineSet(news), olds[i'..], news[j'..])
    ensures Written(diff + Show(step), done + step, olds, news, i', j')
  {
    ShowConcat(done, step);
    hide Edits, Show;
    var rest := Edits(LineSet(olds), LineSet(news), olds[i'..], news[j'..]);
    assert done + (step + rest) == (done + step) + rest;
    assert HEADER + (Show(done) + Show(step)) == (HEADER + Show(done)) + Show(step);
  }

  lemma WriteContext(diff: string, done: seq<Edit>, olds: seq<string>, news: seq<string>, i: nat, j: nat)
    requires Written(diff, done, olds, news, i, j)
    requires i < |olds| && j < |news| && olds[i] == news[j]
    ensures Written(diff + ("  " + olds[i] + "\n"), done + [Context(olds[i])], olds, news, i + 1, j + 1)
  {
    WriteStep(diff, done, [Context(olds[i])], olds, news, i, j, i + 1, j + 1);
    hide Show;
    assert [' ', ' '] + (olds[i] + "\n") == "  " + olds[i] + "\n";
  }

  lemma WritePlus(diff: string, done: seq<Edit>, olds: seq<string>, news: seq<string>, i: nat, j: nat)
    requires Written(diff, done, olds, news, i, j)
    requires j < |news| && !(i < |olds| && olds[i] == news[j])
    requires news[j] !in LineSet(olds) || i == |olds|
    ensures Written(diff + ("+ " + news[j] + "\n"), done + [Plus(news[j])], olds, news, i, j + 1)
  {
    WriteStep(diff, done, [Plus(news[j])], olds, news, i, j, i, j + 1);
    hide Show;
    assert ['+', ' '] + (news[j] + "\n") == "+ " + news[j] + "\n";
  }

  lemma WriteMinus(diff: string, done: seq<Edit>, olds: seq<string>, news: seq<string>, i: nat, j: nat)
    requires Written(diff, done, olds, news, i, j)
    requires i < |olds| && !(j < |news| && (olds[i] == news[j] || news[j] !in LineSet(olds)))
    requires olds[i] !in LineSet(news) || j == |news|
    ensures Written(diff + ("- " + olds[i] + "\n"), done + [Minus(olds[i])], olds, news, i + 1, j)
  {
    WriteStep(diff, done, [Minus(olds[i])], olds, news, i, j, i + 1, j);
    hide Show;
    assert ['-', ' '] + (olds[i] + "\n") == "- " + olds[i] + "\n";
  }

  // Lines that both texts contain, but not side by side.
  lemma WriteMoved(diff: string, done: seq<Edit>, olds: seq<string>, news: seq<string>, i: nat, j: nat)
    requires Written(diff, done, olds, news, i, j)
    requires i < |olds| && j < |news| && olds[i] != news[j]
    requires news[j] in LineSet(olds) && olds[i] in LineSet(news)
    ensures Written(diff + ("- " + olds[i] + "\n") + ("+ " + news[j] + "\n"),
            done + [Minus(olds[i])] + [Plus(news[j])], olds, news, i + 1, j + 1)
  {
    var d, e := Minus(olds[i]), Plus(news[j]);
    ShowConcat([d], [e]);
    WriteStep(diff, done, [d] + [e], olds, news, i, j, i + 1, j + 1);
    hide Show, Edits;
    assert ['-', ' '] + (olds[i] + "\n") == "- " + olds[i] + "\n";
    assert ['+', ' '] + (news[j] + "\n") == "+ " + news[j] + "\n";
    assert diff + (Show([d]) + Show([e])) == diff + Show([d]) + Show([e]);
    assert done + ([d] + [e]) == done + [d] + [e];
  }

  method CollectLines(lines: seq<string>) returns (m: set<string>)
    ensures m == LineSet(lines)
  {
    m := {};
    for k := 0 to |lines|
      invariant m == LineSet(lines[..k])
    {
      m := m + {lines[k]};
      assert lines[..k + 1] == lines[..k] + [lines[k]];
    }
    assert lines[..|lines|] == lines;
  }

  method GenerateDiff(oldText: string, newText: string) returns (diff: string)
    ensures OldText(diff) == oldText
    ensures NewText(diff) == newText
    ensures diff == HEADER + Show(Between(Split(oldText), Split(newText)))
  {
    var oldLines, newLines := Split(oldText), Split(newText);
    var m1 := CollectLines(oldLines);
    var m2 := CollectLines(newLines);
    diff := HEADER;
    var i, j := 0, 0;
    ghost var done: seq<Edit> := [];
    assert Written(diff, done, oldLines, newLines, 0, 0);
    while i < |oldLines| || j < |newLines|
      invariant Written(diff, done, oldLines, newLines, i, j)
      decreases |oldLines| - i + |newLines| - j
    {
      hide Edits, Show, Between;
      if i < |oldLines| && j < |newLines| && oldLines[i] == newLines[j] {
        WriteContext(diff, done, oldLines, newLines, i, j);
        diff := diff + ("  " + oldLines[i] + "\n");
        done := done + [Context(oldLines[i])];
        i, j := i + 1, j + 1;
      } else if j < |newLines| && newLines[j] !in m1 {
        WritePlus(diff, done, oldLines, newLines, i, j);
        diff := diff + ("+ " + newLines[j] + "\n");
        done := done + [Plus(newLines[j])];
        j := j + 1;
      } else if i < |oldLines| && oldLines[i] !in m2 {
        WriteMinus(diff, done, oldLines, newLines, i, j);
        diff := diff + ("- " + oldLines[i] + "\n");
        done := done + [Minus(oldLines[i])];
        i := i + 1;
      } else {
        if i == |oldLines| {
          WritePlus(diff, done, oldLines, newLines, i, j);
        } else if j == |newLines| {
          WriteMinus(diff, done, oldLines, newLines, i, j);
        } else {
          WriteMoved(diff, done, oldLines, newLines, i, j);
        }
        if i < |oldLines| {
          diff := diff + ("- " + oldLines[i] + "\n");
          done := done + [Minus(oldLines[i])];
          i := i + 1;
        }
        if j < |newLines| {
          diff := diff + ("+ " + newLines[j] + "\n");
          done := done + [Plus(newLines[j])];
          j := j + 1;
        }
      }
    }
    assert done == Between(oldLines, newLines) by {
      assert oldLines[i..] == [] && newLines[j..] == [];
    }
    DiffDeterminesBothTexts(oldText, newText);
  }
}
