/** The master plan's check boxes: marking an epic's open tasks as done, and the two readers that
    count tasks and list closed epics. */
module MasterPlan {
  import opened Wrappers
  import opened Text
  import opened Numbers
  import opened Sequences

  const OPEN := "- [ ]"
  const DONE := "- [x]"
  const DONE_CAPITAL := "- [X]"
  const EPIC := "## \U{C9}PICA "

  // ---------- marking ----------

  function MarkPrefix(epicID: string): string {
    OPEN + " **" + epicID
  }

  /** The line with its box ticked, when it is an open task of the epic. */
  function MarkLine(line: string, prefix: string): string
    requires |prefix| >= 5
  {
    if HasPrefix(line, prefix) then DONE + line[5..] else line
  }

  function Marked(lines: seq<string>, prefix: string): seq<string>
    requires |prefix| >= 5
  {
    seq(|lines|, i requires 0 <= i < |lines| => MarkLine(lines[i], prefix))
  }

  function HitsUpTo(lines: seq<string>, prefix: string, n: nat): nat
    requires n <= |lines|
  {
    if n == 0 then 0 else HitsUpTo(lines, prefix, n - 1) + if HasPrefix(lines[n - 1], prefix) then 1 else 0
  }

  function Hits(lines: seq<string>, prefix: string): nat {
    HitsUpTo(lines, prefix, |lines|)
  }

  method MarkLines(lines: array<string>, prefix: string) returns (marked: nat)
    requires |prefix| >= 5
    modifies lines
    ensures lines[..] == Marked(old(lines[..]), prefix)
    ensures marked == Hits(old(lines[..]), prefix)
  {
    marked := 0;
    ghost var before := lines[..];
    for i := 0 to lines.Length
      invariant forall k :: 0 <= k < i ==> lines[k] == MarkLine(before[k], prefix)
      invariant forall k :: i <= k < lines.Length ==> lines[k] == before[k]
      invariant marked == HitsUpTo(before, prefix, i)
    {
      if HasPrefix(lines[i], prefix) {
        lines[i] := DONE + lines[i][5..];
        marked := marked + 1;
      }
    }
    assert lines[..] == Marked(before, prefix);
  }

  datatype MarkResult = MissingEpic | NothingOpen | Written(plan: string, marked: nat)

  method MarkDone(plan: string, epicID: string) returns (r: MarkResult)
    ensures r == MarkOutcome(plan, epicID)
  {
    if epicID == "" {
      return MissingEpic;
    }
    var parts := Split(plan, '\n');
    var lines := new string[|parts|](i requires 0 <= i < |parts| => parts[i]);
    assert lines[..] == parts;
    var marked := MarkLines(lines, MarkPrefix(epicID));
    if marked == 0 {
      return NothingOpen;
    }
    return Written(Join(lines[..], '\n'), marked);
  }

  function MarkOutcome(plan: string, epicID: string): MarkResult {
    var lines, prefix := Split(plan, '\n'), MarkPrefix(epicID);
    if epicID == "" then MissingEpic
    else if Hits(lines, prefix) == 0 then NothingOpen
    else Written(Join(Marked(lines, prefix), '\n'), Hits(lines, prefix))
  }

  // ---------- counting tasks ----------

  datatype Box = Unticked | Ticked | NoBox

  function TrimIndent(line: string): string {
    if line != "" && (line[0] == ' ' || line[0] == '\t') then TrimIndent(line[1..]) else line
  }

  function BoxOf(line: string): Box {
    var stripped := TrimIndent(line);
    if HasPrefix(stripped, OPEN) then Unticked
    else if HasPrefix(stripped, DONE) || HasPrefix(stripped, DONE_CAPITAL) then Ticked
    else NoBox
  }

  function CountUpTo(lines: seq<string>, b: Box, n: nat): nat
    requires n <= |lines|
  {
    if n == 0 then 0 else CountUpTo(lines, b, n - 1) + if BoxOf(lines[n - 1]) == b then 1 else 0
  }

  function Count(lines: seq<string>, b: Box): nat {
    CountUpTo(lines, b, |lines|)
  }

  method ParsePlanCounts(plan: string) returns (open: nat, closed: nat)
    ensures open == Count(Split(plan, '\n'), Unticked)
    ensures closed == Count(Split(plan, '\n'), Ticked)
  {
    open, closed := 0, 0;
    var lines := Split(plan, '\n');
    for i := 0 to |lines|
      invariant open == CountUpTo(lines, Unticked, i) && closed == CountUpTo(lines, Ticked, i)
    {
      var stripped := TrimIndent(lines[i]);
      if HasPrefix(stripped, OPEN) {
        open := open + 1;
      } else if HasPrefix(stripped, DONE) || HasPrefix(stripped, DONE_CAPITAL) {
        closed := closed + 1;
      }
    }
  }

  // ---------- closed epics ----------

  /** The number in an epic's header line. */
  function EpicNumber(line: string): Option<nat> {
    if HasPrefix(line, EPIC) && |line| > |EPIC| && IsDigit(line[|EPIC|])
    then Some(ScanDigits(line[|EPIC|..], 0)) else None
  }

  function Emit(epic: nat, hasOpen: bool, hasTasks: bool): seq<nat> {
    if epic > 0 && hasTasks && !hasOpen then [epic] else []
  }

  /** The epics listed from here on, when the reader stands in section `epic` (0 before the first). */
  function ClosedFrom(lines: seq<string>, epic: nat, hasOpen: bool, hasTasks: bool): seq<nat>
    decreases lines
  {
    if lines == [] then Emit(epic, hasOpen, hasTasks)
    else
      var line, rest := lines[0], lines[1..];
      var header := EpicNumber(line);
      if header.Some? then Emit(epic, hasOpen, hasTasks) + ClosedFrom(rest, header.value, false, false)
      else if epic == 0 then ClosedFrom(rest, 0, hasOpen, hasTasks)
      else if HasPrefix(line, DONE) then ClosedFrom(rest, epic, hasOpen, true)
      else if HasPrefix(line, OPEN) then ClosedFrom(rest, epic, true, true)
      else ClosedFrom(rest, epic, hasOpen, hasTasks)
  }

  function ClosedEpics(lines: seq<string>): seq<nat> {
    ClosedFrom(lines, 0, false, false)
  }

  method CollectClosedEpics(plan: string) returns (closed: seq<nat>)
    ensures closed == ClosedEpics(Split(plan, '\n'))
  {
    closed := [];
    var currentEpic, hasOpen, hasTasks := 0, false, false;
    var lines := Split(plan, '\n');
    for i := 0 to |lines|
      invariant ClosedEpics(lines) == closed + ClosedFrom(lines[i..], currentEpic, hasOpen, hasTasks)
    {
      var line := lines[i];
      assert lines[i..][1..] == lines[i + 1..];
      var header := EpicNumber(line);
      if header.Some? {
        if currentEpic > 0 && hasTasks && !hasOpen {
          closed := closed + [currentEpic];
        }
        currentEpic, hasOpen, hasTasks := header.value, false, false;
        continue;
      }
      if currentEpic == 0 {
        continue;
      }
      if HasPrefix(line, DONE) {
        hasTasks := true;
      } else if HasPrefix(line, OPEN) {
        hasTasks, hasOpen := true, true;
      }
    }
    if currentEpic > 0 && hasTasks && !hasOpen {
      closed := closed + [currentEpic];
    }
  }

  ghost predicate NoHeader(lines: seq<string>) {
    forall l :: l in lines ==> EpicNumber(l).None?
  }

  ghost predicate AnyOpen(body: seq<string>) {
    exists l :: l in body && HasPrefix(l, OPEN)
  }

  ghost predicate AnyDone(body: seq<string>) {
    exists l :: l in body && HasPrefix(l, DONE)
  }

  ghost predicate AtBoundary(rest: seq<string>) {
    rest == [] || EpicNumber(rest[0]).Some?
  }

  lemma {:induction false} ReadBody(body: seq<string>, rest: seq<string>, epic: nat, hasOpen: bool, hasTasks: bool)
    requires epic > 0 && NoHeader(body)
    ensures ClosedFrom(body + rest, epic, hasOpen, hasTasks) ==
            ClosedFrom(rest, epic, hasOpen || AnyOpen(body), hasTasks || AnyOpen(body) || AnyDone(body))
    decreases body
  {
    if body == [] {
      assert body + rest == rest;
    } else {
      var line, tail := body[0], body[1..];
      assert (body + rest)[1..] == tail + rest;
      assert body == [line] + tail;
      assert AnyOpen(body) <==> HasPrefix(line, OPEN) || AnyOpen(tail);
      assert AnyDone(body) <==> HasPrefix(line, DONE) || AnyDone(tail);
      OnlyOneBox(line);
      if HasPrefix(line, DONE) {
        ReadBody(tail, rest, epic, hasOpen, true);
      } else if HasPrefix(line, OPEN) {
        ReadBody(tail, rest, epic, true, true);
      } else {
        ReadBody(tail, rest, epic, hasOpen, hasTasks);
      }
    }
  }

  lemma OnlyOneBox(line: string)
    ensures !(HasPrefix(line, OPEN) && HasPrefix(line, DONE))
    ensures HasPrefix(line, OPEN) || HasPrefix(line, DONE) ==> EpicNumber(line).None?
  {
    assert OPEN[3] != DONE[3];
    assert HasPrefix(line, OPEN) || HasPrefix(line, DONE) ==> line[0] == '-';
    assert HasPrefix(line, EPIC) ==> line[0] == '#';
  }

  lemma {:induction false} ReadUpTo(pre: seq<string>, rest: seq<string>, epic: nat, hasOpen: bool, hasTasks: bool)
    requires AtBoundary(rest)
    ensures ClosedFrom(pre + rest, epic, hasOpen, hasTasks) ==
            ClosedFrom(pre, epic, hasOpen, hasTasks) + ClosedEpics(rest)
    decreases pre
  {
    if pre == [] {
      assert pre + rest == rest;
      assert rest == [] ==> ClosedEpics(rest) == [];
    } else {
      var line, tail := pre[0], pre[1..];
      assert (pre + rest)[1..] == tail + rest;
      var header := EpicNumber(line);
      if header.Some? {
        ReadUpTo(tail, rest, header.value, false, false);
      } else if epic > 0 && HasPrefix(line, DONE) {
        ReadUpTo(tail, rest, epic, hasOpen, true);
      } else if epic > 0 && HasPrefix(line, OPEN) {
        ReadUpTo(tail, rest, epic, true, true);
      } else {
        ReadUpTo(tail, rest, epic, hasOpen, hasTasks);
      }
    }
  }

  /** A section lists its epic exactly when it holds a done task and no open one, whatever stands
      before and after it. */
  lemma SectionVerdict(pre: seq<string>, header: string, body: seq<string>, rest: seq<string>)
    requires EpicNumber(header).Some? && EpicNumber(header).value > 0 && NoHeader(body) && AtBoundary(rest)
    ensures ClosedEpics(pre + ([header] + (body + rest))) ==
            ClosedEpics(pre)
            + ((if AnyDone(body) && !AnyOpen(body) then [EpicNumber(header).value] else []) + ClosedEpics(rest))
  {
    var n, section := EpicNumber(header).value, [header] + (body + rest);
    ReadUpTo(pre, section, 0, false, false);
    assert section[1..] == body + rest;
    ReadBody(body, rest, n, false, false);
    ReadUpTo([], rest, n, AnyOpen(body), AnyOpen(body) || AnyDone(body));
    assert [] + rest == rest;
  }

  // ---------- marking against the readers ----------

  lemma LineEffect(line: string, epicID: string)
    ensures var prefix, next := MarkPrefix(epicID), MarkLine(line, MarkPrefix(epicID));
            && EpicNumber(next) == EpicNumber(line)
            && !HasPrefix(next, prefix)
            && ('\n' !in line ==> '\n' !in next)
            && (HasPrefix(line, prefix) ==> HasPrefix(line, OPEN) && HasPrefix(next, DONE)
                                            && BoxOf(line) == Unticked && BoxOf(next) == Ticked)
  {
    var prefix, next := MarkPrefix(epicID), MarkLine(line, MarkPrefix(epicID));
    if HasPrefix(line, prefix) {
      assert OPEN <= line;
      assert DONE <= next;
      assert next[3] == 'x' && prefix[3] == ' ';
      OnlyOneBox(line);
      OnlyOneBox(next);
    }
  }

  lemma {:induction false} CountEffectUpTo(lines: seq<string>, epicID: string, n: nat)
    requires n <= |lines|
    ensures var prefix := MarkPrefix(epicID);
            && CountUpTo(Marked(lines, prefix), Unticked, n) ==
               CountUpTo(lines, Unticked, n) - HitsUpTo(lines, prefix, n)
            && CountUpTo(Marked(lines, prefix), Ticked, n) == CountUpTo(lines, Ticked, n) + HitsUpTo(lines, prefix, n)
            && HitsUpTo(Marked(lines, prefix), prefix, n) == 0
  {
    if n > 0 {
      CountEffectUpTo(lines, epicID, n - 1);
      LineEffect(lines[n - 1], epicID);
    }
  }

  lemma CountEffect(lines: seq<string>, epicID: string)
    ensures var prefix := MarkPrefix(epicID);
            && Count(Marked(lines, prefix), Unticked) == Count(lines, Unticked) - Hits(lines, prefix)
            && Count(Marked(lines, prefix), Ticked) == Count(lines, Ticked) + Hits(lines, prefix)
            && Hits(Marked(lines, prefix), prefix) == 0
  {
    CountEffectUpTo(lines, epicID, |lines|);
  }

  /** What a successful MARK_DONE does to the plan's text: `marked` tasks move from open to closed,
      every other line stays as it was, and repeating it finds nothing. */
  lemma MarkDoneEffect(plan: string, epicID: string)
    requires MarkOutcome(plan, epicID).Written?
    ensures var r := MarkOutcome(plan, epicID);
            var before, after := Split(plan, '\n'), Split(r.plan, '\n');
            && r.marked > 0
            && Count(after, Unticked) == Count(before, Unticked) - r.marked
            && Count(after, Ticked) == Count(before, Ticked) + r.marked
            && |after| == |before|
            && (forall i :: 0 <= i < |before| && !HasPrefix(before[i], MarkPrefix(epicID)) ==> after[i] == before[i])
            && MarkOutcome(r.plan, epicID) == NothingOpen
  {
    var before, prefix := Split(plan, '\n'), MarkPrefix(epicID);
    TextOfMarked(plan, epicID);
    CountEffect(before, epicID);
  }

  lemma TextOfMarked(plan: string, epicID: string)
    ensures Split(Join(Marked(Split(plan, '\n'), MarkPrefix(epicID)), '\n'), '\n') ==
            Marked(Split(plan, '\n'), MarkPrefix(epicID))
  {
    var before := Split(plan, '\n');
    JoinSplit(plan, '\n');
    forall i | 0 <= i < |before|
      ensures '\n' !in MarkLine(before[i], MarkPrefix(epicID))
    {
      LineEffect(before[i], epicID);
      assert before[i] in before;
    }
    SplitJoin(Marked(before, MarkPrefix(epicID)), '\n');
  }

  lemma SubsequenceEmit(a: seq<nat>, b: seq<nat>, x: seq<nat>, y: seq<nat>)
    requires Subsequence(a, b) && |y| <= 1 && (x == y || x == [])
    ensures Subsequence(x + a, y + b)
  {
    if y == [] {
      assert x + a == a && y + b == b;
    } else {
      assert (y + b)[1..] == b;
      if x == [] {
        assert x + a == a;
      } else {
        assert (x + a)[1..] == a;
      }
    }
  }

  lemma {:induction false} EpicsKept(lines: seq<string>, epicID: string, epic: nat,
                                     hasOpen: bool, hasOpen': bool, hasTasks: bool)
    requires hasOpen' ==> hasOpen
    ensures Subsequence(ClosedFrom(lines, epic, hasOpen, hasTasks),
                        ClosedFrom(Marked(lines, MarkPrefix(epicID)), epic, hasOpen', hasTasks))
    decreases lines
  {
    var x, y := Emit(epic, hasOpen, hasTasks), Emit(epic, hasOpen', hasTasks);
    if lines == [] {
      SubsequenceEmit([], [], x, y);
      assert x + [] == x && y + [] == y;
    } else {
      var line, rest := lines[0], lines[1..];
      var after := Marked(lines, MarkPrefix(epicID));
      assert after[1..] == Marked(rest, MarkPrefix(epicID));
      LineEffect(line, epicID);
      OnlyOneBox(line);
      OnlyOneBox(after[0]);
      var header := EpicNumber(line);
      if header.Some? {
        EpicsKept(rest, epicID, header.value, false, false, false);
        SubsequenceEmit(ClosedFrom(rest, header.value, false, false),
                        ClosedFrom(after[1..], header.value, false, false), x, y);
      } else if epic > 0 && HasPrefix(line, DONE) {
        EpicsKept(rest, epicID, epic, hasOpen, hasOpen', true);
      } else if epic > 0 && HasPrefix(line, OPEN) {
        EpicsKept(rest, epicID, epic, true, hasOpen' || !HasPrefix(after[0], DONE), true);
      } else {
        EpicsKept(rest, epicID, epic, hasOpen, hasOpen', hasTasks);
      }
    }
  }

  /** Every epic that was listed as closed before a MARK_DONE is still listed after it, in order. */
  lemma ClosedEpicsStayClosed(plan: string, epicID: string)
    requires MarkOutcome(plan, epicID).Written?
    ensures Subsequence(ClosedEpics(Split(plan, '\n')), ClosedEpics(Split(MarkOutcome(plan, epicID).plan, '\n')))
  {
    TextOfMarked(plan, epicID);
    EpicsKept(Split(plan, '\n'), epicID, 0, false, false, false);
  }

  /** A section's last open tasks are gone exactly when each of them starts with the marked prefix. */
  lemma MarkingClosesSection(body: seq<string>, epicID: string)
    ensures var prefix := MarkPrefix(epicID);
            AnyOpen(Marked(body, prefix)) <==> exists l :: l in body && HasPrefix(l, OPEN) && !HasPrefix(l, prefix)
  {
    var prefix := MarkPrefix(epicID);
    var after := Marked(body, prefix);
    if AnyOpen(after) {
      var i :| 0 <= i < |after| && HasPrefix(after[i], OPEN);
      LineEffect(body[i], epicID);
      OnlyOneBox(after[i]);
      assert body[i] in body;
    }
    if l :| l in body && HasPrefix(l, OPEN) && !HasPrefix(l, prefix) {
      var i :| 0 <= i < |body| && body[i] == l;
      assert after[i] == l && after[i] in after;
    }
  }

  // ---------- what MARK_DONE writes, line by line ----------

  /** A task of the plan: its box, its id in bold, and the rest of the line. */
  function TaskLine(box: char, id: string, rest: string): string {
    "- [" + [box] + "] **" + id + rest
  }

  ghost predicate IsOpenTask(line: string, id: string) {
    exists rest :: line == TaskLine(' ', id, rest)
  }

  lemma OpenTaskLine(id: string, rest: string)
    ensures HasPrefix(TaskLine(' ', id, rest), MarkPrefix(id))
    ensures MarkLine(TaskLine(' ', id, rest), MarkPrefix(id)) == TaskLine('x', id, rest)
  {
    var line := TaskLine(' ', id, rest);
    assert line == MarkPrefix(id) + rest;
    assert line[5..] == " **" + id + rest;
  }

  lemma OpenTaskExactly(line: string, id: string)
    ensures HasPrefix(line, MarkPrefix(id)) <==> IsOpenTask(line, id)
    ensures IsOpenTask(line, id) <==> MarkLine(line, MarkPrefix(id)) != line
  {
    var prefix := MarkPrefix(id);
    if HasPrefix(line, prefix) {
      assert line == prefix + line[|prefix|..];
      assert line == TaskLine(' ', id, line[|prefix|..]);
      assert MarkLine(line, prefix)[3] == 'x';
    }
    if rest :| line == TaskLine(' ', id, rest) { OpenTaskLine(id, rest); }
  }

  /** The lines at which two texts of the same length differ. */
  ghost function Changed(before: seq<string>, after: seq<string>): set<nat>
    requires |before| == |after|
  {
    set i: nat | i < |before| && before[i] != after[i]
  }

  /** The first `n` lines that start with `prefix`. */
  ghost function HitSet(lines: seq<string>, prefix: string, n: nat): set<nat>
    requires n <= |lines|
  {
    set i: nat | i < n && HasPrefix(lines[i], prefix)
  }

  lemma {:induction false} HitsCount(lines: seq<string>, prefix: string, n: nat)
    requires n <= |lines|
    ensures |HitSet(lines, prefix, n)| == HitsUpTo(lines, prefix, n)
  {
    if n == 0 {
      assert HitSet(lines, prefix, 0) == {};
    } else {
      HitsCount(lines, prefix, n - 1);
      var early := HitSet(lines, prefix, n - 1);
      assert HitSet(lines, prefix, n) == if HasPrefix(lines[n - 1], prefix) then early + {n - 1} else early;
    }
  }

  lemma HitsAreChanges(lines: seq<string>, id: string)
    ensures |Changed(lines, Marked(lines, MarkPrefix(id)))| == Hits(lines, MarkPrefix(id))
  {
    var prefix := MarkPrefix(id);
    HitsCount(lines, prefix, |lines|);
    forall i: nat | i < |lines|
      ensures MarkLine(lines[i], prefix) != lines[i] <==> HasPrefix(lines[i], prefix)
    {
      OpenTaskExactly(lines[i], id);
    }
    assert Changed(lines, Marked(lines, prefix)) == HitSet(lines, prefix, |lines|);
  }

  /** A successful MARK_DONE changes exactly the open tasks whose bold text starts with the id; of these it
      ticks the box and leaves the rest; and it reports how many they are. */
  lemma MarkExactly(plan: string, id: string, i: nat)
    requires MarkOutcome(plan, id).Written? && i < |Split(plan, '\n')|
    ensures var r := MarkOutcome(plan, id);
            var before, after := Split(plan, '\n'), Split(r.plan, '\n');
            && |after| == |before|
            && (after[i] != before[i] <==> IsOpenTask(before[i], id))
            && (forall rest :: before[i] == TaskLine(' ', id, rest) ==> after[i] == TaskLine('x', id, rest))
            && r.marked == |Changed(before, after)|
  {
    var before := Split(plan, '\n');
    TextOfMarked(plan, id);
    OpenTaskExactly(before[i], id);
    HitsAreChanges(before, id);
    forall rest | before[i] == TaskLine(' ', id, rest)
      ensures MarkLine(before[i], MarkPrefix(id)) == TaskLine('x', id, rest)
    {
      OpenTaskLine(id, rest);
    }
  }

  lemma {:induction false} SomeHit(lines: seq<string>, prefix: string, n: nat)
    requires n <= |lines|
    ensures HitsUpTo(lines, prefix, n) > 0 <==> exists i :: 0 <= i < n && HasPrefix(lines[i], prefix)
  {
    if n > 0 { SomeHit(lines, prefix, n - 1); }
  }

  ghost predicate HasOpenTask(lines: seq<string>, id: string) {
    exists i :: 0 <= i < |lines| && IsOpenTask(lines[i], id)
  }

  lemma SomeHitIsOpenTask(lines: seq<string>, id: string)
    ensures Hits(lines, MarkPrefix(id)) > 0 <==> HasOpenTask(lines, id)
  {
    SomeHit(lines, MarkPrefix(id), |lines|);
    if i :| 0 <= i < |lines| && HasPrefix(lines[i], MarkPrefix(id)) {
      OpenTaskExactly(lines[i], id);
    }
    if i :| 0 <= i < |lines| && IsOpenTask(lines[i], id) {
      OpenTaskExactly(lines[i], id);
      assert HasPrefix(lines[i], MarkPrefix(id));
    }
  }

  /** It writes if and only if an id is given and the plan holds such a task. */
  lemma WrittenExactly(plan: string, id: string)
    ensures MarkOutcome(plan, id).MissingEpic? <==> id == ""
    ensures MarkOutcome(plan, id).Written? <==> id != "" && HasOpenTask(Split(plan, '\n'), id)
  {
    SomeHitIsOpenTask(Split(plan, '\n'), id);
  }

  // ---------- what the readers recognise ----------

  ghost predicate Blank(indent: string) {
    forall k :: 0 <= k < |indent| ==> indent[k] == ' ' || indent[k] == '\t'
  }

  lemma {:induction false} TrimExactly(indent: string, line: string)
    requires Blank(indent) && (line == "" || !Blank([line[0]]))
    ensures TrimIndent(indent + line) == line
    decreases indent
  {
    if indent == "" {
      assert indent + line == line;
      assert line != "" ==> [line[0]][0] == line[0];
    } else {
      assert (indent + line)[1..] == indent[1..] + line;
      TrimExactly(indent[1..], line);
    }
  }

  lemma {:induction false} Trimmed(line: string) returns (indent: string)
    ensures Blank(indent) && line == indent + TrimIndent(line)
  {
    indent := "";
    if line != "" && (line[0] == ' ' || line[0] == '\t') {
      indent := Trimmed(line[1..]);
      indent := [line[0]] + indent;
    }
  }

  /** The line is `indent`, a box with `mark` in it, and `rest`. */
  ghost predicate BoxedLine(line: string, indent: string, mark: char, rest: string) {
    Blank(indent) && line == indent + ("- [" + [mark] + "]" + rest)
  }

  lemma BoxedLineTrims(line: string, indent: string, mark: char, rest: string)
    requires BoxedLine(line, indent, mark, rest)
    ensures TrimIndent(line) == "- [" + [mark] + "]" + rest
  {
    var box := "- [" + [mark] + "]" + rest;
    assert box[0] == '-' && [box[0]][0] == '-';
    TrimExactly(indent, box);
  }

  lemma BoxOfBoxed(line: string, indent: string, mark: char, rest: string)
    requires BoxedLine(line, indent, mark, rest)
    ensures BoxOf(line) == if mark == ' ' then Unticked else if mark == 'x' || mark == 'X' then Ticked else NoBox
  {
    BoxedLineTrims(line, indent, mark, rest);
    assert TrimIndent(line)[..5] == "- [" + [mark] + "]";
    assert TrimIndent(line)[3] == mark;
  }

  lemma BoxParts(line: string) returns (indent: string, mark: char, rest: string)
    requires BoxOf(line) != NoBox
    ensures BoxedLine(line, indent, mark, rest)
  {
    indent := Trimmed(line);
    var stripped := TrimIndent(line);
    mark, rest := stripped[3], stripped[5..];
    assert stripped == stripped[..3] + [stripped[3]] + [stripped[4]] + rest;
    assert stripped[..3] == "- [" && stripped[4] == ']';
  }

  /** A line counts as open, or as closed, if and only if it is an empty box, or a box ticked with a small
      or a capital letter, after an indent of blanks and tabs. */
  lemma BoxExactly(line: string)
    ensures BoxOf(line) == Unticked <==> exists indent, rest :: BoxedLine(line, indent, ' ', rest)
    ensures BoxOf(line) == Ticked <==>
            exists indent, mark, rest :: (mark == 'x' || mark == 'X') && BoxedLine(line, indent, mark, rest)
  {
    forall i, m, r | BoxedLine(line, i, m, r)
      ensures BoxOf(line) == if m == ' ' then Unticked else if m == 'x' || m == 'X' then Ticked else NoBox
    {
      BoxOfBoxed(line, i, m, r);
    }
    if BoxOf(line) != NoBox {
      var indent, mark, rest := BoxParts(line);
      assert BoxedLine(line, indent, mark, rest);
    }
  }

  lemma {:induction false} ScanStops(digits: string, tail: string, acc: nat)
    requires AllDigits(digits) && (tail == "" || !IsDigit(tail[0]))
    ensures ScanDigits(digits + tail, acc) == ScanDigits(digits, acc)
  {
    ScanDigitsSplit(digits, tail, acc);
  }

  /** A header line opens the section of the number written after the word. */
  lemma HeaderOf(n: nat, tail: string)
    requires tail == "" || !IsDigit(tail[0])
    ensures EpicNumber("## \U{C9}PICA " + Decimal(n) + tail) == Some(n)
  {
    var line := EPIC + (Decimal(n) + tail);
    assert line == "## \U{C9}PICA " + Decimal(n) + tail;
    assert line[|EPIC|..] == Decimal(n) + tail;
    DecimalDigits(n);
    ScanDecimal(n);
    ScanStops(Decimal(n), tail, 0);
    assert EPIC <= line;
    assert line[|EPIC|] == Decimal(n)[0];
  }

  /** Only lines that start with the word and a digit are headers. */
  lemma HeaderExactly(line: string)
    ensures EpicNumber(line).Some? <==>
            exists digit, rest :: IsDigit(digit) && line == "## \U{C9}PICA " + [digit] + rest
  {
    if EpicNumber(line).Some? {
      assert line == EPIC + [line[|EPIC|]] + line[|EPIC| + 1..];
    }
    if digit, rest :| IsDigit(digit) && line == "## \U{C9}PICA " + [digit] + rest {
      assert line[|EPIC|] == digit && EPIC <= line;
    }
  }

  /** Tasks before the first header, and in a section numbered zero, list nothing. */
  lemma {:induction false} NothingUnderZero(body: seq<string>, rest: seq<string>)
    requires NoHeader(body)
    ensures ClosedFrom(body + rest, 0, false, false) == ClosedEpics(rest)
    decreases body
  {
    if body == [] {
      assert body + rest == rest;
    } else {
      assert (body + rest)[1..] == body[1..] + rest;
      NothingUnderZero(body[1..], rest);
    }
  }
}
