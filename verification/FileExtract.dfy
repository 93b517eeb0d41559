/** Extracting the lines around the hits of a query: word-bounded search, merging of the context
    windows, and printing them. */
module FileExtract {
  import opened Numbers
  import opened Sequences
  import opened Text

  // ---------- word-bounded search ----------

  predicate IsWordByte(b: char) {
    'a' <= b <= 'z' || '0' <= b <= '9' || b == '_'
  }

  /** The bytes that make up words: the small letters, the digits and the underscore. */
  lemma WordByteExactly(b: char)
    ensures IsWordByte(b) <==> 97 <= b as int <= 122 || 48 <= b as int <= 57 || b as int == 95
  {
  }

  /** `needle` stands at `i` with no word character on either side. */
  predicate BoundedAt(hay: string, needle: string, i: int) {
    && OccursAt(hay, needle, i)
    && (i == 0 || !IsWordByte(hay[i - 1]))
    && (i + |needle| == |hay| || !IsWordByte(hay[i + |needle|]))
  }

  /** The occurrences in a tail are those from its start on. */
  lemma OccursInTail(hay: string, needle: string, offset: nat)
    requires offset <= |hay|
    ensures forall i :: i >= offset ==> (OccursAt(hay, needle, i) <==> OccursAt(hay[offset..], needle, i - offset))
    ensures forall r :: r >= 0 ==> (OccursAt(hay, needle, offset + r) <==> OccursAt(hay[offset..], needle, r))
  {
    forall i | i >= offset
      ensures OccursAt(hay, needle, i) <==> OccursAt(hay[offset..], needle, i - offset)
    {
      if i + |needle| <= |hay| {
        assert hay[offset..][i - offset..i - offset + |needle|] == hay[i..i + |needle|];
      }
    }
    forall r | r >= 0
      ensures OccursAt(hay, needle, offset + r) <==> OccursAt(hay[offset..], needle, r)
    {
      if offset + r + |needle| <= |hay| {
        assert hay[offset..][r..r + |needle|] == hay[offset + r..offset + r + |needle|];
      }
    }
  }

  /** The next candidate at or after `offset`, as found in the tail. */
  lemma NextCandidate(hay: string, needle: string, offset: nat, rel: int)
    requires offset <= |hay| && rel == Index(hay[offset..], needle)
    ensures rel >= 0 ==> OccursAt(hay, needle, offset + rel)
    ensures forall i :: i >= offset && BoundedAt(hay, needle, i) ==> 0 <= rel <= i - offset
  {
    OccursInTail(hay, needle, offset);
  }

  method ContainsAtWordBoundary(hay: string, needle: string) returns (found: bool)
    ensures found <==> needle != "" && exists i :: BoundedAt(hay, needle, i)
  {
    if needle == "" {
      return false;
    }
    var offset := 0;
    while offset < |hay|
      invariant 0 <= offset <= |hay|
      invariant forall i :: BoundedAt(hay, needle, i) ==> offset <= i
    {
      var rel := Index(hay[offset..], needle);
      NextCandidate(hay, needle, offset, rel);
      if rel < 0 {
        return false;
      }
      var abs := offset + rel;
      var leftOK := abs == 0 || !IsWordByte(hay[abs - 1]);
      var rightOff := abs + |needle|;
      var rightOK := rightOff == |hay| || !IsWordByte(hay[rightOff]);
      if leftOK && rightOK {
        assert BoundedAt(hay, needle, abs);
        return true;
      }
      offset := abs + 1;
    }
    return false;
  }

  // ---------- windows ----------

  datatype Window = Window(first: int, last: int)

  /** `line` is a line of the file at most `ctx` lines from `hit`. */
  predicate Near(line: int, hit: int, ctx: int, total: int) {
    1 <= line <= total && hit - ctx <= line <= hit + ctx
  }

  predicate Within(line: int, w: Window) {
    w.first <= line <= w.last
  }

  ghost predicate Shown(line: int, ws: seq<Window>) {
    exists i :: 0 <= i < |ws| && Within(line, ws[i])
  }

  ghost predicate Wanted(line: int, hits: seq<int>, ctx: int, total: int) {
    exists i :: 0 <= i < |hits| && Near(line, hits[i], ctx, total)
  }

  /** Between two neighbours lies at least one line that neither shows. */
  predicate Separated(ws: seq<Window>) {
    forall i :: 0 < i < |ws| ==> ws[i - 1].last + 1 < ws[i].first && ws[i - 1].first <= ws[i].first
  }

  /** One round of the merge loop. */
  function AddHit(ws: seq<Window>, hit: int, ctx: int, total: int): seq<Window> {
    var s, e := Max(hit - ctx, 1), Min(hit + ctx, total);
    var n := |ws| - 1;
    if n >= 0 && s <= ws[n].last + 1 then ws[n := ws[n].(last := Max(ws[n].last, e))]
    else ws + [Window(s, e)]
  }

  function Windows(hits: seq<int>, ctx: int, total: int): seq<Window> {
    if hits == [] then [] else AddHit(Windows(hits[..|hits| - 1], ctx, total), hits[|hits| - 1], ctx, total)
  }

  method MergeWindows(hits: seq<int>, ctx: int, total: int) returns (windows: seq<Window>)
    ensures windows == Windows(hits, ctx, total)
  {
    windows := [];
    for i := 0 to |hits|
      invariant windows == Windows(hits[..i], ctx, total)
    {
      assert hits[..i + 1][..i] == hits[..i];
      var s, e := Max(hits[i] - ctx, 1), Min(hits[i] + ctx, total);
      if |windows| > 0 && s <= windows[|windows| - 1].last + 1 {
        var last := windows[|windows| - 1];
        windows := windows[|windows| - 1 := last.(last := Max(last.last, e))];
      } else {
        windows := windows + [Window(s, e)];
      }
    }
    assert hits[..|hits|] == hits;
  }

  lemma ShownAppend(ws: seq<Window>, w: Window, line: int)
    ensures Shown(line, ws + [w]) <==> Shown(line, ws) || Within(line, w)
  {
    if Within(line, w) { assert Within(line, (ws + [w])[|ws|]); }
    if Shown(line, ws) {
      var i :| 0 <= i < |ws| && Within(line, ws[i]);
      assert Within(line, (ws + [w])[i]);
    }
  }

  lemma WantedAppend(hits: seq<int>, ctx: int, total: int, line: int)
    requires hits != []
    ensures var n := |hits| - 1;
            Wanted(line, hits, ctx, total) <==> Wanted(line, hits[..n], ctx, total) || Near(line, hits[n], ctx, total)
  {
    var n := |hits| - 1;
    if i :| 0 <= i < n && Near(line, hits[..n][i], ctx, total) {
      assert Near(line, hits[i], ctx, total);
    }
    if i :| 0 <= i < |hits| && Near(line, hits[i], ctx, total) {
      assert i < n ==> hits[..n][i] == hits[i];
    }
  }

  lemma WindowsSnoc(hits: seq<int>, ctx: int, total: int)
    requires Ordered(hits, AtMost) && |hits| > 1
    ensures Max(hits[|hits| - 2] - ctx, 1) <= Max(hits[|hits| - 1] - ctx, 1)
    ensures Ordered(hits[..|hits| - 1], AtMost) && hits[..|hits| - 1][|hits| - 2] == hits[|hits| - 2]
  {
  }

  /** Ordered and separated windows inside the file, the last starting no later than `start`. */
  predicate Placed(ws: seq<Window>, total: int, start: int) {
    && Separated(ws)
    && (ws != [] ==> ws[|ws| - 1].first <= start)
    && forall i :: 0 <= i < |ws| ==> ws[i].first >= 1 && ws[i].last <= total
  }

  lemma AddHitPlaced(ws: seq<Window>, hit: int, ctx: int, total: int, start: int)
    requires Placed(ws, total, start) && start <= Max(hit - ctx, 1)
    ensures AddHit(ws, hit, ctx, total) != [] && Placed(AddHit(ws, hit, ctx, total), total, Max(hit - ctx, 1))
  {
    var s, e := Max(hit - ctx, 1), Min(hit + ctx, total);
    var n := |ws| - 1;
    if n >= 0 && s <= ws[n].last + 1 {
      WidenPlaced(ws, total, start, Max(ws[n].last, e));
    } else {
      AppendPlaced(ws, total, start, Window(s, e));
    }
  }

  lemma WidenPlaced(ws: seq<Window>, total: int, start: int, last: int)
    requires Placed(ws, total, start) && ws != [] && last <= total
    ensures Placed(ws[|ws| - 1 := ws[|ws| - 1].(last := last)], total, start)
  {
  }

  lemma AppendPlaced(ws: seq<Window>, total: int, start: int, w: Window)
    requires Placed(ws, total, start) && 1 <= w.first && start <= w.first && w.last <= total
    requires ws != [] ==> ws[|ws| - 1].last + 1 < w.first
    ensures Placed(ws + [w], total, w.first)
  {
  }

  /** For sorted hits the windows stay inside the file, in order, and separated. */
  lemma {:induction false} WindowsSeparated(hits: seq<int>, ctx: int, total: int)
    requires Ordered(hits, AtMost)
    ensures var ws := Windows(hits, ctx, total);
            (ws != [] <==> hits != []) && Placed(ws, total, if hits == [] then 1 else Max(hits[|hits| - 1] - ctx, 1))
  {
    if hits != [] {
      var n := |hits| - 1;
      WindowsSeparated(hits[..n], ctx, total);
      if n > 0 { WindowsSnoc(hits, ctx, total); }
      var start := if n == 0 then 1 else Max(hits[n - 1] - ctx, 1);
      AddHitPlaced(Windows(hits[..n], ctx, total), hits[n], ctx, total, start);
    }
  }

  lemma AddHitShows(ws: seq<Window>, hit: int, ctx: int, total: int, line: int)
    requires ws != [] ==> ws[|ws| - 1].first <= Max(hit - ctx, 1)
    ensures Shown(line, AddHit(ws, hit, ctx, total)) <==> Shown(line, ws) || Near(line, hit, ctx, total)
  {
    var s, e := Max(hit - ctx, 1), Min(hit + ctx, total);
    assert Near(line, hit, ctx, total) <==> Within(line, Window(s, e));
    var m := |ws| - 1;
    if m >= 0 && s <= ws[m].last + 1 {
      var merged := ws[m].(last := Max(ws[m].last, e));
      assert ws == ws[..m] + [ws[m]] && ws[m := merged] == ws[..m] + [merged];
      ShownAppend(ws[..m], ws[m], line);
      ShownAppend(ws[..m], merged, line);
    } else {
      ShownAppend(ws, Window(s, e), line);
    }
  }

  lemma AddHitOnlyNear(ws: seq<Window>, hit: int, ctx: int, total: int, line: int)
    requires Shown(line, AddHit(ws, hit, ctx, total))
    ensures Shown(line, ws) || Near(line, hit, ctx, total)
  {
    var s, e := Max(hit - ctx, 1), Min(hit + ctx, total);
    var m := |ws| - 1;
    if m >= 0 && s <= ws[m].last + 1 {
      var merged := ws[m].(last := Max(ws[m].last, e));
      assert ws == ws[..m] + [ws[m]] && ws[m := merged] == ws[..m] + [merged];
      ShownAppend(ws[..m], ws[m], line);
      ShownAppend(ws[..m], merged, line);
    } else {
      ShownAppend(ws, Window(s, e), line);
    }
  }

  /** Sorted or not, no line is shown that is not near a hit. */
  lemma {:induction false} NothingElseShown(hits: seq<int>, ctx: int, total: int, line: int)
    requires Shown(line, Windows(hits, ctx, total))
    ensures Wanted(line, hits, ctx, total)
  {
    if hits != [] {
      var n := |hits| - 1;
      AddHitOnlyNear(Windows(hits[..n], ctx, total), hits[n], ctx, total, line);
      WantedAppend(hits, ctx, total, line);
      if Shown(line, Windows(hits[..n], ctx, total)) {
        NothingElseShown(hits[..n], ctx, total, line);
      }
    }
  }

  // ---------- exactly when no wanted line is lost ----------

  /** Some window but the last shows the whole range. */
  ghost predicate Contained(ws: seq<Window>, s: int, e: int) {
    exists j :: 0 <= j < |ws| - 1 && ws[j].first <= s && e <= ws[j].last
  }

  /** Adding a hit with these windows loses none of its lines: it has none in the file, the last window
      starts no later than they do, or an earlier one shows them all. */
  ghost predicate Safe(ws: seq<Window>, hit: int, ctx: int, total: int) {
    var s, e := Max(hit - ctx, 1), Min(hit + ctx, total);
    s > e || ws == [] || ws[|ws| - 1].first <= s || Contained(ws, s, e)
  }

  ghost predicate SafeAt(hits: seq<int>, ctx: int, total: int, i: nat)
    requires i < |hits|
  {
    Safe(Windows(hits[..i], ctx, total), hits[i], ctx, total)
  }

  ghost predicate AllSafe(hits: seq<int>, ctx: int, total: int) {
    forall i :: 0 <= i < |hits| ==> SafeAt(hits, ctx, total, i)
  }

  ghost predicate NothingLost(hits: seq<int>, ctx: int, total: int) {
    forall line :: Wanted(line, hits, ctx, total) ==> Shown(line, Windows(hits, ctx, total))
  }

  /** A window that shows a line, or was opened by a hit beyond the end or before the start of the file. */
  predicate Regular(w: Window, total: int) {
    w.last <= total && (w.first <= w.last || w.last == total || w.first == 1)
  }

  /** Regular windows, in order and at least one line apart. */
  predicate Apart(ws: seq<Window>, total: int) {
    && (forall i :: 0 <= i < |ws| ==> Regular(ws[i], total))
    && forall i, j :: 0 <= i < j < |ws| ==> ws[i].last + 1 < ws[j].first
  }

  lemma WidenedApart(ws: seq<Window>, total: int, last: int)
    requires Apart(ws, total) && ws != [] && ws[|ws| - 1].last <= last <= total
    ensures Apart(ws[|ws| - 1 := ws[|ws| - 1].(last := last)], total)
  {
  }

  lemma AppendedApart(ws: seq<Window>, total: int, w: Window)
    requires Apart(ws, total) && Regular(w, total) && 1 <= w.first
    requires ws != [] ==> ws[|ws| - 1].last + 1 < w.first
    ensures Apart(ws + [w], total)
  {
    var n := |ws| - 1;
    forall i | 0 <= i < |ws|
      ensures ws[i].last + 1 < w.first
    {
      if i < n { assert ws[i].last + 1 < ws[n].first && Regular(ws[n], total) && Regular(ws[i], total); }
    }
  }

  lemma AddHitApart(ws: seq<Window>, hit: int, ctx: int, total: int)
    requires Apart(ws, total) && ctx >= 0
    ensures Apart(AddHit(ws, hit, ctx, total), total)
  {
    var s, e := Max(hit - ctx, 1), Min(hit + ctx, total);
    var n := |ws| - 1;
    if n >= 0 && s <= ws[n].last + 1 {
      assert Regular(ws[n], total);
      WidenedApart(ws, total, Max(ws[n].last, e));
    } else {
      AppendedApart(ws, total, Window(s, e));
    }
  }

  /** Neither the order of the hits nor where they lie matters for this. */
  lemma {:induction false} WindowsApart(hits: seq<int>, ctx: int, total: int)
    requires ctx >= 0
    ensures Apart(Windows(hits, ctx, total), total)
  {
    if hits != [] {
      var n := |hits| - 1;
      WindowsApart(hits[..n], ctx, total);
      AddHitApart(Windows(hits[..n], ctx, total), hits[n], ctx, total);
    }
  }

  lemma ShownStays(ws: seq<Window>, hit: int, ctx: int, total: int, line: int)
    requires Shown(line, ws)
    ensures Shown(line, AddHit(ws, hit, ctx, total))
  {
    var i :| 0 <= i < |ws| && Within(line, ws[i]);
    assert Within(line, AddHit(ws, hit, ctx, total)[i]);
  }

  /** A safe hit has all its lines shown. */
  lemma SafeHitShown(ws: seq<Window>, hit: int, ctx: int, total: int, line: int)
    requires Safe(ws, hit, ctx, total) && Near(line, hit, ctx, total)
    ensures Shown(line, AddHit(ws, hit, ctx, total))
  {
    assert Max(hit - ctx, 1) <= line <= Min(hit + ctx, total);
    if ws == [] || ws[|ws| - 1].first <= Max(hit - ctx, 1) {
      AddHitShows(ws, hit, ctx, total, line);
    } else {
      var j :| 0 <= j < |ws| - 1 && ws[j].first <= Max(hit - ctx, 1) && Min(hit + ctx, total) <= ws[j].last;
      assert Within(line, ws[j]);
      ShownStays(ws, hit, ctx, total, line);
    }
  }

  lemma EarlierSafe(hits: seq<int>, ctx: int, total: int)
    requires hits != [] && AllSafe(hits, ctx, total)
    ensures AllSafe(hits[..|hits| - 1], ctx, total) && SafeAt(hits, ctx, total, |hits| - 1)
  {
    var prev := hits[..|hits| - 1];
    forall i | 0 <= i < |prev|
      ensures SafeAt(prev, ctx, total, i)
    {
      assert SafeAt(hits, ctx, total, i) && prev[..i] == hits[..i];
    }
  }

  lemma {:induction false} SafeShowsWanted(hits: seq<int>, ctx: int, total: int, line: int)
    requires AllSafe(hits, ctx, total) && Wanted(line, hits, ctx, total)
    ensures Shown(line, Windows(hits, ctx, total))
  {
    var n := |hits| - 1;
    EarlierSafe(hits, ctx, total);
    WantedAppend(hits, ctx, total, line);
    if Near(line, hits[n], ctx, total) {
      SafeHitShown(Windows(hits[..n], ctx, total), hits[n], ctx, total, line);
    } else {
      SafeShowsWanted(hits[..n], ctx, total, line);
      ShownStays(Windows(hits[..n], ctx, total), hits[n], ctx, total, line);
    }
  }

  /** The line of the file lies below the last window and in none, so no later hit can show it. */
  ghost predicate Hidden(line: int, ws: seq<Window>, total: int) {
    ws != [] && 1 <= line <= total && line < ws[|ws| - 1].first && !Shown(line, ws)
  }

  lemma HiddenStays(ws: seq<Window>, hit: int, ctx: int, total: int, line: int)
    requires Apart(ws, total) && Hidden(line, ws, total)
    ensures Hidden(line, AddHit(ws, hit, ctx, total), total)
  {
    var s, e := Max(hit - ctx, 1), Min(hit + ctx, total);
    var m := |ws| - 1;
    assert Regular(ws[m], total);
    if s <= ws[m].last + 1 {
      var merged := ws[m].(last := Max(ws[m].last, e));
      assert ws == ws[..m] + [ws[m]] && ws[m := merged] == ws[..m] + [merged];
      ShownAppend(ws[..m], ws[m], line);
      ShownAppend(ws[..m], merged, line);
    } else {
      ShownAppend(ws, Window(s, e), line);
    }
  }

  /** A hit that is not safe leaves such a line near it. */
  lemma UnsafeHides(ws: seq<Window>, hit: int, ctx: int, total: int) returns (line: int)
    requires Apart(ws, total) && !Safe(ws, hit, ctx, total)
    ensures Near(line, hit, ctx, total) && Hidden(line, ws, total)
  {
    var s, e := Max(hit - ctx, 1), Min(hit + ctx, total);
    var m := |ws| - 1;
    if e >= ws[m].first {
      line := ws[m].first - 1;
      forall j | 0 <= j < |ws|
        ensures !Within(line, ws[j])
      {
        if j < m { assert ws[j].last + 1 < ws[m].first; }
      }
    } else if j :| 0 <= j <= m && Within(s, ws[j]) {
      line := ws[j].last + 1;
      assert !(e <= ws[j].last);
      forall k | 0 <= k < |ws|
        ensures !Within(line, ws[k])
      {
        if k < j { assert ws[k].last + 1 < ws[j].first; }
        if j < k { assert ws[j].last + 1 < ws[k].first; }
      }
    } else {
      line := s;
    }
  }

  lemma NextWindows(hits: seq<int>, ctx: int, total: int, i: nat)
    requires i < |hits|
    ensures Windows(hits[..i + 1], ctx, total) == AddHit(Windows(hits[..i], ctx, total), hits[i], ctx, total)
  {
    assert hits[..i + 1][..i] == hits[..i];
  }

  /** A line hidden after the first `i` hits stays hidden. */
  lemma {:induction false} HiddenStaysTo(hits: seq<int>, ctx: int, total: int, i: nat, j: nat, line: int)
    requires ctx >= 0 && i <= j <= |hits|
    requires Hidden(line, Windows(hits[..i], ctx, total), total)
    ensures Hidden(line, Windows(hits[..j], ctx, total), total)
    decreases j
  {
    if i < j {
      HiddenStaysTo(hits, ctx, total, i, j - 1, line);
      WindowsApart(hits[..j - 1], ctx, total);
      HiddenStays(Windows(hits[..j - 1], ctx, total), hits[j - 1], ctx, total, line);
      NextWindows(hits, ctx, total, j - 1);
    }
  }

  lemma UnsafeLoses(hits: seq<int>, ctx: int, total: int, i: nat) returns (line: int)
    requires i < |hits| && !SafeAt(hits, ctx, total, i)
    ensures Wanted(line, hits, ctx, total) && !Shown(line, Windows(hits, ctx, total))
  {
    WindowsApart(hits[..i], ctx, total);
    line := UnsafeHides(Windows(hits[..i], ctx, total), hits[i], ctx, total);
    HiddenStaysTo(hits, ctx, total, i, |hits|, line);
    assert hits[..|hits|] == hits;
  }

  /** For any hits in any order, every wanted line is shown if and only if each hit, when it is met, has
      no line in the file, starts no earlier than the last window, or lies whole in an earlier one. */
  lemma NothingLostExactly(hits: seq<int>, ctx: int, total: int)
    ensures NothingLost(hits, ctx, total) <==> AllSafe(hits, ctx, total)
  {
    if AllSafe(hits, ctx, total) {
      forall line | Wanted(line, hits, ctx, total)
        ensures Shown(line, Windows(hits, ctx, total))
      {
        SafeShowsWanted(hits, ctx, total, line);
      }
    } else {
      var i :| 0 <= i < |hits| && !SafeAt(hits, ctx, total, i);
      var line := UnsafeLoses(hits, ctx, total, i);
    }
  }

  /** Sorted hits are all safe. */
  lemma SortedIsSafe(hits: seq<int>, ctx: int, total: int)
    requires Ordered(hits, AtMost)
    ensures AllSafe(hits, ctx, total)
  {
    forall i | 0 <= i < |hits|
      ensures SafeAt(hits, ctx, total, i)
    {
      WindowsSeparated(hits[..i], ctx, total);
      if i > 0 { assert hits[..i][i - 1] == hits[i - 1]; }
    }
  }

  /** For sorted hits the windows show exactly the wanted lines. */
  lemma WindowsShowWanted(hits: seq<int>, ctx: int, total: int, line: int)
    requires Ordered(hits, AtMost)
    ensures Shown(line, Windows(hits, ctx, total)) <==> Wanted(line, hits, ctx, total)
  {
    SortedIsSafe(hits, ctx, total);
    if Wanted(line, hits, ctx, total) { SafeShowsWanted(hits, ctx, total, line); }
    if Shown(line, Windows(hits, ctx, total)) { NothingElseShown(hits, ctx, total, line); }
  }

  /** Without sorting, a hit can be lost: the lower one is merged into a window that starts above it. */
  lemma UnsortedHitsLost()
    ensures !NothingLost([20, 1], 5, 100)
  {
    var hits := [20, 1];
    assert hits[..1] == [20] && hits[..1][..0] == [];
    assert Windows(hits[..1], 5, 100) == [Window(15, 25)];
    assert !SafeAt(hits, 5, 100, 1);
    NothingLostExactly(hits, 5, 100);
  }

  /** A hit beyond the end of the file is enough: it opens a window that swallows the next hit. */
  lemma HitBeyondTheEndSwallows()
    ensures !NothingLost([500, 20], 5, 100)
  {
    var hits := [500, 20];
    assert hits[..1] == [500] && hits[..1][..0] == [];
    assert Windows(hits[..1], 5, 100) == [Window(495, 100)];
    assert !SafeAt(hits, 5, 100, 1);
    NothingLostExactly(hits, 5, 100);
  }

  // ---------- printing ----------

  /** The line numbers printed for one window. */
  function PrintedOf(w: Window, total: int): seq<int> {
    Between(w.first - 1, Min(w.last, total))
  }

  /** lo + 1, ..., hi. */
  function Between(lo: int, hi: int): seq<int>
    decreases hi - lo
  {
    if lo >= hi then [] else Between(lo, hi - 1) + [hi]
  }

  function Printed(ws: seq<Window>, total: int): seq<int> {
    if ws == [] then [] else Printed(ws[..|ws| - 1], total) + PrintedOf(ws[|ws| - 1], total)
  }

  method RenderWindows(ws: seq<Window>, total: int) returns (numbers: seq<int>)
    ensures numbers == Printed(ws, total)
  {
    numbers := [];
    for k := 0 to |ws|
      invariant numbers == Printed(ws[..k], total)
    {
      assert ws[..k + 1][..k] == ws[..k];
      var before, w := numbers, ws[k];
      var i := w.first - 1;
      while i < w.last && i < total
        invariant w.first - 1 <= i
        invariant i <= Max(w.first - 1, Min(w.last, total))
        invariant numbers == before + Between(w.first - 1, i)
      {
        numbers := numbers + [i + 1];
        i := i + 1;
      }
      assert Between(w.first - 1, i) == PrintedOf(w, total);
    }
    assert ws[..|ws|] == ws;
  }

  predicate Ascending(xs: seq<int>) {
    forall i, j :: 0 <= i < j < |xs| ==> xs[i] < xs[j]
  }

  lemma {:induction false} BetweenMembers(lo: int, hi: int)
    ensures Ascending(Between(lo, hi))
    ensures forall x :: x in Between(lo, hi) <==> lo < x <= hi
    decreases hi - lo
  {
    if lo < hi {
      BetweenMembers(lo, hi - 1);
      assert forall i :: 0 <= i < |Between(lo, hi - 1)| ==> Between(lo, hi)[i] in Between(lo, hi - 1);
    }
  }

  lemma {:induction false} PrintedAscending(ws: seq<Window>, total: int)
    requires Separated(ws)
    ensures Ascending(Printed(ws, total))
    ensures forall x :: x in Printed(ws, total) <==> x <= total && Shown(x, ws)
  {
    if ws != [] {
      var n := |ws| - 1;
      var front, last := ws[..n], ws[n];
      PrintedAscending(front, total);
      BetweenMembers(last.first - 1, Min(last.last, total));
      assert ws == front + [last];
      forall x
        ensures x in Printed(ws, total) <==> x <= total && Shown(x, ws)
      {
        ShownAppend(front, last, x);
        assert x in PrintedOf(last, total) <==> x <= total && Within(x, last);
      }
      forall x | x in Printed(front, total)
        ensures x < last.first
      {
        var i :| 0 <= i < |front| && Within(x, front[i]);
        SeparatedFar(ws, i, n);
      }
      var ps, qs := Printed(front, total), PrintedOf(last, total);
      forall i, j | 0 <= i < j < |ps + qs|
        ensures (ps + qs)[i] < (ps + qs)[j]
      {
        if i < |ps| <= j {
          assert ps[i] in ps && qs[j - |ps|] in qs;
        }
      }
    }
  }

  lemma {:induction false} SeparatedFar(ws: seq<Window>, i: nat, j: nat)
    requires Separated(ws) && i < j < |ws|
    ensures ws[i].last + 1 < ws[j].first
    decreases j
  {
    if i < j - 1 {
      SeparatedFar(ws, i, j - 1);
    }
  }

  /** For sorted hits, what is printed is exactly the wanted lines, each once, in order. */
  lemma RenderingIsExact(hits: seq<int>, ctx: int, total: int)
    requires Ordered(hits, AtMost)
    ensures var out := Printed(Windows(hits, ctx, total), total);
            Ascending(out) && forall line :: line in out <==> Wanted(line, hits, ctx, total)
  {
    var ws := Windows(hits, ctx, total);
    WindowsSeparated(hits, ctx, total);
    PrintedAscending(ws, total);
    forall line
      ensures line in Printed(ws, total) <==> Wanted(line, hits, ctx, total)
    {
      WindowsShowWanted(hits, ctx, total, line);
    }
  }
}
