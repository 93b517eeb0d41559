/** Fixed-size overlapping chunks of a file, and the escaping of Markdown fences in its text. */
module SemanticIndex {
  import opened Numbers

  // ---------- chunks ----------

  const DEFAULT_CHUNK := 3000

  function EffectiveSize(chunkSize: int): (size: int)
    ensures size > 0 && (chunkSize > 0 ==> size == chunkSize)
  {
    if chunkSize <= 0 then DEFAULT_CHUNK else chunkSize
  }

  /** Where chunk `i` starts. */
  function Start(i: nat, step: nat): nat {
    if i == 0 then 0 else Start(i - 1, step) + step
  }

  lemma {:induction false} StartIsMultiple(i: nat, step: nat)
    ensures Start(i, step) == i * step
  {
    if i > 0 {
      StartIsMultiple(i - 1, step);
      assert (i - 1) * step + step == i * step;
    }
  }

  /** The end of chunk `i`. */
  function End(length: nat, size: nat, step: nat, i: nat): nat {
    Min(Start(i, step) + size, length)
  }

  /** Chunk `i` is the window of `size` elements that starts at the `i`th multiple of `step`, inside the data. */
  predicate ChunkAt<T(==)>(data: seq<T>, chunks: seq<seq<T>>, size: nat, step: nat, i: nat)
    requires i < |chunks|
  {
    Start(i, step) < |data| && chunks[i] == data[Start(i, step)..End(|data|, size, step, i)]
  }

  ghost predicate AreChunks<T>(data: seq<T>, chunks: seq<seq<T>>, size: nat, step: nat) {
    forall i :: 0 <= i < |chunks| ==> ChunkAt(data, chunks, size, step, i)
  }

  /** The loop of the fixed-size path: it stands before a round, has returned, or has stopped at a
      slice that starts before the data. */
  datatype Loop<T> = At(start: int, chunks: seq<seq<T>>) | Returned(chunks: seq<seq<T>>) | OutOfRange

  function Round<T>(data: seq<T>, l: Loop<T>, size: nat, step: int): Loop<T> {
    if !l.At? then l
    else if l.start >= |data| then Returned(l.chunks)
    else if l.start < 0 then OutOfRange
    else At(l.start + step, l.chunks + [data[l.start..Min(l.start + size, |data|)]])
  }

  /** The loop after `n` rounds. */
  function After<T>(data: seq<T>, size: nat, step: int, n: nat): Loop<T> {
    if n == 0 then At(0, []) else Round(data, After(data, size, step, n - 1), size, step)
  }

  datatype Outcome<T> = Chunks(chunks: seq<seq<T>>) | Panics | NeverReturns

  ghost predicate Ends<T>(data: seq<T>, size: nat, step: int) {
    exists n :: After(data, size, step, n).Returned?
  }

  ghost predicate Breaks<T>(data: seq<T>, size: nat, step: int) {
    exists n :: After(data, size, step, n).OutOfRange?
  }

  ghost predicate RunsForEver<T>(data: seq<T>, size: nat, step: int) {
    forall n :: After(data, size, step, n).At?
  }

  /** `r` is what the loop comes to. */
  ghost predicate ComesTo<T>(data: seq<T>, size: nat, step: int, r: Outcome<T>) {
    match r
    case Chunks(chunks) => exists n :: After(data, size, step, n) == Returned(chunks)
    case Panics => Breaks(data, size, step)
    case NeverReturns => RunsForEver(data, size, step)
  }

  method ComputeIndexChunks<T>(data: seq<T>, semantic: seq<seq<T>>, chunkSize: int, overlap: int)
    returns (r: Outcome<T>)
    ensures semantic != [] ==> r == Chunks(semantic)
    ensures semantic == [] ==>
              var size := EffectiveSize(chunkSize);
              ComesTo(data, size, size - overlap, r)
  {
    if |semantic| > 0 {
      return Chunks(semantic);
    }
    var chunks: seq<seq<T>> := [];
    var size := if chunkSize <= 0 then DEFAULT_CHUNK else chunkSize;
    var start := 0;
    ghost var n := 0;
    while start < |data|
      invariant start == 0 || size != overlap
      invariant After(data, size, size - overlap, n) == At(start, chunks)
      invariant start < 0 ==> overlap > size
      invariant overlap > size ==> start <= 0
      decreases if size > overlap then |data| - start else if start >= 0 then 1 else 0
    {
      if start < 0 {
        assert After(data, size, size - overlap, n + 1).OutOfRange?;
        return Panics;
      }
      if size == overlap {
        StandsStill(data, size);
        return NeverReturns;
      }
      var end := Min(start + size, |data|);
      chunks := chunks + [data[start..end]];
      start := start + (size - overlap);
      n := n + 1;
    }
    assert After(data, size, size - overlap, n + 1) == Returned(chunks);
    return Chunks(chunks);
  }

  /** With an overlap of the chunk size the loop takes the same first chunk for ever. */
  lemma StandsStill<T>(data: seq<T>, size: nat)
    requires data != []
    ensures RunsForEver(data, size, 0)
  {
    forall n: nat
      ensures After(data, size, 0, n).At?
    {
      StillAt(data, size, n);
    }
  }

  lemma {:induction false} StillAt<T>(data: seq<T>, size: nat, n: nat)
    requires data != []
    ensures After(data, size, 0, n).At? && After(data, size, 0, n).start == 0
  {
    if n > 0 { StillAt(data, size, n - 1); }
  }

  /** Once the loop has stopped it stays as it is. */
  lemma {:induction false} Stopped<T>(data: seq<T>, size: nat, step: int, n: nat, m: nat)
    requires n <= m && !After(data, size, step, n).At?
    ensures After(data, size, step, m) == After(data, size, step, n)
  {
    if n < m { Stopped(data, size, step, n, m - 1); }
  }

  lemma StopsOneWay<T>(data: seq<T>, size: nat, step: int, n: nat, m: nat)
    requires !After(data, size, step, n).At? && !After(data, size, step, m).At?
    ensures After(data, size, step, n) == After(data, size, step, m)
  {
    if n <= m { Stopped(data, size, step, n, m); } else { Stopped(data, size, step, m, n); }
  }

  /** A loop that moves forward returns. */
  lemma {:induction false} MovesToTheEnd<T>(data: seq<T>, size: nat, step: int, n: nat) returns (m: nat)
    requires step > 0 && After(data, size, step, n).At? && After(data, size, step, n).start >= 0
    ensures After(data, size, step, m).Returned?
    decreases |data| - After(data, size, step, n).start
  {
    if After(data, size, step, n).start >= |data| {
      m := n + 1;
    } else {
      m := MovesToTheEnd(data, size, step, n + 1);
    }
  }

  /** Where the loop stops, if it does. */
  lemma WhereItStops<T>(data: seq<T>, size: nat, overlap: int) returns (n: nat)
    requires data == [] || overlap != size
    ensures if data == [] || overlap < size then After(data, size, size - overlap, n).Returned?
            else After(data, size, size - overlap, n).OutOfRange?
  {
    var step := size - overlap;
    assert After(data, size, step, 0) == At(0, []);
    if data == [] {
      n := 1;
    } else if overlap < size {
      n := MovesToTheEnd(data, size, step, 0);
    } else {
      assert After(data, size, step, 1).start == step;
      n := 2;
    }
  }

  /** The fixed-size path returns if and only if the data is empty or the overlap is below the chunk
      size; it slices out of range if and only if the overlap is above it, and never ends when they
      are equal. */
  lemma LoopExactly<T>(data: seq<T>, size: nat, overlap: int)
    ensures Ends(data, size, size - overlap) <==> data == [] || overlap < size
    ensures Breaks(data, size, size - overlap) <==> data != [] && overlap > size
    ensures RunsForEver(data, size, size - overlap) <==> data != [] && overlap == size
  {
    var step := size - overlap;
    if data != [] && overlap == size {
      StandsStill(data, size);
    } else {
      var n := WhereItStops(data, size, overlap);
      forall m: nat | !After(data, size, step, m).At?
        ensures After(data, size, step, m) == After(data, size, step, n)
      {
        StopsOneWay(data, size, step, m, n);
      }
    }
  }

  lemma ChunksAppend<T>(data: seq<T>, chunks: seq<seq<T>>, size: nat, step: nat)
    requires AreChunks(data, chunks, size, step) && Start(|chunks|, step) < |data|
    ensures var n := |chunks|;
            AreChunks(data, chunks + [data[Start(n, step)..End(|data|, size, step, n)]], size, step)
  {
    var n := |chunks|;
    var all := chunks + [data[Start(n, step)..End(|data|, size, step, n)]];
    forall i | 0 <= i < |all|
      ensures ChunkAt(data, all, size, step, i)
    {
      if i < n { ChunkIs(data, chunks, size, step, i); }
    }
  }

  /** What a forward loop returns are the chunks at the multiples of the step. */
  lemma {:induction false} ReturnedChunks<T>(data: seq<T>, size: nat, step: nat, n: nat)
    ensures !After(data, size, step, n).OutOfRange?
    ensures var l := After(data, size, step, n);
            && AreChunks(data, l.chunks, size, step)
            && (l.At? ==> l.start == Start(|l.chunks|, step))
            && (l.Returned? ==> Start(|l.chunks|, step) >= |data|)
  {
    if n > 0 {
      ReturnedChunks(data, size, step, n - 1);
      var before := After(data, size, step, n - 1);
      if before.At? && before.start < |data| { ChunksAppend(data, before.chunks, size, step); }
    }
  }

  /** The fixed-size path as its caller sees it: a positive chunk size is used as given and any other means
      3000; chunk `i` starts at the `i`th multiple of size - overlap and holds `size` elements, or what is left. */
  lemma FixedChunkExactly<T>(data: seq<T>, chunkSize: int, overlap: int, n: nat, i: nat)
    requires overlap < EffectiveSize(chunkSize)
    requires var l := After(data, EffectiveSize(chunkSize), EffectiveSize(chunkSize) - overlap, n);
             l.Returned? && i < |l.chunks|
    ensures var size := if chunkSize > 0 then chunkSize else 3000;
            var chunks := After(data, EffectiveSize(chunkSize), EffectiveSize(chunkSize) - overlap, n).chunks;
            var start := i * (size - overlap);
            0 <= start < |data| && chunks[i] == data[start..Min(start + size, |data|)]
  {
    var size := EffectiveSize(chunkSize);
    ReturnedChunks(data, size, size - overlap, n);
    StartIsMultiple(i, size - overlap);
    ChunkIs(data, After(data, size, size - overlap, n).chunks, size, size - overlap, i);
  }

  /** There are length / step chunks, rounded up. */
  lemma ChunkCount<T>(data: seq<T>, chunks: seq<seq<T>>, size: nat, step: nat)
    requires step > 0 && AreChunks(data, chunks, size, step) && Start(|chunks|, step) >= |data|
    ensures |chunks| == (|data| + step - 1) / step
  {
    var n := |chunks|;
    StartIsMultiple(n, step);
    if n > 0 {
      StartIsMultiple(n - 1, step);
      ChunkIs(data, chunks, size, step, n - 1);
    }
    RoundedUp(|data|, step, n);
  }

  lemma RoundedUp(length: nat, step: nat, n: nat)
    requires step > 0 && n * step >= length && (n > 0 ==> (n - 1) * step < length)
    ensures n == (length + step - 1) / step
  {
    var q := (length + step - 1) / step;
    assert q * step <= length + step - 1 < q * step + step;
    assert (n - 1) * step == n * step - step && (n - q) * step == n * step - q * step;
    MultipleOrder(n - q, step);
  }

  lemma MultipleOrder(k: int, step: nat)
    ensures k >= 1 ==> k * step >= step
    ensures k <= -1 ==> k * step <= 0 - step
  {
  }

  /** The first `n` chunks glued together, dropping up to `overlap` leading elements of each but the first. */
  function Glued<T>(chunks: seq<seq<T>>, overlap: nat, n: nat): seq<T>
    requires n <= |chunks|
  {
    if n == 0 then []
    else if n == 1 then chunks[0]
    else Glued(chunks, overlap, n - 1) + chunks[n - 1][Min(overlap, |chunks[n - 1]|)..]
  }

  function Reassemble<T>(chunks: seq<seq<T>>, overlap: nat): seq<T> {
    Glued(chunks, overlap, |chunks|)
  }

  lemma Suffix<T>(data: seq<T>, from: nat, done: nat, end: nat)
    requires from <= done <= end <= |data|
    ensures data[..done] + data[from..end][done - from..] == data[..end]
  {
  }

  lemma NextChunk<T>(data: seq<T>, last: seq<T>, size: nat, overlap: nat, n: nat)
    requires overlap < size && Start(n + 1, size - overlap) < |data|
    requires last == data[Start(n + 1, size - overlap)..End(|data|, size, size - overlap, n + 1)]
    ensures data[..End(|data|, size, size - overlap, n)] + last[Min(overlap, |last|)..]
         == data[..End(|data|, size, size - overlap, n + 1)]
  {
    var step := size - overlap;
    var from := Start(n + 1, step);
    assert End(|data|, size, step, n) == from + Min(overlap, |last|);
    Suffix(data, from, End(|data|, size, step, n), End(|data|, size, step, n + 1));
  }

  lemma ChunkIs<T>(data: seq<T>, chunks: seq<seq<T>>, size: nat, step: nat, i: nat)
    requires AreChunks(data, chunks, size, step) && i < |chunks|
    ensures Start(i, step) < |data| && chunks[i] == data[Start(i, step)..End(|data|, size, step, i)]
  {
    assert ChunkAt(data, chunks, size, step, i);
  }

  lemma FirstChunk<T>(data: seq<T>, chunks: seq<seq<T>>, size: nat, step: nat)
    requires AreChunks(data, chunks, size, step) && chunks != []
    ensures chunks[0] == data[..End(|data|, size, step, 0)]
  {
    ChunkIs(data, chunks, size, step, 0);
    assert Start(0, step) == 0;
    assert data[0..End(|data|, size, step, 0)] == data[..End(|data|, size, step, 0)];
  }

  lemma GluedNext<T>(chunks: seq<seq<T>>, overlap: nat, n: nat)
    requires 0 < n < |chunks|
    ensures Glued(chunks, overlap, n + 1) == Glued(chunks, overlap, n) + chunks[n][Min(overlap, |chunks[n]|)..]
  {
  }

  /** With an overlap between zero and the chunk size, the chunks so far hold the data so far. */
  lemma {:induction false} ChunksReassemble<T>(data: seq<T>, chunks: seq<seq<T>>, size: nat, overlap: nat, n: nat)
    requires overlap < size && n < |chunks| && AreChunks(data, chunks, size, size - overlap)
    ensures Glued(chunks, overlap, n + 1) == data[..End(|data|, size, size - overlap, n)]
  {
    var step := size - overlap;
    if n == 0 {
      FirstChunk(data, chunks, size, step);
      assert Glued(chunks, overlap, 1) == chunks[0];
    } else {
      var before := Glued(chunks, overlap, n);
      assert before == data[..End(|data|, size, step, n - 1)] by {
        ChunksReassemble(data, chunks, size, overlap, n - 1);
      }
      GluedNext(chunks, overlap, n);
      ChunkIs(data, chunks, size, step, n);
      NextChunk(data, chunks[n], size, overlap, n - 1);
    }
  }

  /** All the chunks together give the data back. */
  lemma AllDataCovered<T>(data: seq<T>, chunks: seq<seq<T>>, size: nat, overlap: nat)
    requires overlap < size && data != [] && AreChunks(data, chunks, size, size - overlap)
    requires Start(|chunks|, size - overlap) >= |data|
    ensures Reassemble(chunks, overlap) == data
  {
    ChunksReassemble(data, chunks, size, overlap, |chunks| - 1);
    assert data[..|data|] == data;
  }

  /** With a negative overlap there is a gap after every chunk: the next one starts beyond its end. */
  lemma NegativeOverlapSkips<T>(data: seq<T>, chunks: seq<seq<T>>, size: nat, gap: nat, i: nat)
    requires gap > 0 && size > 0 && AreChunks(data, chunks, size, size + gap) && i < |chunks|
    ensures Start(i, size + gap) + |chunks[i]| < Start(i + 1, size + gap)
  {
    ChunkIs(data, chunks, size, size + gap, i);
  }

  /** Position `k` of the data lies in some chunk. */
  ghost predicate Covered<T>(chunks: seq<seq<T>>, step: nat, k: int) {
    exists i :: 0 <= i < |chunks| && Start(i, step) <= k < Start(i, step) + |chunks[i]|
  }

  ghost predicate AllCovered<T>(data: seq<T>, chunks: seq<seq<T>>, step: nat) {
    forall k :: 0 <= k < |data| ==> Covered(chunks, step, k)
  }

  lemma {:induction false} StartsAscend(i: nat, j: nat, step: nat)
    requires i <= j
    ensures Start(i, step) <= Start(j, step)
  {
    if i < j { StartsAscend(i, j - 1, step); }
  }

  /** The round whose start is the last one up to `k`. */
  lemma {:induction false} RoundOf(n: nat, step: nat, k: nat) returns (i: nat)
    requires k < Start(n, step)
    ensures i < n && Start(i, step) <= k < Start(i + 1, step)
  {
    if n > 0 && k < Start(n - 1, step) {
      i := RoundOf(n - 1, step, k);
    } else {
      i := n - 1;
    }
  }

  lemma OverlapCovers<T>(data: seq<T>, chunks: seq<seq<T>>, size: nat, step: nat, k: nat)
    requires step <= size && k < |data| && AreChunks(data, chunks, size, step) && Start(|chunks|, step) >= |data|
    ensures Covered(chunks, step, k)
  {
    var i := RoundOf(|chunks|, step, k);
    ChunkIs(data, chunks, size, step, i);
    assert |chunks[i]| == End(|data|, size, step, i) - Start(i, step);
  }

  lemma GapUncovered<T>(data: seq<T>, chunks: seq<seq<T>>, size: nat, step: nat)
    requires 0 < size < step && size < |data| && AreChunks(data, chunks, size, step)
    ensures !Covered(chunks, step, size)
  {
    forall i | 0 <= i < |chunks|
      ensures !(Start(i, step) <= size < Start(i, step) + |chunks[i]|)
    {
      ChunkIs(data, chunks, size, step, i);
      if i > 0 { FirstStep(i, step); }
    }
  }

  lemma FirstStep(i: nat, step: nat)
    requires i > 0
    ensures Start(i, step) >= step
  {
    assert Start(1, step) == Start(0, step) + step;
    StartsAscend(1, i, step);
  }

  lemma OneChunkCovers<T>(data: seq<T>, chunks: seq<seq<T>>, size: nat, step: nat, k: nat)
    requires k < |data| <= size && AreChunks(data, chunks, size, step) && Start(|chunks|, step) >= |data|
    ensures Covered(chunks, step, k)
  {
    assert Start(0, step) == 0;
    FirstChunk(data, chunks, size, step);
    assert Start(0, step) <= k < Start(0, step) + |chunks[0]|;
  }

  /** Whatever the loop returns, every position of the data is in some chunk if and only if the
      overlap is not negative or one chunk holds all the data. */
  lemma CoveredExactly<T>(data: seq<T>, size: nat, overlap: int, n: nat)
    requires size > 0 && overlap < size && After(data, size, size - overlap, n).Returned?
    ensures AllCovered(data, After(data, size, size - overlap, n).chunks, size - overlap) <==>
            overlap >= 0 || |data| <= size
  {
    var step, chunks := size - overlap, After(data, size, size - overlap, n).chunks;
    ReturnedChunks(data, size, step, n);
    if overlap >= 0 {
      forall k | 0 <= k < |data|
        ensures Covered(chunks, step, k)
      {
        OverlapCovers(data, chunks, size, step, k);
      }
    } else if |data| <= size {
      forall k | 0 <= k < |data|
        ensures Covered(chunks, step, k)
      {
        OneChunkCovers(data, chunks, size, step, k);
      }
    } else {
      GapUncovered(data, chunks, size, step);
    }
  }

  // ---------- fences ----------

  const TICK := '`'
  const JOINER := '\U{200D}'
  const FENCE := "```"
  const ESCAPED := "``\U{200D}`"

  /** A run of `n` backticks occurs in `s`. */
  predicate HasRun(s: string, n: nat) {
    exists i :: 0 <= i <= |s| - n && StartsWithTicks(s[i..], n)
  }

  predicate StartsWithTicks(s: string, n: nat) {
    n <= |s| && forall k :: 0 <= k < n ==> s[k] == TICK
  }

  /** Replace every fence, from left to right. */
  function ReplaceAll(s: string): string {
    if s == "" then ""
    else if StartsWithTicks(s, 3) then ESCAPED + ReplaceAll(s[3..])
    else [s[0]] + ReplaceAll(s[1..])
  }

  function SanitizeFenced(content: string): string {
    if !HasRun(content, 3) then content else ReplaceAll(content)
  }

  function DropJoiners(s: string): string {
    if s == "" then "" else (if s[0] == JOINER then "" else [s[0]]) + DropJoiners(s[1..])
  }

  lemma {:induction false} RunOfTail(s: string, n: nat)
    requires s != "" && n > 0
    ensures HasRun(s, n) <==> StartsWithTicks(s, n) || HasRun(s[1..], n)
  {
    if HasRun(s, n) {
      var i :| 0 <= i <= |s| - n && StartsWithTicks(s[i..], n);
      if i == 0 {
        assert s[0..] == s;
      } else {
        assert s[1..][i - 1..] == s[i..];
      }
    }
    if StartsWithTicks(s, n) { assert s[0..] == s; }
    if HasRun(s[1..], n) {
      var i :| 0 <= i <= |s[1..]| - n && StartsWithTicks(s[1..][i..], n);
      assert s[1..][i..] == s[i + 1..];
    }
  }

  /** Without a fence there is nothing to replace, so the early return changes nothing. */
  lemma {:induction false} NothingToReplace(s: string)
    requires !HasRun(s, 3)
    ensures ReplaceAll(s) == s
  {
    if s != "" {
      RunOfTail(s, 3);
      NothingToReplace(s[1..]);
    }
  }

  lemma SanitizeIsReplaceAll(content: string)
    ensures SanitizeFenced(content) == ReplaceAll(content)
  {
    if !HasRun(content, 3) { NothingToReplace(content); }
  }

  lemma TicksCons(c: char, r: string, n: nat)
    ensures StartsWithTicks([c] + r, n + 1) <==> c == TICK && StartsWithTicks(r, n)
  {
    var s := [c] + r;
    assert forall k :: 0 <= k < |r| ==> s[k + 1] == r[k];
    if StartsWithTicks(s, n + 1) {
      assert s[0] == c;
      assert forall k :: 0 <= k < n ==> r[k] == s[k + 1];
    } else if c == TICK && n <= |r| {
      var k :| 0 <= k < n + 1 && s[k] != TICK;
      assert r[k - 1] == s[k];
    }
  }

  /** Escaping keeps whether the text starts with one or two backticks, and breaks up three. */
  lemma {:induction false} StartKept(s: string)
    ensures StartsWithTicks(ReplaceAll(s), 1) <==> StartsWithTicks(s, 1)
    ensures StartsWithTicks(ReplaceAll(s), 2) <==> StartsWithTicks(s, 2)
    ensures !StartsWithTicks(ReplaceAll(s), 3)
  {
    if StartsWithTicks(s, 3) {
      assert ReplaceAll(s)[2] == JOINER;
    } else if s != "" {
      StartKept(s[1..]);
      assert s == [s[0]] + s[1..];
      TicksCons(s[0], ReplaceAll(s[1..]), 0);
      TicksCons(s[0], ReplaceAll(s[1..]), 1);
      TicksCons(s[0], ReplaceAll(s[1..]), 2);
      TicksCons(s[0], s[1..], 1);
      TicksCons(s[0], s[1..], 2);
    }
  }

  /** Five backticks in a row after a fence start two after it. */
  lemma RunAcrossFence(s: string)
    requires StartsWithTicks(s, 3)
    ensures HasRun(s, 5) <==> StartsWithTicks(s[3..], 2) || HasRun(s[3..], 5)
  {
    RunOfTail(s, 5);
    RunOfTail(s[1..], 5);
    RunOfTail(s[1..][1..], 5);
    assert s[1..][1..][1..] == s[3..];
    assert s[1..][1..] == s[2..];
    assert forall k :: 0 <= k < |s[3..]| ==> s[3..][k] == s[k + 3];
  }

  /** A fence survives escaping exactly when the text has five backticks in a row: the escape of
      one fence ends in a backtick, which two more complete to a new fence. */
  lemma {:induction false} FenceSurvives(s: string)
    ensures HasRun(ReplaceAll(s), 3) <==> HasRun(s, 5)
  {
    var r := ReplaceAll(s);
    if s == "" {
    } else if StartsWithTicks(s, 3) {
      var t := s[3..];
      FenceSurvives(t);
      StartKept(t);
      RunAcrossFence(s);
      var tail := "`" + ReplaceAll(t);
      assert r[1..][1..][1..] == tail;
      RunOfTail(r, 3);
      RunOfTail(r[1..], 3);
      RunOfTail(r[1..][1..], 3);
      RunOfTail(tail, 3);
      assert tail[1..] == ReplaceAll(t);
      assert r[1..][1] == JOINER && r[1..][1..][0] == JOINER && r[2] == JOINER;
      assert StartsWithTicks(tail, 3) <==> StartsWithTicks(ReplaceAll(t), 2) by {
        assert forall k :: 0 <= k < |ReplaceAll(t)| ==> tail[k + 1] == ReplaceAll(t)[k];
        if StartsWithTicks(tail, 3) { assert tail[1] == TICK && tail[2] == TICK; }
      }
    } else {
      FenceSurvives(s[1..]);
      StartKept(s);
      RunOfTail(r, 3);
      assert r[1..] == ReplaceAll(s[1..]);
      RunOfTail(s, 5);
    }
  }

  /** The escaped text is free of fences for every content whose runs stop at four backticks, and
      only for those. */
  lemma EscapedExactly(content: string)
    ensures !HasRun(SanitizeFenced(content), 3) <==> !HasRun(content, 5)
  {
    SanitizeIsReplaceAll(content);
    FenceSurvives(content);
  }

  /** The documented promise fails at five backticks. */
  lemma FiveBackticksStillFence()
    ensures HasRun(SanitizeFenced("`````"), 3)
  {
    assert "`````"[0..] == "`````" && StartsWithTicks("`````", 5);
    EscapedExactly("`````");
  }

  lemma {:induction false} DropJoinersConcat(a: string, b: string)
    ensures DropJoiners(a + b) == DropJoiners(a) + DropJoiners(b)
  {
    if a == "" {
      assert a + b == b;
    } else {
      DropJoinersConcat(a[1..], b);
      assert (a + b)[1..] == a[1..] + b;
      JoinThree(if a[0] == JOINER then "" else [a[0]], DropJoiners(a[1..]), DropJoiners(b));
    }
  }

  lemma JoinThree(a: string, b: string, c: string)
    ensures a + (b + c) == (a + b) + c
  {
  }

  lemma {:induction false} DropFromPlain(s: string)
    requires JOINER !in s
    ensures DropJoiners(s) == s
  {
    if s != "" { DropFromPlain(s[1..]); }
  }

  /** Nothing but joiners is added: deleting them gives the content back. */
  lemma {:induction false} EscapeRoundTrip(s: string)
    requires JOINER !in s
    ensures DropJoiners(ReplaceAll(s)) == s
  {
    if s == "" {
    } else if StartsWithTicks(s, 3) {
      EscapeRoundTrip(s[3..]);
      DropJoinersConcat(ESCAPED, ReplaceAll(s[3..]));
      EscapedIsFence();
      assert s == FENCE + s[3..];
    } else {
      EscapeRoundTrip(s[1..]);
      DropJoinersConcat([s[0]], ReplaceAll(s[1..]));
      DropFromPlain([s[0]]);
    }
  }

  lemma EscapedIsFence()
    ensures DropJoiners(ESCAPED) == FENCE
  {
    DropJoinersConcat("``", "\U{200D}`");
    DropJoinersConcat("\U{200D}", "`");
    DropFromPlain("``");
    DropFromPlain("`");
    assert "``" + ("\U{200D}" + "`") == ESCAPED;
  }

  lemma SanitizeRoundTrip(content: string)
    requires JOINER !in content
    ensures DropJoiners(SanitizeFenced(content)) == content
  {
    SanitizeIsReplaceAll(content);
    EscapeRoundTrip(content);
  }
}
