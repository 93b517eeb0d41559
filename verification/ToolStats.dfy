/** Per-tool statistics gathered from every workspace of a project, merged into one row a tool. */
module ToolStats {
  import opened Grouping
  import opened Numbers

  // ---------- token spend ----------

  datatype TokenRow = TokenRow(tool: string, calls: int, input: int, output: int, total: int, cost: real)

  function ToolOf(r: TokenRow): string { r.tool }
  function TotalRank(r: TokenRow): int { r.total }
  function Calls(r: TokenRow): real { r.calls as real }
  function Input(r: TokenRow): real { r.input as real }
  function Output(r: TokenRow): real { r.output as real }
  function Tokens(r: TokenRow): real { r.total as real }
  function Cost(r: TokenRow): real { r.cost }

  function AddTokens(a: TokenRow, b: TokenRow): TokenRow {
    TokenRow(a.tool, a.calls + b.calls, a.input + b.input, a.output + b.output, a.total + b.total, a.cost + b.cost)
  }

  /** The rows of all workspaces, one workspace after the other. */
  function Flat<R>(results: seq<seq<R>>): seq<R> {
    if results == [] then [] else Flat(results[..|results| - 1]) + results[|results| - 1]
  }

  function SumTotals(rows: seq<TokenRow>): int {
    if rows == [] then 0 else SumTotals(rows[..|rows| - 1]) + rows[|rows| - 1].total
  }

  lemma SumTotalsAppend(rows: seq<TokenRow>, r: TokenRow)
    ensures SumTotals(rows + [r]) == SumTotals(rows) + r.total
  {
    assert (rows + [r])[..|rows|] == rows;
  }

  lemma FlatAppend<R>(results: seq<seq<R>>, i: nat)
    requires i < |results|
    ensures Flat(results[..i + 1]) == Flat(results[..i]) + results[i]
  {
    assert results[..i + 1][..i] == results[..i];
  }

  method AggregateTokenRows(results: seq<seq<TokenRow>>) returns (out: seq<TokenRow>, total: int)
    ensures Lists(out, Group(Flat(results), ToolOf, AddTokens), ToolOf)
    ensures Descending(out, TotalRank)
    ensures total == SumTotals(Flat(results))
  {
    var byTool: map<string, TokenRow> := map[];
    total := 0;
    ghost var seen: seq<TokenRow> := [];
    for i := 0 to |results|
      invariant seen == Flat(results[..i])
      invariant byTool == Group(seen, ToolOf, AddTokens) && total == SumTotals(seen)
    {
      FlatAppend(results, i);
      var rows := results[i];
      for j := 0 to |rows|
        invariant seen == Flat(results[..i]) + rows[..j]
        invariant byTool == Group(seen, ToolOf, AddTokens) && total == SumTotals(seen)
      {
        var r := rows[j];
        GroupAppend(seen, r, ToolOf, AddTokens);
        SumTotalsAppend(seen, r);
        total := total + r.total;
        if r.tool !in byTool {
          byTool := byTool[r.tool := r];
        } else {
          byTool := byTool[r.tool := AddTokens(byTool[r.tool], r)];
        }
        seen := seen + [r];
        assert rows[..j + 1] == rows[..j] + [r];
      }
    }
    assert results[..|results|] == results;
    KeysKept(seen, ToolOf, AddTokens);
    out := ListDescending(byTool, ToolOf, TotalRank);
  }

  /** When merging keeps the key, every entry is filed under its own key. */
  lemma {:induction false} KeysKept<R(!new)>(rows: seq<R>, key: R -> string, merge: (R, R) -> R)
    requires forall a, b :: key(merge(a, b)) == key(a)
    ensures forall k :: k in Group(rows, key, merge) ==> key(Group(rows, key, merge)[k]) == k
  {
    if rows != [] { KeysKept(rows[..|rows| - 1], key, merge); }
  }

  lemma TokensAdditive()
    ensures Additive(Calls, AddTokens) && Additive(Input, AddTokens) && Additive(Output, AddTokens)
    ensures Additive(Tokens, AddTokens) && Additive(Cost, AddTokens)
  {
  }

  lemma {:induction false} SumTotalsIsSum(rows: seq<TokenRow>)
    ensures SumTotals(rows) as real == Sum(rows, Tokens)
  {
    if rows != [] { SumTotalsIsSum(rows[..|rows| - 1]); }
  }

  /** Each listed row holds, field by field, the sums over its tool's own rows. */
  lemma TokenRowIsSum(rows: seq<TokenRow>, out: seq<TokenRow>, i: nat)
    requires Lists(out, Group(rows, ToolOf, AddTokens), ToolOf) && i < |out|
    ensures var own := Own(rows, ToolOf, out[i].tool);
            && own != []
            && Calls(out[i]) == Sum(own, Calls) && Input(out[i]) == Sum(own, Input)
            && Output(out[i]) == Sum(own, Output) && Tokens(out[i]) == Sum(own, Tokens)
            && Cost(out[i]) == Sum(own, Cost)
  {
    var own := Own(rows, ToolOf, out[i].tool);
    assert ToolOf(out[i]) in Group(rows, ToolOf, AddTokens);
    GroupIsMerge(rows, ToolOf, AddTokens, out[i].tool);
    TokensAdditive();
    MergeAddsUp(own, AddTokens, Calls);
    MergeAddsUp(own, AddTokens, Input);
    MergeAddsUp(own, AddTokens, Output);
    MergeAddsUp(own, AddTokens, Tokens);
    MergeAddsUp(own, AddTokens, Cost);
  }

  /** Every tool that spent anything has exactly one row, and nothing is lost: the returned total
      is the sum over the rows that went in and over the rows that come out. */
  lemma TokensConserved(rows: seq<TokenRow>, out: seq<TokenRow>, total: int)
    requires Lists(out, Group(rows, ToolOf, AddTokens), ToolOf) && total == SumTotals(rows)
    ensures total == SumTotals(out)
    ensures Sum(out, Cost) == Sum(rows, Cost)
    ensures forall k :: Own(rows, ToolOf, k) != [] <==> exists i :: 0 <= i < |out| && ToolOf(out[i]) == k
  {
    var m := Group(rows, ToolOf, AddTokens);
    TokensAdditive();
    GroupConserves(rows, ToolOf, AddTokens, Tokens);
    GroupConserves(rows, ToolOf, AddTokens, Cost);
    ListingTotal(out, m, ToolOf, Tokens);
    ListingTotal(out, m, ToolOf, Cost);
    SumTotalsIsSum(rows);
    SumTotalsIsSum(out);
    forall k
      ensures Own(rows, ToolOf, k) != [] <==> exists i :: 0 <= i < |out| && ToolOf(out[i]) == k
    {
      GroupIsMerge(rows, ToolOf, AddTokens, k);
    }
  }

  // ---------- latencies ----------

  datatype ToolRow =
    ToolRow(name: string, p50: int, p95: int, p99: int, window: int, lifetime: int, errors: int, errorRate: real)

  function NameOf(r: ToolRow): string { r.name }
  function P50(r: ToolRow): int { r.p50 }
  function P95(r: ToolRow): int { r.p95 }
  function P99(r: ToolRow): int { r.p99 }
  function Errors(r: ToolRow): int { r.errors }
  function Lifetime(r: ToolRow): int { r.lifetime }
  function WindowCount(r: ToolRow): real { r.window as real }
  function LifetimeCount(r: ToolRow): real { r.lifetime as real }
  function ErrorCount(r: ToolRow): real { r.errors as real }

  function AddLatency(a: ToolRow, b: ToolRow): ToolRow {
    ToolRow(a.name, Max(a.p50, b.p50), Max(a.p95, b.p95), Max(a.p99, b.p99),
            a.window + b.window, a.lifetime + b.lifetime, a.errors + b.errors, a.errorRate)
  }

  /** The error rate is recomputed from the merged counts when there are any calls. */
  function Rated(r: ToolRow): ToolRow {
    if r.lifetime > 0 then r.(errorRate := r.errors as real / r.lifetime as real) else r
  }

  function RatedAll(m: map<string, ToolRow>): map<string, ToolRow> {
    map k | k in m :: Rated(m[k])
  }

  /** The requested sort key; anything unknown means the 99th percentile. */
  function SortKey(sortBy: string): ToolRow -> int {
    if sortBy == "p50" then P50
    else if sortBy == "p95" then P95
    else if sortBy == "errors" then Errors
    else if sortBy == "calls" then Lifetime
    else P99
  }

  method AggregateToolRows(results: seq<seq<ToolRow>>, sortBy: string) returns (out: seq<ToolRow>)
    ensures Lists(out, RatedAll(Group(Flat(results), NameOf, AddLatency)), NameOf)
    ensures Descending(out, SortKey(sortBy))
  {
    var byName: map<string, ToolRow> := map[];
    ghost var seen: seq<ToolRow> := [];
    for i := 0 to |results|
      invariant seen == Flat(results[..i]) && byName == Group(seen, NameOf, AddLatency)
    {
      FlatAppend(results, i);
      var rows := results[i];
      for j := 0 to |rows|
        invariant seen == Flat(results[..i]) + rows[..j] && byName == Group(seen, NameOf, AddLatency)
      {
        var r := rows[j];
        GroupAppend(seen, r, NameOf, AddLatency);
        if r.name !in byName {
          byName := byName[r.name := r];
        } else {
          byName := byName[r.name := AddLatency(byName[r.name], r)];
        }
        seen := seen + [r];
        assert rows[..j + 1] == rows[..j] + [r];
      }
    }
    assert results[..|results|] == results;
    KeysKept(seen, NameOf, AddLatency);
    out := ListDescending(RatedAll(byName), NameOf, SortKey(sortBy));
  }

  lemma LatencyMerges()
    ensures TakesMax(P50, AddLatency) && TakesMax(P95, AddLatency) && TakesMax(P99, AddLatency)
    ensures Additive(WindowCount, AddLatency) && Additive(LifetimeCount, AddLatency) && Additive(ErrorCount, AddLatency)
  {
  }

  /** `x` is the largest value of `f` among the rows. */
  ghost predicate IsMax(rows: seq<ToolRow>, f: ToolRow -> int, x: int) {
    (forall r :: r in rows ==> f(r) <= x) && exists r :: r in rows && f(r) == x
  }

  /** A listed row is its tool's merged row with the error rate recomputed. */
  lemma ListedRow(rows: seq<ToolRow>, out: seq<ToolRow>, i: nat)
    requires Lists(out, RatedAll(Group(rows, NameOf, AddLatency)), NameOf) && i < |out|
    ensures Own(rows, NameOf, out[i].name) != []
    ensures out[i] == Rated(MergeAll(Own(rows, NameOf, out[i].name), AddLatency))
  {
    assert NameOf(out[i]) in RatedAll(Group(rows, NameOf, AddLatency));
    GroupIsMerge(rows, NameOf, AddLatency, out[i].name);
  }

  lemma MergedMax(own: seq<ToolRow>, f: ToolRow -> int)
    requires own != [] && TakesMax(f, AddLatency)
    ensures IsMax(own, f, f(MergeAll(own, AddLatency)))
  {
    MergeTakesMax(own, AddLatency, f);
  }

  /** Each listed row holds the worst percentiles of its tool's own rows. */
  lemma ToolRowIsWorst(rows: seq<ToolRow>, out: seq<ToolRow>, i: nat)
    requires Lists(out, RatedAll(Group(rows, NameOf, AddLatency)), NameOf) && i < |out|
    ensures var own := Own(rows, NameOf, out[i].name);
            IsMax(own, P50, out[i].p50) && IsMax(own, P95, out[i].p95) && IsMax(own, P99, out[i].p99)
  {
    ListedRow(rows, out, i);
    LatencyMerges();
    var own := Own(rows, NameOf, out[i].name);
    MergedMax(own, P50);
    MergedMax(own, P95);
    MergedMax(own, P99);
  }

  lemma MergedCounts(own: seq<ToolRow>)
    requires own != []
    ensures var m := MergeAll(own, AddLatency);
            && WindowCount(m) == Sum(own, WindowCount)
            && LifetimeCount(m) == Sum(own, LifetimeCount)
            && ErrorCount(m) == Sum(own, ErrorCount)
  {
    LatencyMerges();
    MergeAddsUp(own, AddLatency, WindowCount);
    MergeAddsUp(own, AddLatency, LifetimeCount);
    MergeAddsUp(own, AddLatency, ErrorCount);
  }

  /** Each listed row holds the summed counts of its tool's own rows, and its error rate is errors
      over calls. */
  lemma ToolRowIsSum(rows: seq<ToolRow>, out: seq<ToolRow>, i: nat)
    requires Lists(out, RatedAll(Group(rows, NameOf, AddLatency)), NameOf) && i < |out|
    ensures var own := Own(rows, NameOf, out[i].name);
            && own != []
            && WindowCount(out[i]) == Sum(own, WindowCount) && LifetimeCount(out[i]) == Sum(own, LifetimeCount)
            && ErrorCount(out[i]) == Sum(own, ErrorCount)
    ensures out[i].lifetime > 0 ==> out[i].errorRate * out[i].lifetime as real == out[i].errors as real
  {
    ListedRow(rows, out, i);
    var own := Own(rows, NameOf, out[i].name);
    MergedCounts(own);
    RateTimesCalls(MergeAll(own, AddLatency));
  }

  lemma RateTimesCalls(r: ToolRow)
    ensures r.lifetime > 0 ==> Rated(r).errorRate * r.lifetime as real == r.errors as real
  {
  }

  // ---------- the order of the rows, and rows without calls ----------

  /** Rows are listed by the column that the request names, largest first: p50, p95, errors or calls, and
      p99 for any other name. */
  lemma OrderExactly(out: seq<ToolRow>, sortBy: string, i: nat, j: nat)
    requires Descending(out, SortKey(sortBy)) && i < j < |out|
    ensures sortBy == "p50" ==> out[i].p50 >= out[j].p50
    ensures sortBy == "p95" ==> out[i].p95 >= out[j].p95
    ensures sortBy == "errors" ==> out[i].errors >= out[j].errors
    ensures sortBy == "calls" ==> out[i].lifetime >= out[j].lifetime
    ensures sortBy !in {"p50", "p95", "errors", "calls"} ==> out[i].p99 >= out[j].p99
  {
    assert SortKey(sortBy)(out[i]) >= SortKey(sortBy)(out[j]);
  }

  /** Token rows are listed by their totals, largest first. */
  lemma TokenOrder(out: seq<TokenRow>, i: nat, j: nat)
    requires Descending(out, TotalRank) && i < j < |out|
    ensures out[i].total >= out[j].total
  {
    assert TotalRank(out[i]) >= TotalRank(out[j]);
  }

  lemma {:induction false} FirstRate(own: seq<ToolRow>)
    requires own != []
    ensures MergeAll(own, AddLatency).errorRate == own[0].errorRate
  {
    if |own| > 1 { FirstRate(own[..|own| - 1]); }
  }

  /** A tool without calls keeps the error rate of its first row. */
  lemma RateWithoutCalls(rows: seq<ToolRow>, out: seq<ToolRow>, i: nat)
    requires Lists(out, RatedAll(Group(rows, NameOf, AddLatency)), NameOf) && i < |out| && out[i].lifetime <= 0
    ensures var own := Own(rows, NameOf, out[i].name); own != [] && out[i].errorRate == own[0].errorRate
  {
    ListedRow(rows, out, i);
    FirstRate(Own(rows, NameOf, out[i].name));
  }
}
