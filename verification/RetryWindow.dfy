/** Retry loops in a transcript: a tool is flagged when each of the last three turns that called any
    tool called it. */
module RetryWindow {
  import opened Numbers
  import opened Sequences

  const WINDOW := 3

  /** How many turns of the window call `tool`. */
  function TurnsCalling(window: seq<seq<string>>, tool: string): nat {
    if window == [] then 0
    else TurnsCalling(window[..|window| - 1], tool) + if tool in window[|window| - 1] then 1 else 0
  }

  lemma {:induction false} AllCall(window: seq<seq<string>>, tool: string)
    ensures TurnsCalling(window, tool) <= |window|
    ensures TurnsCalling(window, tool) == |window| <==> forall turn :: turn in window ==> tool in turn
  {
    if window != [] {
      var n := |window| - 1;
      AllCall(window[..n], tool);
      assert window == window[..n] + [window[n]];
    }
  }

  /** Count each tool once a turn. */
  method CountTurn(counts: map<string, nat>, turn: seq<string>) returns (next: map<string, nat>)
    ensures next.Keys == counts.Keys + (set t | t in turn)
    ensures forall t :: Lookup(next, t) == Lookup(counts, t) + if t in turn then 1 else 0
  {
    next := counts;
    var seen: set<string> := {};
    for i := 0 to |turn|
      invariant seen == set t | t in turn[..i]
      invariant next.Keys == counts.Keys + seen
      invariant forall t :: Lookup(next, t) == Lookup(counts, t) + if t in seen then 1 else 0
    {
      var t := turn[i];
      assert turn[..i + 1] == turn[..i] + [t];
      if t !in seen {
        next := next[t := Lookup(next, t) + 1];
        seen := seen + {t};
      }
    }
    assert turn[..|turn|] == turn;
  }

  /** The tools that every turn of a full window calls; nothing while the window is not full. */
  method LoopsIn(window: seq<seq<string>>) returns (tools: set<string>)
    ensures |window| != WINDOW ==> tools == {}
    ensures |window| == WINDOW ==> forall t :: t in tools <==> forall turn :: turn in window ==> t in turn
  {
    if |window| != WINDOW {
      return {};
    }
    var counts: map<string, nat> := map[];
    for i := 0 to |window|
      invariant forall t :: Lookup(counts, t) == TurnsCalling(window[..i], t)
    {
      assert window[..i + 1][..i] == window[..i];
      counts := CountTurn(counts, window[i]);
    }
    assert window[..|window|] == window;
    tools := set t | t in counts && counts[t] >= WINDOW;
    forall t
      ensures t in tools <==> forall turn :: turn in window ==> t in turn
    {
      AllCall(window, t);
    }
  }

  predicate CallsATool(turn: seq<string>) {
    turn != []
  }

  /** The turns that call a tool. */
  function Calling(turns: seq<seq<string>>): seq<seq<string>> {
    Filter(turns, CallsATool)
  }

  /** A turn without tools is passed over; every other joins the list as it is. */
  lemma CallingExactly(turns: seq<seq<string>>, turn: seq<string>)
    ensures Calling([]) == []
    ensures Calling(turns + [turn]) == if turn == [] then Calling(turns) else Calling(turns) + [turn]
  {
    FilterAppend(turns, turn, CallsATool);
  }

  /** The last turns of the list, as many as the window holds. */
  function Recent(calling: seq<seq<string>>): seq<seq<string>> {
    calling[if |calling| > WINDOW then |calling| - WINDOW else 0..]
  }

  function Advance(window: seq<seq<string>>, turn: seq<string>): seq<seq<string>> {
    var longer := window + [turn];
    if |longer| > WINDOW then longer[1..] else longer
  }

  lemma AdvanceIsRecent(calling: seq<seq<string>>, turn: seq<string>)
    ensures Advance(Recent(calling), turn) == Recent(calling + [turn])
  {
  }

  /** The tools that turn `j` and the two calling turns before it all called; none before the third. */
  ghost predicate IsLoopSet(calling: seq<seq<string>>, j: nat, tools: set<string>)
    requires j < |calling|
  {
    forall t :: t in tools <==> j >= 2 && t in calling[j - 2] && t in calling[j - 1] && t in calling[j]
  }

  ghost predicate AreLoopSets(calling: seq<seq<string>>, flags: seq<set<string>>) {
    |flags| == |calling| && forall j :: 0 <= j < |flags| ==> IsLoopSet(calling, j, flags[j])
  }

  /** The tools that every turn of a full window calls. */
  ghost predicate LoopsOf(window: seq<seq<string>>, tools: set<string>) {
    && (|window| != WINDOW ==> tools == {})
    && (|window| == WINDOW ==> forall t :: t in tools <==> forall turn :: turn in window ==> t in turn)
  }

  lemma WindowMeaning(calling: seq<seq<string>>, tools: set<string>)
    requires calling != [] && LoopsOf(Recent(calling), tools)
    ensures IsLoopSet(calling, |calling| - 1, tools)
  {
    var window := Recent(calling);
    if |window| == WINDOW {
      var n := |calling|;
      assert window[0] == calling[n - 3] && window[1] == calling[n - 2] && window[2] == calling[n - 1];
      assert window == [window[0], window[1], window[2]];
    }
  }

  lemma MoreFlags(calling: seq<seq<string>>, turn: seq<string>, flags: seq<set<string>>, tools: set<string>)
    requires AreLoopSets(calling, flags) && IsLoopSet(calling + [turn], |calling|, tools)
    ensures AreLoopSets(calling + [turn], flags + [tools])
  {
    forall j | 0 <= j < |flags|
      ensures IsLoopSet(calling + [turn], j, (flags + [tools])[j])
    {
      assert IsLoopSet(calling, j, flags[j]);
    }
  }

  /** Slide the window over one more turn, and report the tools that loop in it. */
  method AdvanceRetryWindow(window: seq<seq<string>>, turn: seq<string>)
    returns (next: seq<seq<string>>, tools: set<string>)
    ensures next == Advance(window, turn) && LoopsOf(next, tools)
  {
    next := window + [turn];
    if |next| > WINDOW {
      next := next[1..];
    }
    tools := LoopsIn(next);
  }

  lemma TurnAdded(calling: seq<seq<string>>, turn: seq<string>, flags: seq<set<string>>, tools: set<string>)
    requires AreLoopSets(calling, flags) && LoopsOf(Advance(Recent(calling), turn), tools)
    ensures AreLoopSets(calling + [turn], flags + [tools])
    ensures Advance(Recent(calling), turn) == Recent(calling + [turn])
  {
    AdvanceIsRecent(calling, turn);
    WindowMeaning(calling + [turn], tools);
    MoreFlags(calling, turn, flags, tools);
  }

  /** `flags[j]` is what the turn numbered `j`, among those that called any tool, added to the report. */
  method ParseTranscript(turns: seq<seq<string>>) returns (flags: seq<set<string>>)
    ensures AreLoopSets(Calling(turns), flags)
  {
    flags := [];
    var window: seq<seq<string>> := [];
    for i := 0 to |turns|
      invariant window == Recent(Calling(turns[..i]))
      invariant AreLoopSets(Calling(turns[..i]), flags)
    {
      FilterNext(turns, i, CallsATool);
      if |turns[i]| > 0 {
        var tools;
        window, tools := AdvanceRetryWindow(window, turns[i]);
        TurnAdded(Calling(turns[..i]), turns[i], flags, tools);
        flags := flags + [tools];
      }
    }
    assert turns[..|turns|] == turns;
  }
}
