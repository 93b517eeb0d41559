/** Reciprocal rank fusion of incident searches: one local list and one text answer a member. */
module RankFusion {
  import opened Numbers
  import opened Grouping
  import opened Sequences

  const RRF_K := 60

  function Weight(rank: nat): real {
    1.0 / ((RRF_K + rank + 1) as real)
  }

  // ---------- incident ids in a member's answer ----------

  const ID_LENGTH := 19

  /** "INC-", eight digits, "-", six digits. */
  predicate IdAt(s: string, i: nat) {
    && i + ID_LENGTH <= |s|
    && s[i..i + 4] == "INC-" && s[i + 12] == '-'
    && (forall k :: i + 4 <= k < i + 12 ==> IsDigit(s[k]))
    && (forall k :: i + 13 <= k < i + 19 ==> IsDigit(s[k]))
  }

  /** All non-overlapping ids, from left to right. */
  function FindAll(s: string, i: nat): seq<string>
    decreases |s| - i
  {
    if i >= |s| then []
    else if IdAt(s, i) then [s[i..i + ID_LENGTH]] + FindAll(s, i + ID_LENGTH)
    else FindAll(s, i + 1)
  }

  datatype Member = Member(failed: bool, text: string)

  /** The ids that a member contributes, each at its first occurrence. */
  function Ballot(m: Member): seq<string> {
    if m.failed || m.text == "" then [] else Distinct(FindAll(m.text, 0))
  }

  function Distinct(ids: seq<string>): seq<string> {
    if ids == [] then []
    else
      var d := Distinct(ids[..|ids| - 1]);
      if ids[|ids| - 1] in d then d else d + [ids[|ids| - 1]]
  }

  lemma {:induction false} DistinctIsDistinct(ids: seq<string>)
    ensures forall i, j :: 0 <= i < j < |Distinct(ids)| ==> Distinct(ids)[i] != Distinct(ids)[j]
    ensures forall x :: x in Distinct(ids) <==> x in ids
  {
    if ids != [] {
      var n := |ids| - 1;
      DistinctIsDistinct(ids[..n]);
      assert ids == ids[..n] + [ids[n]];
    }
  }

  // ---------- votes ----------

  datatype Vote = Vote(id: string, score: real)

  function IdOf(v: Vote): string { v.id }
  function ScoreOf(v: Vote): real { v.score }
  function Add(a: Vote, b: Vote): Vote { Vote(a.id, a.score + b.score) }

  function Votes(ids: seq<string>): seq<Vote> {
    if ids == [] then [] else Votes(ids[..|ids| - 1]) + [Vote(ids[|ids| - 1], Weight(|ids| - 1))]
  }

  function MemberVotes(scatter: seq<Member>): seq<Vote> {
    if scatter == [] then [] else MemberVotes(scatter[..|scatter| - 1]) + Votes(Ballot(scatter[|scatter| - 1]))
  }

  method BuildIncidentRRFMap(local: seq<string>, scatter: seq<Member>) returns (byID: map<string, Vote>)
    ensures byID == Fused(local, scatter)
  {
    byID := AddLocal(local);
    ghost var cast := Votes(local);
    for i := 0 to |scatter|
      invariant cast == Votes(local) + MemberVotes(scatter[..i])
      invariant byID == Group(cast, IdOf, Add)
    {
      var mem := scatter[i];
      NextMember(local, scatter, i);
      if mem.failed || mem.text == "" {
        continue;
      }
      var ids := FindAll(mem.text, 0);
      byID := AddMember(byID, ids, cast);
      cast := cast + Votes(Distinct(ids));
    }
    assert scatter[..|scatter|] == scatter;
  }

  lemma MoreVotes(scatter: seq<Member>, m: Member)
    ensures MemberVotes(scatter + [m]) == MemberVotes(scatter) + Votes(Ballot(m))
  {
    assert (scatter + [m])[..|scatter|] == scatter;
  }

  lemma JoinVotes(a: seq<Vote>, b: seq<Vote>, c: seq<Vote>)
    ensures a + (b + c) == (a + b) + c
    ensures c == [] ==> a + (b + c) == a + b
  {
  }

  lemma NextMember(local: seq<string>, scatter: seq<Member>, i: nat)
    requires i < |scatter|
    ensures Votes(local) + MemberVotes(scatter[..i + 1]) ==
            Votes(local) + MemberVotes(scatter[..i]) + Votes(Ballot(scatter[i]))
    ensures Ballot(scatter[i]) == [] ==>
              Votes(local) + MemberVotes(scatter[..i + 1]) == Votes(local) + MemberVotes(scatter[..i])
  {
    assert scatter[..i + 1] == scatter[..i] + [scatter[i]];
    MoreVotes(scatter[..i], scatter[i]);
    JoinVotes(Votes(local), MemberVotes(scatter[..i]), Votes(Ballot(scatter[i])));
  }

  /** The outer loop over the local list: every position counts, repeated or not. */
  method AddLocal(local: seq<string>) returns (byID: map<string, Vote>)
    ensures byID == Group(Votes(local), IdOf, Add)
  {
    byID := map[];
    for rank := 0 to |local|
      invariant byID == Group(Votes(local[..rank]), IdOf, Add)
    {
      assert local[..rank + 1][..rank] == local[..rank];
      GroupAppend(Votes(local[..rank]), Vote(local[rank], Weight(rank)), IdOf, Add);
      byID := Put(byID, Vote(local[rank], Weight(rank)), IdOf, Add);
    }
    assert local[..|local|] == local;
  }

  /** One more id of a member: one that was seen changes nothing, another gets the next rank. */
  lemma NextId(cast: seq<Vote>, ids: seq<string>, i: nat)
    requires i < |ids|
    ensures var d, next := Distinct(ids[..i]), Distinct(ids[..i + 1]);
            if ids[i] in d then next == d
            else
              && next == d + [ids[i]]
              && Group(cast + Votes(next), IdOf, Add) ==
                 Put(Group(cast + Votes(d), IdOf, Add), Vote(ids[i], Weight(|d|)), IdOf, Add)
  {
    assert ids[..i + 1][..i] == ids[..i];
    var d, id := Distinct(ids[..i]), ids[i];
    assert (d + [id])[..|d|] == d;
    assert cast + Votes(d + [id]) == cast + Votes(d) + [Vote(id, Weight(|d|))];
    GroupAppend(cast + Votes(d), Vote(id, Weight(|d|)), IdOf, Add);
  }

  /** The inner loop, which skips the ids it has seen and ranks only the others. */
  method AddMember(before: map<string, Vote>, ids: seq<string>, ghost cast: seq<Vote>) returns (byID: map<string, Vote>)
    requires before == Group(cast, IdOf, Add)
    ensures byID == Group(cast + Votes(Distinct(ids)), IdOf, Add)
  {
    byID := before;
    var seen: set<string> := {};
    var rank := 0;
    assert cast + Votes([]) == cast;
    for i := 0 to |ids|
      invariant forall x :: x in seen <==> x in Distinct(ids[..i])
      invariant rank == |Distinct(ids[..i])|
      invariant byID == Group(cast + Votes(Distinct(ids[..i])), IdOf, Add)
    {
      NextId(cast, ids, i);
      var id := ids[i];
      if id in seen {
        continue;
      }
      seen := seen + {id};
      byID := Put(byID, Vote(id, Weight(rank)), IdOf, Add);
      rank := rank + 1;
    }
    assert ids[..|ids|] == ids;
  }

  // ---------- what the scores are ----------

  /** The weights of the positions at which `id` stands. */
  function RankSum(ids: seq<string>, id: string): real {
    if ids == [] then 0.0
    else RankSum(ids[..|ids| - 1], id) + if ids[|ids| - 1] == id then Weight(|ids| - 1) else 0.0
  }

  /** In a list without repetitions that is the weight of one rank. */
  lemma {:induction false} RankSumOfDistinct(ids: seq<string>, id: string)
    requires forall i, j :: 0 <= i < j < |ids| ==> ids[i] != ids[j]
    ensures id !in ids ==> RankSum(ids, id) == 0.0
    ensures forall r :: 0 <= r < |ids| && ids[r] == id ==> RankSum(ids, id) == Weight(r)
  {
    if ids != [] {
      var n := |ids| - 1;
      RankSumOfDistinct(ids[..n], id);
      assert ids == ids[..n] + [ids[n]];
    }
  }

  // ---------- which ids a text holds ----------

  lemma IdParts(s: string, i: nat)
    requires IdAt(s, i)
    ensures AllDigits(s[i + 4..i + 12]) && AllDigits(s[i + 13..i + 19])
    ensures s[i..i + 19] == "INC-" + s[i + 4..i + 12] + "-" + s[i + 13..i + 19]
  {
    assert s[i..i + 19] == s[i..i + 4] + s[i + 4..i + 12] + [s[i + 12]] + s[i + 13..i + 19];
  }

  lemma PartsMakeId(s: string, i: nat, day: string, time: string)
    requires |day| == 8 && |time| == 6 && AllDigits(day) && AllDigits(time)
    requires i + 19 <= |s| && s[i..i + 19] == "INC-" + day + "-" + time
    ensures IdAt(s, i)
  {
    var id := s[i..i + 19];
    assert s[i..i + 4] == id[..4] == "INC-";
    assert forall k :: 0 <= k < 19 ==> s[i + k] == id[k];
    assert forall k :: i + 4 <= k < i + 12 ==> s[k] == id[k - i] == day[k - i - 4];
    assert forall k :: i + 13 <= k < i + 19 ==> s[k] == id[k - i] == time[k - i - 13];
  }

  /** An id is these nineteen characters. */
  lemma IdShape(s: string, i: nat)
    ensures IdAt(s, i) <==>
            i + 19 <= |s| && exists day, time :: |day| == 8 && |time| == 6 && AllDigits(day) && AllDigits(time)
                                                 && s[i..i + 19] == "INC-" + day + "-" + time
  {
    if IdAt(s, i) { IdParts(s, i); }
    if i + 19 <= |s| {
      if day, time :| |day| == 8 && |time| == 6 && AllDigits(day) && AllDigits(time)
                      && s[i..i + 19] == "INC-" + day + "-" + time {
        PartsMakeId(s, i, day, time);
      }
    }
  }

  /** Two ids cannot overlap: an 'I' is neither a digit nor any later letter of an id. */
  lemma IdsDoNotOverlap(s: string, i: nat, j: nat)
    requires IdAt(s, i) && IdAt(s, j) && i < j
    ensures i + ID_LENGTH <= j
  {
    assert s[j] == s[j..j + 4][0] == 'I';
    assert s[i + 1] == s[i..i + 4][1] && s[i + 2] == s[i..i + 4][2] && s[i + 3] == s[i..i + 4][3];
  }

  /** Every position from `i` on at which an id starts, each position tried. */
  function IdPositions(s: string, i: nat): seq<nat>
    decreases |s| - i
  {
    if i >= |s| then []
    else if IdAt(s, i) then [i] + IdPositions(s, i + 1)
    else IdPositions(s, i + 1)
  }

  lemma {:induction false} PositionsAscend(s: string, i: nat)
    ensures forall k :: 0 <= k < |IdPositions(s, i)| ==> i <= IdPositions(s, i)[k]
    ensures forall p: nat :: i <= p && IdAt(s, p) ==> p in IdPositions(s, i)
    ensures forall a, b :: 0 <= a < b < |IdPositions(s, i)| ==> IdPositions(s, i)[a] < IdPositions(s, i)[b]
    decreases |s| - i
  {
    if i < |s| {
      PositionsAscend(s, i + 1);
      var rest := IdPositions(s, i + 1);
      if IdAt(s, i) {
        assert IdPositions(s, i) == [i] + rest;
        forall p: nat | i <= p && IdAt(s, p)
          ensures p in [i] + rest
        {
          assert p > i ==> p in rest;
        }
      }
    }
  }

  lemma {:induction false} SkipTo(s: string, i: nat, j: nat)
    requires i <= j && forall p: nat :: i <= p < j ==> !IdAt(s, p)
    ensures IdPositions(s, i) == IdPositions(s, j)
    decreases j - i
  {
    if i < j && i < |s| { SkipTo(s, i + 1, j); }
  }

  /** The text holds `id` at position `p`. */
  predicate Holds(s: string, p: nat, id: string) {
    IdAt(s, p) && s[p..p + 19] == id
  }

  /** `ids` are the ids that stand at the positions `ps`, and these are all there are, in ascending order. */
  ghost predicate Scanned(s: string, ids: seq<string>, ps: seq<nat>) {
    && |ids| == |ps|
    && (forall k :: 0 <= k < |ps| ==> Holds(s, ps[k], ids[k]))
    && (forall a, b :: 0 <= a < b < |ps| ==> ps[a] < ps[b])
    && (forall p: nat :: IdAt(s, p) ==> p in ps)
  }

  lemma {:induction false} FindsAtPositions(s: string, i: nat)
    ensures |FindAll(s, i)| == |IdPositions(s, i)|
    ensures forall k :: 0 <= k < |FindAll(s, i)| ==> Holds(s, IdPositions(s, i)[k], FindAll(s, i)[k])
    decreases |s| - i
  {
    if i < |s| {
      if IdAt(s, i) {
        forall p: nat | i + 1 <= p < i + ID_LENGTH
          ensures !IdAt(s, p)
        {
          if IdAt(s, p) { IdsDoNotOverlap(s, i, p); }
        }
        SkipTo(s, i + 1, i + ID_LENGTH);
        FindsAtPositions(s, i + ID_LENGTH);
      } else {
        FindsAtPositions(s, i + 1);
      }
    }
  }

  /** The search, which goes on after the end of an id, misses none of them. */
  lemma NoneIsMissed(s: string)
    ensures Scanned(s, FindAll(s, 0), IdPositions(s, 0))
  {
    FindsAtPositions(s, 0);
    PositionsAscend(s, 0);
  }

  lemma ScannedExactly(s: string, ids: seq<string>, ps: seq<nat>, id: string)
    requires Scanned(s, ids, ps)
    ensures id in ids <==> exists p: nat :: Holds(s, p, id)
  {
    if id in ids {
      var k :| 0 <= k < |ids| && ids[k] == id;
      assert Holds(s, ps[k], id);
    }
    if p: nat :| Holds(s, p, id) {
      var k :| 0 <= k < |ps| && ps[k] == p;
      assert ids[k] == id;
    }
  }

  /** An id is found if and only if the text holds it somewhere. */
  lemma FoundExactly(s: string, id: string)
    ensures id in FindAll(s, 0) <==> exists p: nat :: Holds(s, p, id)
  {
    NoneIsMissed(s);
    ScannedExactly(s, FindAll(s, 0), IdPositions(s, 0), id);
  }

  // ---------- ranks ----------

  ghost function SetOf(ids: seq<string>): set<string> {
    set x | x in ids
  }

  lemma {:induction false} DistinctCounts(ids: seq<string>)
    ensures |Distinct(ids)| == |SetOf(ids)|
  {
    if ids == [] {
      assert SetOf(ids) == {};
    } else {
      var prev, last := ids[..|ids| - 1], ids[|ids| - 1];
      assert ids == prev + [last];
      DistinctCounts(prev);
      DistinctIsDistinct(prev);
      assert SetOf(ids) == SetOf(prev) + {last};
      if last in prev {
        assert last in Distinct(prev) && SetOf(ids) == SetOf(prev);
      } else {
        assert last !in Distinct(prev) && last !in SetOf(prev);
        assert |SetOf(prev) + {last}| == |SetOf(prev)| + 1;
      }
    }
  }

  /** What is kept of a prefix is kept first. */
  lemma {:induction false} DistinctPrefix(ids: seq<string>, r: nat)
    requires r <= |ids|
    ensures Distinct(ids[..r]) <= Distinct(ids)
  {
    if r == |ids| {
      assert ids[..r] == ids;
    } else {
      var prev := ids[..|ids| - 1];
      assert prev[..r] == ids[..r];
      DistinctPrefix(prev, r);
    }
  }

  /** A first occurrence is ranked by the number of different ids before it. */
  lemma DistinctRank(ids: seq<string>, r: nat)
    requires r < |ids| && ids[r] !in ids[..r]
    ensures |SetOf(ids[..r])| < |Distinct(ids)| && Distinct(ids)[|SetOf(ids[..r])|] == ids[r]
  {
    DistinctCounts(ids[..r]);
    DistinctIsDistinct(ids[..r]);
    DistinctPrefix(ids, r + 1);
    assert ids[..r + 1][..r] == ids[..r];
  }

  /** The ids that the text holds before position `p`. */
  ghost function IdsBefore(s: string, p: nat): set<string> {
    set q: nat | q < p && IdAt(s, q) :: s[q..q + 19]
  }

  lemma InIdsBefore(s: string, p: nat, id: string)
    ensures id in IdsBefore(s, p) <==> exists q: nat :: q < p && Holds(s, q, id)
  {
    if q: nat :| q < p && Holds(s, q, id) { assert s[q..q + 19] == id; }
    if id in IdsBefore(s, p) {
      var q: nat :| q < p && IdAt(s, q) && s[q..q + 19] == id;
      assert Holds(s, q, id);
    }
  }

  lemma PrefixHolds(s: string, ids: seq<string>, ps: seq<nat>, r: nat, id: string)
    requires Scanned(s, ids, ps) && r < |ps|
    ensures id in ids[..r] <==> exists q: nat :: q < ps[r] && Holds(s, q, id)
  {
    if id in ids[..r] {
      var k :| 0 <= k < r && ids[..r][k] == id;
      assert ps[k] < ps[r] && Holds(s, ps[k], id);
    }
    if q: nat :| q < ps[r] && Holds(s, q, id) {
      var k :| 0 <= k < |ps| && ps[k] == q;
      assert k < r && ids[..r][k] == ids[k] == id;
    }
  }

  lemma PrefixIsBefore(s: string, ids: seq<string>, ps: seq<nat>, r: nat)
    requires Scanned(s, ids, ps) && r < |ps|
    ensures SetOf(ids[..r]) == IdsBefore(s, ps[r])
  {
    forall x
      ensures x in SetOf(ids[..r]) <==> x in IdsBefore(s, ps[r])
    {
      PrefixHolds(s, ids, ps, r, x);
      InIdsBefore(s, ps[r], x);
    }
  }

  /** The text holds `id` at `p` and nowhere before. */
  ghost predicate FirstHolds(s: string, p: nat, id: string) {
    Holds(s, p, id) && id !in IdsBefore(s, p)
  }

  /** An id that the text holds, it holds somewhere first. */
  lemma {:induction false} HeldFirst(s: string, p: nat, id: string) returns (first: nat)
    requires Holds(s, p, id)
    ensures first <= p && FirstHolds(s, first, id)
    decreases p
  {
    first := p;
    InIdsBefore(s, p, id);
    if q: nat :| q < p && Holds(s, q, id) { first := HeldFirst(s, q, id); }
  }

  lemma ScannedRank(s: string, ids: seq<string>, ps: seq<nat>, p: nat, id: string)
    requires Scanned(s, ids, ps) && FirstHolds(s, p, id)
    ensures var rank := |IdsBefore(s, p)|; rank < |Distinct(ids)| && Distinct(ids)[rank] == id
  {
    var r :| 0 <= r < |ps| && ps[r] == p;
    PrefixIsBefore(s, ids, ps, r);
    assert ids[r] == id && id !in SetOf(ids[..r]);
    DistinctRank(ids, r);
  }

  /** A usable member ranks an id by the number of different ids that start before it in the text. */
  lemma MemberRank(m: Member, p: nat, id: string)
    requires !m.failed && FirstHolds(m.text, p, id)
    ensures RankSum(Ballot(m), id) == Weight(|IdsBefore(m.text, p)|)
  {
    var ids := FindAll(m.text, 0);
    NoneIsMissed(m.text);
    ScannedRank(m.text, ids, IdPositions(m.text, 0), p, id);
    DistinctIsDistinct(ids);
    RankSumOfDistinct(Distinct(ids), id);
  }

  /** A failed member, and one whose text does not hold the id, gives it nothing. */
  lemma NotRanked(m: Member, id: string)
    requires m.failed || forall p: nat :: !Holds(m.text, p, id)
    ensures RankSum(Ballot(m), id) == 0.0
  {
    FoundExactly(m.text, id);
    DistinctIsDistinct(FindAll(m.text, 0));
    DistinctIsDistinct(Ballot(m));
    RankSumOfDistinct(Ballot(m), id);
  }

  /** The weight of a rank is one over sixty-one more. */
  lemma WeightExactly(rank: nat)
    ensures Weight(rank) * (61 + rank) as real == 1.0
  {
  }

  // ---------- which ids have a score ----------

  lemma OwnConcat(a: seq<Vote>, b: seq<Vote>, id: string)
    ensures Own(a + b, IdOf, id) == Own(a, IdOf, id) + Own(b, IdOf, id)
  {
    FilterConcat(a, b, HasKey(IdOf, id));
  }

  lemma OwnSumConcat(a: seq<Vote>, b: seq<Vote>, id: string)
    ensures Sum(Own(a + b, IdOf, id), ScoreOf) == Sum(Own(a, IdOf, id), ScoreOf) + Sum(Own(b, IdOf, id), ScoreOf)
  {
    OwnConcat(a, b, id);
    SumConcat(Own(a, IdOf, id), Own(b, IdOf, id), ScoreOf);
  }

  lemma OwnSnoc(vs: seq<Vote>, v: Vote, id: string)
    ensures Own(vs + [v], IdOf, id) == if v.id == id then Own(vs, IdOf, id) + [v] else Own(vs, IdOf, id)
    ensures Sum(Own(vs + [v], IdOf, id), ScoreOf) ==
            Sum(Own(vs, IdOf, id), ScoreOf) + if v.id == id then v.score else 0.0
  {
    FilterAppend(vs, v, HasKey(IdOf, id));
    SumAppend(Own(vs, IdOf, id), v, ScoreOf);
  }

  lemma {:induction false} OwnVotes(ids: seq<string>, id: string)
    ensures Sum(Own(Votes(ids), IdOf, id), ScoreOf) == RankSum(ids, id)
    ensures Own(Votes(ids), IdOf, id) != [] <==> id in ids
  {
    if ids != [] {
      var n := |ids| - 1;
      OwnVotes(ids[..n], id);
      OwnSnoc(Votes(ids[..n]), Vote(ids[n], Weight(n)), id);
      assert id in ids <==> id in ids[..n] || id == ids[n];
    }
  }

  lemma {:induction false} OwnMemberVotes(scatter: seq<Member>, id: string, f: Member -> real)
    requires forall m :: m in scatter ==> f(m) == RankSum(Ballot(m), id)
    ensures Sum(Own(MemberVotes(scatter), IdOf, id), ScoreOf) == Sum(scatter, f)
  {
    if scatter != [] {
      var n := |scatter| - 1;
      OwnMemberVotes(scatter[..n], id, f);
      OwnVotes(Ballot(scatter[n]), id);
      OwnSumConcat(MemberVotes(scatter[..n]), Votes(Ballot(scatter[n])), id);
    }
  }

  ghost predicate Listed(scatter: seq<Member>, id: string) {
    exists i :: 0 <= i < |scatter| && id in Ballot(scatter[i])
  }

  /** An id is listed if and only if the text of some member that did not fail holds it. */
  lemma ListedExactly(scatter: seq<Member>, id: string)
    ensures Listed(scatter, id) <==>
            exists i, p: nat :: 0 <= i < |scatter| && !scatter[i].failed && Holds(scatter[i].text, p, id)
  {
    forall m: Member
      ensures id in Ballot(m) <==> !m.failed && exists p: nat :: Holds(m.text, p, id)
    {
      FoundExactly(m.text, id);
      DistinctIsDistinct(FindAll(m.text, 0));
    }
  }

  lemma ListedSnoc(scatter: seq<Member>, m: Member, id: string)
    ensures Listed(scatter + [m], id) <==> Listed(scatter, id) || id in Ballot(m)
  {
    var all := scatter + [m];
    if i :| 0 <= i < |scatter| && id in Ballot(scatter[i]) {
      assert id in Ballot(all[i]);
    }
    if id in Ballot(m) {
      assert id in Ballot(all[|scatter|]);
    }
  }

  lemma VotedSnoc(vs: seq<Vote>, ids: seq<string>, id: string)
    ensures Own(vs + Votes(ids), IdOf, id) != [] <==> Own(vs, IdOf, id) != [] || id in ids
  {
    OwnVotes(ids, id);
    OwnConcat(vs, Votes(ids), id);
  }

  /** The members that list an id are those whose votes name it. */
  lemma {:induction false} MemberVoted(scatter: seq<Member>, id: string)
    ensures Own(MemberVotes(scatter), IdOf, id) != [] <==> Listed(scatter, id)
  {
    if scatter != [] {
      var prev, last := scatter[..|scatter| - 1], scatter[|scatter| - 1];
      assert scatter == prev + [last];
      MemberVoted(prev, id);
      ListedSnoc(prev, last, id);
      MoreVotes(prev, last);
      VotedSnoc(MemberVotes(prev), Ballot(last), id);
    }
  }

  lemma AddIsAdditive()
    ensures Additive(ScoreOf, Add)
  {
  }

  ghost function Fused(local: seq<string>, scatter: seq<Member>): map<string, Vote> {
    Group(Votes(local) + MemberVotes(scatter), IdOf, Add)
  }

  ghost function MemberScore(id: string): Member -> real {
    m => RankSum(Ballot(m), id)
  }

  /** An id's score is the sum of its weights: one for each local position, and one for its
      first-occurrence rank in each usable member list. Only listed ids have a score. */
  lemma FusedScore(local: seq<string>, scatter: seq<Member>, id: string)
    ensures id in Fused(local, scatter) <==> id in local || Listed(scatter, id)
    ensures id in Fused(local, scatter) ==>
              Fused(local, scatter)[id].score == RankSum(local, id) + Sum(scatter, MemberScore(id))
  {
    var a, b := Votes(local), MemberVotes(scatter);
    GroupIsMerge(a + b, IdOf, Add, id);
    OwnVotes(local, id);
    OwnMemberVotes(scatter, id, MemberScore(id));
    MemberVoted(scatter, id);
    OwnConcat(a, b, id);
    OwnSumConcat(a, b, id);
    AddIsAdditive();
    if id in Fused(local, scatter) {
      MergeAddsUp(Own(a + b, IdOf, id), Add, ScoreOf);
    }
  }

  lemma ListedReordered(a: seq<Member>, b: seq<Member>, id: string)
    requires multiset(a) == multiset(b) && Listed(a, id)
    ensures Listed(b, id)
  {
    var i :| 0 <= i < |a| && id in Ballot(a[i]);
    assert a[i] in multiset(b);
    var j :| 0 <= j < |b| && b[j] == a[i];
  }

  /** The scores do not depend on the order in which members answer. */
  lemma MemberOrderIrrelevant(local: seq<string>, scatter: seq<Member>, shuffled: seq<Member>, id: string)
    requires multiset(scatter) == multiset(shuffled)
    ensures id in Fused(local, scatter) <==> id in Fused(local, shuffled)
    ensures id in Fused(local, scatter) ==> Fused(local, scatter)[id].score == Fused(local, shuffled)[id].score
  {
    FusedScore(local, scatter, id);
    FusedScore(local, shuffled, id);
    SumReordered(scatter, shuffled, MemberScore(id));
    if Listed(scatter, id) { ListedReordered(scatter, shuffled, id); }
    if Listed(shuffled, id) { ListedReordered(shuffled, scatter, id); }
  }

  /** The weights of the first `n` ranks. */
  function Harmonic(n: nat): real {
    if n == 0 then 0.0 else Harmonic(n - 1) + Weight(n - 1)
  }

  lemma {:induction false} VotesSum(ids: seq<string>)
    ensures Sum(Votes(ids), ScoreOf) == Harmonic(|ids|)
  {
    if ids != [] {
      VotesSum(ids[..|ids| - 1]);
      SumAppend(Votes(ids[..|ids| - 1]), Vote(ids[|ids| - 1], Weight(|ids| - 1)), ScoreOf);
    }
  }

  lemma {:induction false} MemberVotesSum(scatter: seq<Member>, f: Member -> real)
    requires forall m :: m in scatter ==> f(m) == Harmonic(|Ballot(m)|)
    ensures Sum(MemberVotes(scatter), ScoreOf) == Sum(scatter, f)
  {
    if scatter != [] {
      var n := |scatter| - 1;
      MemberVotesSum(scatter[..n], f);
      VotesSum(Ballot(scatter[n]));
      SumConcat(MemberVotes(scatter[..n]), Votes(Ballot(scatter[n])), ScoreOf);
    }
  }

  /** No weight is lost or invented: all scores together are all the lists' weights together. */
  lemma ScoresConserve(local: seq<string>, scatter: seq<Member>, f: Member -> real)
    requires forall m :: f(m) == Harmonic(|Ballot(m)|)
    ensures Total(Fused(local, scatter), ScoreOf) == Harmonic(|local|) + Sum(scatter, f)
  {
    AddIsAdditive();
    GroupConserves(Votes(local) + MemberVotes(scatter), IdOf, Add, ScoreOf);
    SumConcat(Votes(local), MemberVotes(scatter), ScoreOf);
    VotesSum(local);
    MemberVotesSum(scatter, f);
  }
}
