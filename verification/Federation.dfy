/** Who holds a project's knowledge store, and who forwards to whom. Every member of a federation
    boots with the same coordinator setting: an absolute path, a base name, or nothing. */
module Federation {
  import opened Wrappers
  import opened Paths

  /** A registered workspace, whether it sits in the project, and whether the database opens for it
      once it has the lock. */
  datatype Member = Member(id: string, path: string, inProject: bool, dbOpens: bool)

  predicate IsCoordinator(workspace: string, coord: string) {
    coord == "" || workspace == coord || Base(workspace) == coord || Base(workspace) == Base(coord)
  }

  /** The three comparisons amount to one: only the base names matter, so a coordinator given as
      an absolute path also selects workspaces elsewhere that share its last component. */
  lemma CoordinatorByBase(workspace: string, coord: string)
    ensures IsCoordinator(workspace, coord) <==> coord == "" || Base(workspace) == Base(coord)
  {
    BaseIdempotent(workspace);
  }

  // ---------- boot ----------

  /** The first registered workspace that matches, as `resolveCoordinatorWSID` finds it. */
  function FirstMatch(reg: seq<Member>, coord: string): Option<Member> {
    if reg == [] then None
    else if reg[0].path == coord || Base(reg[0].path) == coord || Base(reg[0].path) == Base(coord) then Some(reg[0])
    else FirstMatch(reg[1..], coord)
  }

  /** `reg` is absent when the registry cannot be loaded; "" means no match. */
  method ResolveCoordinatorWSID(reg: Option<seq<Member>>, coord: string) returns (id: string)
    ensures id == ResolvedId(reg, coord)
  {
    if reg.None? {
      return "";
    }
    var coordBase := Base(coord);
    for i := 0 to |reg.value|
      invariant FirstMatch(reg.value, coord) == FirstMatch(reg.value[i..], coord)
    {
      var e := reg.value[i];
      if e.path == coord || Base(e.path) == coord || Base(e.path) == coordBase {
        return e.id;
      }
    }
    return "";
  }

  function ResolvedId(reg: Option<seq<Member>>, coord: string): string {
    if reg.None? || FirstMatch(reg.value, coord).None? then "" else FirstMatch(reg.value, coord).value.id
  }

  /** Whether a booting member tries to open a store at all. */
  predicate Attempts(m: Member, coord: string) {
    !m.inProject || coord == "" || IsCoordinator(m.path, coord)
  }

  /** The store a member would open: the members of the project share one, others have their own. */
  datatype Store = Shared | OwnStore(path: string)

  function StoreOf(m: Member): Store {
    if m.inProject then Shared else OwnStore(m.path)
  }

  /** The running processes that hold a store, and the stores whose lock file is locked. */
  datatype Holdings = Holdings(holders: set<Member>, locked: set<Store>)

  const NOBODY := Holdings({}, {})

  datatype Event = Boot(m: Member) | Exit(m: Member)

  function Happen(h: Holdings, coord: string, e: Event): Holdings {
    match e
    case Boot(m) =>
      if Attempts(m, coord) && StoreOf(m) !in h.locked && m.dbOpens
      then Holdings(h.holders + {m}, h.locked + {StoreOf(m)}) else h
    case Exit(m) =>
      if m in h.holders then Holdings(h.holders - {m}, h.locked - {StoreOf(m)}) else h
  }

  class LockFiles {
    var holders: set<Member>
    var locked: set<Store>

    function State(): Holdings
      reads this
    {
      Holdings(holders, locked)
    }

    constructor ()
      ensures State() == NOBODY
    {
      holders, locked := {}, {};
    }

    /** The lock is exclusive and given up again when the database does not open. */
    method BootKnowledgeStore(m: Member, coord: string) returns (holds: bool)
      modifies this
      ensures State() == Happen(old(State()), coord, Boot(m))
      ensures holds == (Attempts(m, coord) && StoreOf(m) !in old(locked) && m.dbOpens)
    {
      if m.inProject && coord != "" && !IsCoordinator(m.path, coord) {
        return false;
      }
      if StoreOf(m) in locked {
        return false;
      }
      locked := locked + {StoreOf(m)};
      if !m.dbOpens {
        locked := locked - {StoreOf(m)};
        return false;
      }
      holders := holders + {m};
      return true;
    }

    method Close(m: Member, ghost coord: string)
      modifies this
      ensures State() == Happen(old(State()), coord, Exit(m))
    {
      if m in holders {
        holders := holders - {m};
        locked := locked - {StoreOf(m)};
      }
    }
  }

  function ProxyTarget(m: Member, coord: string, reg: Option<seq<Member>>): string {
    if coord == "" || IsCoordinator(m.path, coord) then "" else ResolvedId(reg, coord)
  }

  lemma {:induction false} MatchIsCoordinator(reg: seq<Member>, coord: string)
    ensures FirstMatch(reg, coord).Some? ==>
              FirstMatch(reg, coord).value in reg && IsCoordinator(FirstMatch(reg, coord).value.path, coord)
    ensures FirstMatch(reg, coord).None? ==> forall m :: m in reg ==> !IsCoordinator(m.path, coord) || coord == ""
  {
    if reg != [] { MatchIsCoordinator(reg[1..], coord); }
  }

  lemma {:induction false} SkipOthers(reg: seq<Member>, coord: string, i: nat)
    requires i <= |reg| && forall j :: 0 <= j < i ==> Base(reg[j].path) != Base(coord)
    ensures FirstMatch(reg, coord) == FirstMatch(reg[i..], coord)
  {
    if i == 0 {
      assert reg[0..] == reg;
    } else {
      SkipOthers(reg, coord, i - 1);
      BaseIdempotent(reg[i - 1].path);
      assert reg[i - 1..][0] == reg[i - 1] && reg[i - 1..][1..] == reg[i..];
    }
  }

  /** The match is the first registered workspace with the coordinator's base name. */
  lemma FirstMatchExactly(reg: seq<Member>, coord: string, i: nat)
    requires i <= |reg| && forall j :: 0 <= j < i ==> Base(reg[j].path) != Base(coord)
    ensures i == |reg| ==> FirstMatch(reg, coord) == None
    ensures i < |reg| && Base(reg[i].path) == Base(coord) ==> FirstMatch(reg, coord) == Some(reg[i])
  {
    SkipOthers(reg, coord, i);
    if i < |reg| { assert reg[i..][0] == reg[i]; }
  }

  // ---------- requests ----------

  /** What one process does with a store, fetch, list, drop or search. */
  datatype Route = ToNexus | Forward(wsid: string) | ProjectStore | OrgStore | Refused

  /** The parts of a memory tool that routing looks at. */
  datatype Tool = Tool(hasStore: bool, proxyTarget: string, hasOrgStore: bool, orgWriteAllowed: bool)

  function Resolve(t: Tool, tier: string): Route {
    if tier == "" || tier == "project" || tier == "workspace" then (if t.hasStore then ProjectStore else Refused)
    else if tier == "org" then (if t.hasOrgStore && t.orgWriteAllowed then OrgStore else Refused)
    else Refused
  }

  function RouteOf(t: Tool, tier: string): Route {
    if tier == "nexus" then ToNexus
    else if !t.hasStore && t.proxyTarget != "" then Forward(t.proxyTarget)
    else Resolve(t, tier)
  }

  /** `t` is a tool that member `m` can boot with: it has a store only if the member tried to open
      one. The organisation tier is left open. */
  predicate BootedAs(t: Tool, m: Member, coord: string, reg: Option<seq<Member>>) {
    (t.hasStore ==> Attempts(m, coord)) && t.proxyTarget == ProxyTarget(m, coord, reg)
  }

  /** Where a request goes. To the nexus if and only if its tier is "nexus"; forwarded if and only if it
      has another tier, there is no store, and there is someone to forward to; to a store of its own only
      for that store's tiers. */
  lemma RouteExactly(t: Tool, tier: string, wsid: string)
    ensures var r, forwarded := RouteOf(t, tier), tier != "nexus" && !t.hasStore && t.proxyTarget != "";
            && (r == ToNexus <==> tier == "nexus")
            && (r == Forward(wsid) <==> forwarded && wsid == t.proxyTarget)
            && (r == ProjectStore <==> tier in {"", "project", "workspace"} && t.hasStore)
            && (r == OrgStore <==> tier == "org" && !forwarded && t.hasOrgStore && t.orgWriteAllowed)
  {
  }

  /** The same for the tool a member boots with, its settings in place of the tool's: a request is forwarded
      only by a member that is not a coordinator, and reaches the organisation store only in a process that
      holds it, may use it, and has its project store or no one to forward to. */
  lemma BootedRouteExactly(m: Member, coord: string, reg: Option<seq<Member>>, t: Tool, tier: string)
    requires BootedAs(t, m, coord, reg)
    ensures var r := RouteOf(t, tier);
            var forwards := !t.hasStore && coord != "" && Base(m.path) != Base(coord) && ResolvedId(reg, coord) != "";
            && (r == ToNexus <==> tier == "nexus")
            && (r.Forward? <==> tier != "nexus" && forwards)
            && (r.Forward? ==> r.wsid == ResolvedId(reg, coord))
            && (r == ProjectStore <==> tier in {"", "project", "workspace"} && t.hasStore)
            && (r == OrgStore <==> tier == "org" && !forwards && t.hasOrgStore && t.orgWriteAllowed)
  {
    CoordinatorByBase(m.path, coord);
    RouteExactly(t, tier, t.proxyTarget);
  }

  /** The arguments copied so far, those under `left` still to come. */
  ghost predicate Copied(action: string, args: map<string, string>, left: set<string>, out: map<string, string>) {
    && left <= args.Keys
    && (forall k :: k in out <==> k == "action" || (k in args && k !in left && k != "tier"))
    && (forall k :: k in args && k !in left && k != "tier" ==> out[k] == args[k])
    && ("action" !in args || "action" in left ==> out["action"] == action)
  }

  lemma CopyOne(action: string, args: map<string, string>, left: set<string>, out: map<string, string>, k: string)
    requires Copied(action, args, left, out) && k in left
    ensures Copied(action, args, left - {k}, if k == "tier" then out else out[k := args[k]])
  {
  }

  lemma CopiedAll(action: string, args: map<string, string>, out: map<string, string>)
    requires Copied(action, args, {}, out)
    ensures out.Keys + {"tier"} == args.Keys + {"action", "tier"}
    ensures "action" in out && out["action"] == if "action" in args then args["action"] else action
    ensures forall k :: k in args && k != "tier" ==> k in out && out[k] == args[k]
  {
  }

  /** The arguments sent to the coordinator: the caller's, with the tier forced to "project" and the
      action supplied if the caller's arguments do not hold it. */
  method ForwardArgs(action: string, args: map<string, string>) returns (out: map<string, string>)
    ensures out.Keys == args.Keys + {"action", "tier"}
    ensures out["tier"] == "project" && out["action"] == if "action" in args then args["action"] else action
    ensures forall k :: k in args && k != "tier" ==> out[k] == args[k]
  {
    out := map["action" := action];
    var left := args.Keys;
    while left != {}
      invariant Copied(action, args, left, out)
      decreases |left|
    {
      var k :| k in left;
      CopyOne(action, args, left, out, k);
      left := left - {k};
      if k != "tier" {
        out := out[k := args[k]];
      }
    }
    CopiedAll(action, args, out);
    out := out["tier" := "project"];
  }

  predicate UniqueIds(reg: seq<Member>) {
    forall i, j :: 0 <= i < |reg| && 0 <= j < |reg| && reg[i].id == reg[j].id ==> i == j
  }

  /** A forwarded request is never forwarded again: the member it reaches is a coordinator, has no
      one to forward to, and answers it from its own store if it holds one. */
  lemma ForwardedAtMostOnce(reg: seq<Member>, coord: string, m: Member, t: Tool, tier: string,
                            target: Member, u: Tool, tier': string)
    requires UniqueIds(reg) && target in reg
    requires BootedAs(t, m, coord, Some(reg)) && BootedAs(u, target, coord, Some(reg))
    requires RouteOf(t, tier) == Forward(target.id)
    ensures IsCoordinator(target.path, coord) && !RouteOf(u, tier').Forward?
    ensures RouteOf(u, "project") == if u.hasStore then ProjectStore else Refused
  {
    MatchIsCoordinator(reg, coord);
    var found := FirstMatch(reg, coord).value;
    assert found == target;
  }

  /** A member without a store can forward whenever some registered workspace with an id matches. */
  lemma SomeoneToForwardTo(reg: seq<Member>, coord: string, m: Member, t: Tool, tier: string)
    requires BootedAs(t, m, coord, Some(reg)) && m.inProject && !IsCoordinator(m.path, coord) && tier != "nexus"
    requires forall e :: e in reg ==> e.id != ""
    ensures RouteOf(t, tier).Forward? <==> exists e :: e in reg && IsCoordinator(e.path, coord)
  {
    MatchIsCoordinator(reg, coord);
  }

  /** Forwarding rewrites the tier, so the coordinator answers a forwarded request as it would have
      answered it directly exactly for the three project tiers, or when it refuses both. An "org"
      request lands in the project store, and a tier that every coordinator refuses is accepted. */
  lemma ForwardingIsTransparent(reg: seq<Member>, coord: string, m: Member, t: Tool, tier: string,
                                target: Member, u: Tool)
    requires UniqueIds(reg) && target in reg
    requires BootedAs(t, m, coord, Some(reg)) && BootedAs(u, target, coord, Some(reg))
    requires RouteOf(t, tier) == Forward(target.id)
    ensures RouteOf(u, "project") == RouteOf(u, tier) <==>
            tier in {"", "project", "workspace"} || (!u.hasStore && Resolve(u, tier) == Refused)
  {
    ForwardedAtMostOnce(reg, coord, m, t, tier, target, u, tier);
  }

  /** Such a case, for any two workspaces of one directory: an organisation request that the coordinator
      would have answered from the organisation store comes to its project store. */
  lemma OrgRequestRedirected(dir: string, core: string, web: string)
    requires core != web && core != "" && web != "" && '/' !in core && '/' !in web
    ensures var reg := [Member("c", dir + "/" + core, true, true), Member("w", dir + "/" + web, true, true)];
            var t, u := Tool(false, "c", false, false), Tool(true, "", true, true);
            && BootedAs(t, reg[1], core, Some(reg)) && BootedAs(u, reg[0], core, Some(reg))
            && RouteOf(t, "org") == Forward("c")
            && RouteOf(u, "org") == OrgStore && RouteOf(u, "project") == ProjectStore
  {
    LastComponent(dir, core);
    LastComponent(dir, web);
    CoordinatorByBase(dir + "/" + core, core);
    CoordinatorByBase(dir + "/" + web, core);
    BaseIdempotent(dir + "/" + core);
  }

  // ---------- who holds the store ----------

  /** What a run of boots and exits leads to. */
  function After(coord: string, es: seq<Event>): Holdings {
    if es == [] then NOBODY else Happen(After(coord, es[..|es| - 1]), coord, es[|es| - 1])
  }

  /** The locked stores are those of the holders, one holder a store. */
  ghost predicate Exclusive(h: Holdings) {
    && (forall m :: m in h.holders ==> StoreOf(m) in h.locked)
    && (forall m, n :: m in h.holders && n in h.holders && StoreOf(m) == StoreOf(n) ==> m == n)
    && (forall k :: k in h.locked ==> exists m :: m in h.holders && StoreOf(m) == k)
  }

  lemma BootKeepsExclusive(h: Holdings, coord: string, m: Member)
    requires Exclusive(h)
    ensures Exclusive(Happen(h, coord, Boot(m)))
  {
    var next := Happen(h, coord, Boot(m));
    forall k | k in next.locked
      ensures exists n :: n in next.holders && StoreOf(n) == k
    {
      if k in h.locked {
        var n :| n in h.holders && StoreOf(n) == k;
        assert n in next.holders;
      } else {
        assert m in next.holders;
      }
    }
  }

  lemma ExitKeepsExclusive(h: Holdings, coord: string, m: Member)
    requires Exclusive(h)
    ensures Exclusive(Happen(h, coord, Exit(m)))
  {
    var next := Happen(h, coord, Exit(m));
    forall k | k in next.locked
      ensures exists n :: n in next.holders && StoreOf(n) == k
    {
      var n :| n in h.holders && StoreOf(n) == k;
      assert n in next.holders;
    }
  }

  /** Whatever the base names, and however processes come and go, at most one member of the project
      holds its store. */
  lemma {:induction false} AtMostOneHolder(coord: string, es: seq<Event>)
    ensures Exclusive(After(coord, es))
    ensures forall m, n :: m in After(coord, es).holders && n in After(coord, es).holders ==>
              m.inProject && n.inProject ==> m == n
  {
    if es != [] {
      AtMostOneHolder(coord, es[..|es| - 1]);
      match es[|es| - 1]
      case Boot(m) => BootKeepsExclusive(After(coord, es[..|es| - 1]), coord, m);
      case Exit(m) => ExitKeepsExclusive(After(coord, es[..|es| - 1]), coord, m);
    }
  }

  /** After any run, a boot succeeds if and only if the member is outside the project, or no coordinator is
      set, or it carries the coordinator's base name; its database opens; and no running process holds the
      same store. */
  lemma BootExactly(coord: string, es: seq<Event>, m: Member)
    requires m !in After(coord, es).holders
    ensures m in Happen(After(coord, es), coord, Boot(m)).holders <==>
            && (!m.inProject || coord == "" || Base(m.path) == Base(coord))
            && m.dbOpens
            && forall n :: n in After(coord, es).holders ==> StoreOf(n) != StoreOf(m)
  {
    AtMostOneHolder(coord, es);
    CoordinatorByBase(m.path, coord);
    if StoreOf(m) in After(coord, es).locked {
      var n :| n in After(coord, es).holders && StoreOf(n) == StoreOf(m);
    }
  }

  /** After any run, an exit ends its own process's hold and no other. */
  lemma ExitExactly(coord: string, es: seq<Event>, m: Member)
    ensures Happen(After(coord, es), coord, Exit(m)).holders == After(coord, es).holders - {m}
  {
  }

  /** Only a member that tries to open the store, and can, ever holds it. */
  lemma {:induction false} HoldersAttempted(coord: string, es: seq<Event>, m: Member)
    requires m in After(coord, es).holders
    ensures Attempts(m, coord) && m.dbOpens
  {
    if m in After(coord, es[..|es| - 1]).holders { HoldersAttempted(coord, es[..|es| - 1], m); }
  }

  /** With a coordinator set, two members of the project both try to open its store exactly when both
      carry the coordinator's base name. */
  lemma WhoAttempts(coord: string, m: Member, n: Member)
    requires coord != "" && m.inProject && n.inProject
    ensures Attempts(m, coord) && Attempts(n, coord) <==> Base(m.path) == Base(coord) == Base(n.path)
  {
    CoordinatorByBase(m.path, coord);
    CoordinatorByBase(n.path, coord);
  }

  /** With distinct base names at most one member of the project tries to open its store. */
  lemma AtMostOneAttempts(reg: seq<Member>, coord: string, i: nat, j: nat)
    requires coord != "" && i < |reg| && j < |reg|
    requires forall a, b :: 0 <= a < b < |reg| ==> Base(reg[a].path) != Base(reg[b].path)
    requires forall m :: m in reg ==> m.inProject
    requires Attempts(reg[i], coord) && Attempts(reg[j], coord)
    ensures i == j
  {
    CoordinatorByBase(reg[i].path, coord);
    CoordinatorByBase(reg[j].path, coord);
  }

  /** A coordinator that is not the holder has neither a store nor anyone to forward to: it refuses
      every project request, although another process could answer it. */
  lemma SecondCoordinatorRefuses(coord: string, es: seq<Event>, reg: Option<seq<Member>>,
                                 first: Member, m: Member, t: Tool)
    requires first in After(coord, es).holders && m != first && first.inProject && m.inProject
    requires IsCoordinator(m.path, coord)
    requires BootedAs(t, m, coord, reg) && (t.hasStore ==> m in After(coord, es).holders)
    ensures RouteOf(t, "") == RouteOf(t, "project") == RouteOf(t, "workspace") == Refused
  {
    AtMostOneHolder(coord, es);
  }

  // ---------- when every project request is answered ----------

  function Boots(ms: seq<Member>): seq<Event> {
    seq(|ms|, i requires 0 <= i < |ms| => Boot(ms[i]))
  }

  /** The members that hold a store once all have booted, in this order. */
  function HoldersOf(coord: string, order: seq<Member>): set<Member> {
    After(coord, Boots(order)).holders
  }

  function ToolOf(coord: string, reg: seq<Member>, order: seq<Member>, m: Member): Tool {
    Tool(m in HoldersOf(coord, order), ProxyTarget(m, coord, Some(reg)), false, false)
  }

  /** Member `m`'s project request is answered from the store, by itself or by the member it forwards to. */
  ghost predicate Answered(coord: string, reg: seq<Member>, order: seq<Member>, m: Member) {
    match RouteOf(ToolOf(coord, reg, order, m), "project")
    case ProjectStore => true
    case Forward(id) =>
      exists n :: n in reg && n.id == id && RouteOf(ToolOf(coord, reg, order, n), "project") == ProjectStore
    case _ => false
  }

  lemma LastBoot(coord: string, order: seq<Member>)
    requires order != []
    ensures var n := |order| - 1;
            After(coord, Boots(order)) == Happen(After(coord, Boots(order[..n])), coord, Boot(order[n]))
  {
    assert Boots(order)[..|order| - 1] == Boots(order[..|order| - 1]);
  }

  function HeldBy(c: Member): Holdings {
    Holdings({c}, {Shared})
  }

  lemma SoleCandidateStep(h: Holdings, coord: string, c: Member, m: Member)
    requires m.inProject && (Attempts(m, coord) ==> m == c)
    requires c.inProject && Attempts(c, coord) && c.dbOpens
    requires h == NOBODY || h == HeldBy(c)
    ensures Happen(h, coord, Boot(m)) == if m == c then HeldBy(c) else h
  {
  }

  /** When `c` is the only member that tries, no lock stands in its way. */
  lemma {:induction false} SoleCandidateHolds(coord: string, order: seq<Member>, c: Member)
    requires forall m :: m in order ==> m.inProject && (Attempts(m, coord) ==> m == c)
    requires c.inProject && Attempts(c, coord) && c.dbOpens
    ensures After(coord, Boots(order)) == if c in order then HeldBy(c) else NOBODY
  {
    if order == [] {
      assert Boots(order) == [];
    } else {
      var n := |order| - 1;
      LastBoot(coord, order);
      assert order == order[..n] + [order[n]];
      SoleCandidateHolds(coord, order[..n], c);
      SoleCandidateStep(After(coord, Boots(order[..n])), coord, c, order[n]);
    }
  }

  /** Exactly one registered member is a coordinator, and its database opens. */
  ghost predicate OneWorkingCoordinator(coord: string, reg: seq<Member>) {
    exists c :: c in reg && IsCoordinator(c.path, coord) && c.dbOpens
                && forall m :: m in reg && IsCoordinator(m.path, coord) ==> m == c
  }

  /** The members of a project, all registered under their own ids, and all booted in some order. */
  ghost predicate Federated(reg: seq<Member>, order: seq<Member>) {
    && reg != [] && UniqueIds(reg)
    && (forall m :: m in reg ==> m.inProject && m.id != "")
    && (forall m :: m in reg <==> m in order)
  }

  lemma AnsweredByTheCoordinator(coord: string, reg: seq<Member>, order: seq<Member>, c: Member, m: Member)
    requires Federated(reg, order) && c in reg && IsCoordinator(c.path, coord) && c.dbOpens
    requires forall n :: n in reg && IsCoordinator(n.path, coord) ==> n == c
    requires m in reg
    ensures Answered(coord, reg, order, m)
  {
    SoleCandidateHolds(coord, order, c);
    MatchIsCoordinator(reg, coord);
    assert RouteOf(ToolOf(coord, reg, order, c), "project") == ProjectStore;
    if m != c {
      assert ToolOf(coord, reg, order, m).proxyTarget == c.id;
    }
  }

  /** An answered request was answered by a coordinator that holds the store. */
  lemma AnswerComesFromHolder(coord: string, reg: seq<Member>, order: seq<Member>, m: Member) returns (n: Member)
    requires Federated(reg, order) && m in reg && Answered(coord, reg, order, m)
    ensures n in reg && n in HoldersOf(coord, order) && IsCoordinator(n.path, coord) && n.dbOpens
    ensures IsCoordinator(m.path, coord) ==> n == m
  {
    n := m;
    if RouteOf(ToolOf(coord, reg, order, m), "project").Forward? {
      var id := ToolOf(coord, reg, order, m).proxyTarget;
      n :| n in reg && n.id == id && RouteOf(ToolOf(coord, reg, order, n), "project") == ProjectStore;
    }
    HoldersAttempted(coord, Boots(order), n);
  }

  /** Once all members have booted, in whatever order, every member's project request is answered from
      the store if and only if exactly one registered member is a coordinator, by its base name, and
      its database opens. */
  lemma AllAnsweredExactly(coord: string, reg: seq<Member>, order: seq<Member>)
    requires Federated(reg, order)
    ensures (forall m :: m in reg ==> Answered(coord, reg, order, m)) <==> OneWorkingCoordinator(coord, reg)
  {
    if OneWorkingCoordinator(coord, reg) {
      var c :| c in reg && IsCoordinator(c.path, coord) && c.dbOpens
               && forall m :: m in reg && IsCoordinator(m.path, coord) ==> m == c;
      forall m | m in reg
        ensures Answered(coord, reg, order, m)
      {
        AnsweredByTheCoordinator(coord, reg, order, c, m);
      }
    }
    if forall m :: m in reg ==> Answered(coord, reg, order, m) {
      assert reg[0] in reg;
      var c := AnswerComesFromHolder(coord, reg, order, reg[0]);
      AtMostOneHolder(coord, Boots(order));
      forall m | m in reg && IsCoordinator(m.path, coord)
        ensures m == c
      {
        var n := AnswerComesFromHolder(coord, reg, order, m);
      }
    }
  }
}
