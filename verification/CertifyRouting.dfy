/** How a certification batch is split between this workspace and the ones registered elsewhere. */
module CertifyRouting {
  import opened Wrappers
  import opened Text
  import opened Paths
  import opened Sequences

  /** `rel` does not lead out of the directory it starts from. */
  predicate StaysInside(rel: string) {
    rel != ".." && !HasPrefix(rel, "../")
  }

  predicate IsPathInWorkspace(cwd: seq<string>, workspace: string, filename: string) {
    StaysInside(Rel(Resolve(cwd, workspace), Resolve(cwd, filename)))
  }

  lemma StepsOutside(parts: seq<string>)
    requires parts != [] && Free(parts, '/')
    ensures StaysInside(Join(parts, '/')) <==> parts[0] != ".."
  {
    var s := Join(parts, '/');
    assert parts[0] in parts;
    if |parts| == 1 {
      assert |s| > 2 ==> s[2] in s && s[2] != '/';
    } else {
      assert s[|parts[0]|] == '/' && s[..|parts[0]|] == parts[0];
      if parts[0] == ".." {
        assert s[..3] == "../";
      } else {
        assert |parts[0]| > 2 ==> s[2] == parts[0][2] != '/';
      }
    }
  }

  lemma PrefixIsCommon(b: seq<string>, t: seq<string>)
    ensures b <= t <==> CommonPrefix(b, t) == |b|
  {
    if b <= t {
      assert forall k :: 0 <= k < |b| ==> b[k] == t[k];
    }
  }

  /** The steps of a relative path: up out of the base, then down into the target. */
  lemma RelSteps(b: seq<string>, t: seq<string>)
    requires Clean(b) && Clean(t) && b != t
    ensures var n := CommonPrefix(b, t);
            var parts := seq(|b| - n, _ => "..") + t[n..];
            parts != [] && Free(parts, '/') && (parts[0] != ".." <==> n == |b|)
  {
    var n := CommonPrefix(b, t);
    var parts := seq(|b| - n, _ => "..") + t[n..];
    forall p | p in parts
      ensures '/' !in p
    {
      assert p == ".." || Plain(p);
    }
    if n == |b| {
      assert b == t[..n];
      assert parts[0] == t[n] && Plain(t[n]);
    }
  }

  lemma RelStaysInside(b: seq<string>, t: seq<string>)
    requires Clean(b) && Clean(t)
    ensures StaysInside(Rel(b, t)) <==> b <= t
  {
    if b != t {
      PrefixIsCommon(b, t);
      RelSteps(b, t);
      StepsOutside(seq(|b| - CommonPrefix(b, t), _ => "..") + t[CommonPrefix(b, t)..]);
    }
  }

  /** A file belongs to the workspace exactly when the workspace's components are a prefix of the
      file's: "..", "." and repeated separators cannot escape, and a sibling whose name merely
      starts with the workspace's does not count. */
  lemma InWorkspaceIffPrefix(cwd: seq<string>, workspace: string, filename: string)
    requires Clean(cwd)
    ensures IsPathInWorkspace(cwd, workspace, filename) <==> Resolve(cwd, workspace) <= Resolve(cwd, filename)
  {
    ResolveIsClean(cwd, workspace);
    ResolveIsClean(cwd, filename);
    RelStaysInside(Resolve(cwd, workspace), Resolve(cwd, filename));
  }

  // ---------- the owning workspace ----------

  datatype Entry = Entry(id: string, path: string)

  function RootOf(cwd: seq<string>, e: Entry): string {
    Render(Resolve(cwd, e.path))
  }

  predicate Matches(cwd: seq<string>, e: Entry, file: string) {
    HasPrefix(file, RootOf(cwd, e) + "/")
  }

  /** The position of the owner among the first `n` entries: the first of the longest roots. */
  function Owner(cwd: seq<string>, reg: seq<Entry>, n: nat, file: string): (o: Option<nat>)
    requires n <= |reg|
    ensures o.Some? ==> o.value < n
  {
    if n == 0 then None
    else
      var o := Owner(cwd, reg, n - 1, file);
      if Matches(cwd, reg[n - 1], file) && (o.None? || |RootOf(cwd, reg[n - 1])| > |RootOf(cwd, reg[o.value])|)
      then Some(n - 1) else o
  }

  method WorkspaceOfFile(cwd: seq<string>, reg: seq<Entry>, file: string) returns (wsID: string, wsPath: string)
    ensures wsID == OwnerId(cwd, reg, file)
    ensures wsPath == var o := Owner(cwd, reg, |reg|, file); if o.None? then "" else reg[o.value].path
  {
    var best := "";
    wsID, wsPath := "", "";
    for i := 0 to |reg|
      invariant var o := Owner(cwd, reg, i, file);
                if o.None? then best == wsID == wsPath == ""
                else best == RootOf(cwd, reg[o.value]) && wsID == reg[o.value].id && wsPath == reg[o.value].path
    {
      var absWs := RootOf(cwd, reg[i]);
      if HasPrefix(file, absWs + "/") && |absWs| > |best| {
        best := absWs;
        wsID := reg[i].id;
        wsPath := reg[i].path;
      }
    }
  }

  function OwnerId(cwd: seq<string>, reg: seq<Entry>, file: string): string {
    var o := Owner(cwd, reg, |reg|, file);
    if o.None? then "" else reg[o.value].id
  }

  lemma {:induction false} OwnerIsLongest(cwd: seq<string>, reg: seq<Entry>, n: nat, file: string, i: nat)
    requires i < n <= |reg| && Matches(cwd, reg[i], file)
    ensures var o := Owner(cwd, reg, n, file);
            o.Some? && Matches(cwd, reg[o.value], file)
            && |RootOf(cwd, reg[i])| <= |RootOf(cwd, reg[o.value])|
            && (o.value != i && |RootOf(cwd, reg[i])| == |RootOf(cwd, reg[o.value])| ==> o.value < i)
  {
    if i < n - 1 {
      OwnerIsLongest(cwd, reg, n - 1, file, i);
    } else {
      OwnerMatches(cwd, reg, n, file);
    }
  }

  lemma {:induction false} OwnerMatches(cwd: seq<string>, reg: seq<Entry>, n: nat, file: string)
    requires n <= |reg|
    ensures Owner(cwd, reg, n, file).Some? ==> Matches(cwd, reg[Owner(cwd, reg, n, file).value], file)
  {
    if n > 0 { OwnerMatches(cwd, reg, n - 1, file); }
  }

  /** A cleaned root as the pieces of its string: "/" is two empty pieces. */
  function Pieces(root: seq<string>): seq<string> {
    if root == [] then ["", ""] else [""] + root
  }

  lemma RenderIsJoin(root: seq<string>)
    ensures Render(root) == Join(Pieces(root), '/')
  {
    if root == [] {
      assert ["", ""][1..] == [""];
    } else {
      SlashedIsJoin(root);
      assert ([""] + root)[1..] == root;
    }
  }

  lemma PiecesAreFree(root: seq<string>)
    requires Clean(root)
    ensures Free(Pieces(root), '/')
  {
    forall p | p in Pieces(root)
      ensures '/' !in p
    {
      assert p == "" || Plain(p);
    }
  }

  /** The pieces and a separator start a string exactly when they are a proper prefix of its pieces. */
  lemma JoinedPrefix(ps: seq<string>, s: string)
    requires ps != [] && Free(ps, '/')
    ensures Join(ps, '/') + "/" <= s <==> ps < Split(s, '/')
  {
    var front := Join(ps, '/') + "/";
    if front <= s {
      var rest := s[|front|..];
      assert s == Join(ps, '/') + ['/'] + rest;
      SplitAfter(ps, rest);
    }
    if ps < Split(s, '/') {
      var rest := Split(s, '/')[|ps|..];
      JoinSplit(s, '/');
      assert Split(s, '/') == ps + rest;
      JoinConcat(ps, rest, '/');
      assert front == Join(ps, '/') + ['/'];
    }
  }

  lemma RegroupSteps(a: string, b: string, c: string)
    ensures (a + ['/'] + b) + ['/'] + c == a + ['/'] + (b + ['/'] + c)
  {
  }

  lemma {:induction false} SplitAfter(ps: seq<string>, rest: string)
    requires ps != [] && Free(ps, '/')
    ensures Split(Join(ps, '/') + ['/'] + rest, '/') == ps + Split(rest, '/')
    ensures |Split(rest, '/')| > 0
  {
    assert ps[0] in ps;
    if |ps| == 1 {
      SplitFirst(ps[0], rest, '/');
      assert ps == [ps[0]];
    } else {
      SplitAfter(ps[1..], rest);
      var more := Join(ps[1..], '/') + ['/'] + rest;
      RegroupSteps(ps[0], Join(ps[1..], '/'), rest);
      SplitFirst(ps[0], more, '/');
      assert ps == [ps[0]] + ps[1..];
    }
  }

  /** Entry `i` contains the file name as it is written: its root's pieces are a proper prefix of the
      name's. */
  predicate Contains(cwd: seq<string>, reg: seq<Entry>, file: string, i: nat)
    requires i < |reg|
  {
    Pieces(Resolve(cwd, reg[i].path)) < Split(file, '/')
  }

  /** For any file name the string test is this test on pieces. */
  lemma MatchesIffPieces(cwd: seq<string>, reg: seq<Entry>, file: string, i: nat)
    requires Clean(cwd) && i < |reg|
    ensures Matches(cwd, reg[i], file) <==> Contains(cwd, reg, file, i)
  {
    var root := Resolve(cwd, reg[i].path);
    ResolveIsClean(cwd, reg[i].path);
    RenderIsJoin(root);
    PiecesAreFree(root);
    JoinedPrefix(Pieces(root), file);
  }

  function Depth(cwd: seq<string>, e: Entry): nat {
    |Pieces(Resolve(cwd, e.path))|
  }

  /** Entry `o` contains the file, no other is deeper, and none as deep comes before it. */
  ghost predicate IsDeepest(cwd: seq<string>, reg: seq<Entry>, file: string, o: nat)
    requires o < |reg|
  {
    Contains(cwd, reg, file, o)
    && forall i :: 0 <= i < |reg| && Contains(cwd, reg, file, i) ==>
         Depth(cwd, reg[i]) <= Depth(cwd, reg[o]) && (Depth(cwd, reg[i]) == Depth(cwd, reg[o]) ==> o <= i)
  }

  lemma LongerJoin(ps: seq<string>, qs: seq<string>)
    requires ps != [] && ps <= qs
    ensures |Join(ps, '/')| <= |Join(qs, '/')|
    ensures |ps| < |qs| ==> |Join(ps, '/')| < |Join(qs, '/')|
  {
    if |ps| < |qs| {
      JoinConcat(ps, qs[|ps|..], '/');
      assert qs == ps + qs[|ps|..];
    } else {
      assert ps == qs;
    }
  }

  lemma DepthIsLength(ps: seq<string>, qs: seq<string>, file: seq<string>)
    requires ps != [] && qs != [] && ps < file && qs < file
    ensures |ps| < |qs| <==> |Join(ps, '/')| < |Join(qs, '/')|
  {
    assert ps == file[..|ps|] && qs == file[..|qs|];
    if |ps| <= |qs| {
      LongerJoin(ps, qs);
    } else {
      LongerJoin(qs, ps);
    }
  }

  lemma DeeperIsLonger(cwd: seq<string>, reg: seq<Entry>, file: string, i: nat, j: nat)
    requires i < |reg| && j < |reg| && Contains(cwd, reg, file, i) && Contains(cwd, reg, file, j)
    ensures Depth(cwd, reg[i]) < Depth(cwd, reg[j]) <==> |RootOf(cwd, reg[i])| < |RootOf(cwd, reg[j])|
  {
    RenderIsJoin(Resolve(cwd, reg[i].path));
    RenderIsJoin(Resolve(cwd, reg[j].path));
    DepthIsLength(Pieces(Resolve(cwd, reg[i].path)), Pieces(Resolve(cwd, reg[j].path)), Split(file, '/'));
  }

  /** The owner of any file name is the deepest registered root that contains it as written, the first
      of equals; it has no owner if and only if no registered root contains it. */
  lemma OwnerIsDeepest(cwd: seq<string>, reg: seq<Entry>, file: string)
    requires Clean(cwd)
    ensures var o := Owner(cwd, reg, |reg|, file);
            if o.Some? then IsDeepest(cwd, reg, file, o.value)
            else forall i :: 0 <= i < |reg| ==> !Contains(cwd, reg, file, i)
  {
    var o := Owner(cwd, reg, |reg|, file);
    OwnerMatches(cwd, reg, |reg|, file);
    if o.Some? { MatchesIffPieces(cwd, reg, file, o.value); }
    forall i | 0 <= i < |reg| && Contains(cwd, reg, file, i)
      ensures o.Some?
      ensures Depth(cwd, reg[i]) <= Depth(cwd, reg[o.value])
      ensures Depth(cwd, reg[i]) == Depth(cwd, reg[o.value]) ==> o.value <= i
    {
      MatchesIffPieces(cwd, reg, file, i);
      OwnerIsLongest(cwd, reg, |reg|, file, i);
      DeeperIsLonger(cwd, reg, file, i, o.value);
      DeeperIsLonger(cwd, reg, file, o.value, i);
    }
  }

  // ---------- names as written and the places they name ----------

  /** The leading plain components, the last component excepted. */
  function PlainHead(parts: seq<string>): seq<string> {
    if |parts| <= 1 || !Plain(parts[0]) then [] else [parts[0]] + PlainHead(parts[1..])
  }

  /** The directory that a name spells before anything that has to be cleaned; none if it is relative. */
  function WrittenDirectory(file: string): seq<string> {
    var parts := Split(file, '/');
    if parts[0] == "" then PlainHead(parts[1..]) else []
  }

  /** The directory of the place that the name stands for. */
  function PlaceDirectory(cwd: seq<string>, file: string): seq<string> {
    var place := Resolve(cwd, file);
    if place == [] then [] else place[..|place| - 1]
  }

  lemma {:induction false} PlainHeadPrefix(root: seq<string>, parts: seq<string>)
    requires Clean(root)
    ensures root < parts <==> root <= PlainHead(parts) && parts != []
    decreases |root|
  {
    if root != [] && parts != [] {
      assert root[0] in root && Plain(root[0]);
      assert root == [root[0]] + root[1..] && parts == [parts[0]] + parts[1..];
      PlainHeadPrefix(root[1..], parts[1..]);
      if Plain(parts[0]) && |parts| > 1 {
        assert PlainHead(parts)[1..] == PlainHead(parts[1..]);
      }
    }
  }

  lemma {:induction false} PlainHeadIsClean(parts: seq<string>)
    ensures Clean(PlainHead(parts))
  {
    if |parts| > 1 { PlainHeadIsClean(parts[1..]); }
  }

  /** A root other than "/" contains the name as written exactly when it is a prefix of the directory
      the name spells. */
  lemma WrittenContains(root: seq<string>, file: string)
    requires Clean(root) && root != []
    ensures Pieces(root) < Split(file, '/') <==> root <= WrittenDirectory(file)
  {
    var parts := Split(file, '/');
    assert parts == [parts[0]] + parts[1..];
    if parts[0] == "" {
      PlainHeadPrefix(root, parts[1..]);
      assert Pieces(root)[1..] == root;
    } else {
      assert Pieces(root)[0] == "";
    }
  }

  /** A root other than "/" contains the name as written if and only if it contains the place. */
  ghost predicate RootAgrees(cwd: seq<string>, file: string, root: seq<string>) {
    Pieces(root) < Split(file, '/') <==> root < Resolve(cwd, file)
  }

  ghost predicate AllRootsAgree(cwd: seq<string>, file: string) {
    forall root :: Clean(root) && root != [] ==> RootAgrees(cwd, file, root)
  }

  lemma PlaceContains(cwd: seq<string>, file: string, root: seq<string>)
    requires root != []
    ensures root < Resolve(cwd, file) <==> root <= PlaceDirectory(cwd, file)
  {
  }

  /** Routing by the name as written agrees with routing by the place it stands for, for every root
      other than "/", if and only if the name spells the place's directory. It does for cleaned
      absolute names; "/ws/b/../c/x" spells "/ws/b" but stands in "/ws/c". */
  lemma RoutingAgreesExactly(cwd: seq<string>, file: string)
    requires Clean(cwd)
    ensures AllRootsAgree(cwd, file) <==> WrittenDirectory(file) == PlaceDirectory(cwd, file)
  {
    var written, place := WrittenDirectory(file), PlaceDirectory(cwd, file);
    ResolveIsClean(cwd, file);
    PlainHeadIsClean(Split(file, '/')[1..]);
    forall root | Clean(root) && root != []
      ensures RootAgrees(cwd, file, root) <==> (root <= written <==> root <= place)
    {
      WrittenContains(root, file);
      PlaceContains(cwd, file, root);
    }
    if AllRootsAgree(cwd, file) {
      if written != [] { assert RootAgrees(cwd, file, written); }
      if place != [] { assert RootAgrees(cwd, file, place); }
    }
  }

  /** A cleaned absolute file name is contained by an entry exactly when its root, other than "/", is a
      proper component prefix. */
  lemma MatchesIffComponents(cwd: seq<string>, e: Entry, file: seq<string>)
    requires Clean(cwd) && Clean(file)
    ensures Matches(cwd, e, Render(file)) <==> Resolve(cwd, e.path) != [] && Resolve(cwd, e.path) < file
  {
    var root := Resolve(cwd, e.path);
    MatchesIffPieces(cwd, [e], Render(file), 0);
    CleanNamePieces(file);
    if root == [] {
      assert file != [] ==> file[0] in file && Plain(file[0]) && Pieces(file)[1] == file[0];
    } else if file != [] {
      assert Pieces(root)[1..] == root && Pieces(file)[1..] == file;
      assert root < file ==> Pieces(root) < Pieces(file);
    } else {
      assert root[0] in root;
      ResolveIsClean(cwd, e.path);
      assert |Pieces(root)| >= 2 == |Pieces(file)|;
    }
  }

  lemma CleanNamesAgree(cwd: seq<string>, file: seq<string>)
    requires Clean(cwd) && Clean(file)
    ensures AllRootsAgree(cwd, Render(file))
  {
    ResolveRender(cwd, file);
    forall root | Clean(root) && root != []
      ensures RootAgrees(cwd, Render(file), root)
    {
      CleanNamePieces(file);
      if file != [] { assert Pieces(root) == [""] + root && Pieces(file) == [""] + file; }
    }
  }

  lemma CleanNamePieces(file: seq<string>)
    requires Clean(file)
    ensures Split(Render(file), '/') == Pieces(file)
  {
    RenderIsJoin(file);
    PiecesAreFree(file);
    SplitJoin(Pieces(file), '/');
  }

  lemma WalkStep(from: seq<string>, p: string, rest: seq<string>)
    requires Plain(p)
    ensures Walk(from, [p] + rest) == Walk(from + [p], rest)
  {
    assert ([p] + rest)[1..] == rest;
  }

  lemma WalkUp(from: seq<string>, p: string, rest: seq<string>)
    ensures Walk(from + [p], [".."] + rest) == Walk(from, rest)
  {
    assert ([".."] + rest)[1..] == rest && (from + [p])[..|from|] == from;
  }

  lemma PlainHeadStep(p: string, rest: seq<string>)
    requires Plain(p) && rest != []
    ensures PlainHead([p] + rest) == [p] + PlainHead(rest)
  {
    assert ([p] + rest)[1..] == rest;
  }

  /** An absolute name given by its steps. */
  lemma AbsoluteName(cwd: seq<string>, steps: seq<string>)
    requires steps != [] && Free(steps, '/')
    ensures var name := Join([""] + steps, '/');
            WrittenDirectory(name) == PlainHead(steps) && Resolve(cwd, name) == Walk([], steps)
  {
    assert ([""] + steps)[1..] == steps;
    forall p | p in [""] + steps
      ensures '/' !in p
    {
      assert p == "" || p in steps;
    }
    SplitJoin([""] + steps, '/');
  }

  /** Up and down again: the steps a, b, "..", c, x. */
  function UpAgain(a: string, b: string, c: string, x: string): seq<string> {
    [a] + ([b] + ([".."] + ([c] + [x])))
  }

  lemma HeadOfSteps(a: string, b: string, c: string, x: string)
    requires Plain(a) && Plain(b)
    ensures PlainHead(UpAgain(a, b, c, x)) == [a, b]
  {
    var up := [".."] + ([c] + [x]);
    PlainHeadStep(a, [b] + up);
    PlainHeadStep(b, up);
    assert PlainHead(up) == [];
    assert [a] + ([b] + []) == [a, b];
  }

  lemma PlaceOfSteps(a: string, b: string, c: string, x: string)
    requires Plain(a) && Plain(b) && Plain(c) && Plain(x)
    ensures Walk([], UpAgain(a, b, c, x)) == [a, c] + [x]
  {
    var up := [".."] + ([c] + [x]);
    WalkStep([], a, [b] + up);
    WalkStep([a], b, up);
    WalkUp([a], b, [c] + [x]);
    WalkPlain([a], [c] + [x]);
    assert [] + [a] == [a] && [a] + ([c] + [x]) == [a, c] + [x];
  }

  /** A name that goes up again is routed by what it spells: "/a/b/../c/x" by "/a/b", though it stands
      in "/a/c". */
  lemma DotDotMisroutes(cwd: seq<string>, a: string, b: string, c: string, x: string)
    requires Clean(cwd) && Plain(a) && Plain(b) && Plain(c) && Plain(x)
    ensures var name := Join([""] + UpAgain(a, b, c, x), '/');
            && WrittenDirectory(name) == [a, b] && PlaceDirectory(cwd, name) == [a, c]
            && (AllRootsAgree(cwd, name) <==> b == c)
  {
    var steps := UpAgain(a, b, c, x);
    assert Free(steps, '/');
    AbsoluteName(cwd, steps);
    HeadOfSteps(a, b, c, x);
    PlaceOfSteps(a, b, c, x);
    DropLastOf([a, c], x);
    RoutingAgreesExactly(cwd, Join([""] + steps, '/'));
    assert [a, b] == [a, c] <==> b == c;
  }

  lemma DropLastOf(s: seq<string>, x: string)
    ensures (s + [x])[..|s + [x]| - 1] == s
  {
  }

  // ---------- the partition ----------

  /** An element of the request's file list; only strings name files. */
  datatype Raw = Name(name: string) | NotAString

  datatype Class = Skipped | Local | Remote(id: string)

  function Classify(cwd: seq<string>, workspace: string, reg: seq<Entry>, r: Raw): Class {
    if r.NotAString? || r.name == "" then Skipped
    else if IsPathInWorkspace(cwd, workspace, r.name) then Local
    else
      var id := OwnerId(cwd, reg, r.name);
      if id == "" then Local else Remote(id)
  }

  function InClass(cwd: seq<string>, workspace: string, reg: seq<Entry>, c: Class): Raw -> bool {
    r => Classify(cwd, workspace, reg, r) == c
  }

  /** The elements of one class, in order and with repetitions. */
  function Select(cwd: seq<string>, workspace: string, reg: seq<Entry>, raws: seq<Raw>, c: Class): seq<Raw> {
    Filter(raws, InClass(cwd, workspace, reg, c))
  }

  /** `groups` holds exactly the lists of `of` that are not empty. */
  ghost predicate AreGroups(groups: map<string, seq<Raw>>, of: string -> seq<Raw>) {
    && (forall id :: id in groups <==> of(id) != [])
    && (forall id :: id in groups ==> groups[id] == of(id))
  }

  function RemotesOf(cwd: seq<string>, workspace: string, reg: seq<Entry>, raws: seq<Raw>): string -> seq<Raw> {
    id => Select(cwd, workspace, reg, raws, Remote(id))
  }

  /** The local list and the remote groups are the classes of `raws`. */
  ghost predicate Partitioned(cwd: seq<string>, workspace: string, reg: seq<Entry>, raws: seq<Raw>,
                              localFiles: seq<Raw>, remoteGroups: map<string, seq<Raw>>) {
    && localFiles == Select(cwd, workspace, reg, raws, Local)
    && AreGroups(remoteGroups, RemotesOf(cwd, workspace, reg, raws))
  }

  function AddToGroup(groups: map<string, seq<Raw>>, id: string, r: Raw): map<string, seq<Raw>> {
    groups[id := (if id in groups then groups[id] else []) + [r]]
  }

  lemma SelectNext(cwd: seq<string>, workspace: string, reg: seq<Entry>, raws: seq<Raw>, i: nat, c: Class)
    requires i < |raws|
    ensures Select(cwd, workspace, reg, raws[..i + 1], c) ==
            if Classify(cwd, workspace, reg, raws[i]) == c
            then Select(cwd, workspace, reg, raws[..i], c) + [raws[i]]
            else Select(cwd, workspace, reg, raws[..i], c)
  {
    FilterNext(raws, i, InClass(cwd, workspace, reg, c));
  }

  lemma GroupsNext(groups: map<string, seq<Raw>>, before: string -> seq<Raw>, after: string -> seq<Raw>,
                   c: Class, r: Raw)
    requires AreGroups(groups, before)
    requires forall id :: after(id) == if c == Remote(id) then before(id) + [r] else before(id)
    ensures AreGroups(if c.Remote? then AddToGroup(groups, c.id, r) else groups, after)
  {
  }

  lemma PartitionNext(cwd: seq<string>, workspace: string, reg: seq<Entry>, raws: seq<Raw>, i: nat,
                      localFiles: seq<Raw>, remoteGroups: map<string, seq<Raw>>, c: Class)
    requires i < |raws| && Partitioned(cwd, workspace, reg, raws[..i], localFiles, remoteGroups)
    requires c == Classify(cwd, workspace, reg, raws[i])
    ensures Partitioned(cwd, workspace, reg, raws[..i + 1],
                        if c.Local? then localFiles + [raws[i]] else localFiles,
                        if c.Remote? then AddToGroup(remoteGroups, c.id, raws[i]) else remoteGroups)
  {
    SelectNext(cwd, workspace, reg, raws, i, Local);
    var before, after := RemotesOf(cwd, workspace, reg, raws[..i]), RemotesOf(cwd, workspace, reg, raws[..i + 1]);
    forall id: string
      ensures after(id) == if c == Remote(id) then before(id) + [raws[i]] else before(id)
    {
      SelectNext(cwd, workspace, reg, raws, i, Remote(id));
    }
    GroupsNext(remoteGroups, before, after, c, raws[i]);
  }

  method PartitionCertifyFiles(cwd: seq<string>, workspace: string, registry: Option<seq<Entry>>, raws: seq<Raw>)
    returns (localFiles: seq<Raw>, remoteGroups: map<string, seq<Raw>>)
    ensures registry.None? ==> localFiles == raws && remoteGroups == map[]
    ensures registry.Some? ==> Partitioned(cwd, workspace, registry.value, raws, localFiles, remoteGroups)
  {
    localFiles, remoteGroups := [], map[];
    if registry.None? {
      return raws, map[];
    }
    var reg := registry.value;
    for i := 0 to |raws|
      invariant Partitioned(cwd, workspace, reg, raws[..i], localFiles, remoteGroups)
    {
      var r := raws[i];
      PartitionNext(cwd, workspace, reg, raws, i, localFiles, remoteGroups, Classify(cwd, workspace, reg, r));
      if r.NotAString? || r.name == "" {
        continue;
      }
      if IsPathInWorkspace(cwd, workspace, r.name) {
        localFiles := localFiles + [r];
        continue;
      }
      var wsID, _ := WorkspaceOfFile(cwd, reg, r.name);
      if wsID == "" {
        localFiles := localFiles + [r];
        continue;
      }
      var group := if wsID in remoteGroups then remoteGroups[wsID] else [];
      remoteGroups := remoteGroups[wsID := group + [r]];
    }
    assert raws[..|raws|] == raws;
  }

  /** Every element goes to its own class as often as it occurs, and to no other: no file name is
      lost, repeated or certified twice. */
  lemma EveryFileOnce(cwd: seq<string>, workspace: string, reg: seq<Entry>, raws: seq<Raw>, r: Raw, c: Class)
    ensures multiset(Select(cwd, workspace, reg, raws, c))[r] ==
            if c == Classify(cwd, workspace, reg, r) then multiset(raws)[r] else 0
  {
    FilterCounts(raws, InClass(cwd, workspace, reg, c), r);
  }

  /** Where any file name goes, in terms of components alone: it is local when the workspace contains
      the place it stands for, or no registered root contains the name as written; otherwise it belongs
      to the deepest root that does. */
  lemma ClassifiedByComponents(cwd: seq<string>, workspace: string, reg: seq<Entry>, name: string)
    requires Clean(cwd) && name != ""
    ensures var c := Classify(cwd, workspace, reg, Name(name));
            if Resolve(cwd, workspace) <= Resolve(cwd, name)
               || forall i :: 0 <= i < |reg| ==> !Contains(cwd, reg, name, i)
            then c == Local
            else exists o :: 0 <= o < |reg| && IsDeepest(cwd, reg, name, o)
                             && c == if reg[o].id == "" then Local else Remote(reg[o].id)
  {
    InWorkspaceIffPrefix(cwd, workspace, name);
    OwnerIsDeepest(cwd, reg, name);
  }

  /** Only elements that are no strings, and empty names, are left out of the batch. */
  lemma SkippedExactly(cwd: seq<string>, workspace: string, reg: seq<Entry>, r: Raw)
    ensures Classify(cwd, workspace, reg, r) == Skipped <==> r == NotAString || r == Name("")
  {
  }

  /** The names inside this workspace are certified here, whoever else registers them. */
  lemma OwnFilesStayLocal(cwd: seq<string>, workspace: string, reg: seq<Entry>, name: string)
    requires Clean(cwd) && name != "" && Resolve(cwd, workspace) <= Resolve(cwd, name)
    ensures Classify(cwd, workspace, reg, Name(name)) == Local
  {
    InWorkspaceIffPrefix(cwd, workspace, name);
  }
}
