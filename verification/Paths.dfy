/** File paths as strings, with the parts of Go's path/filepath (on Unix) that routing uses. */
module Paths {
  import opened Text

  // ---------- Base ----------

  function TrimSlashes(p: string): string {
    if p != "" && p[|p| - 1] == '/' then TrimSlashes(p[..|p| - 1]) else p
  }

  function AfterLastSlash(p: string): string {
    if p == "" || p[|p| - 1] == '/' then "" else AfterLastSlash(p[..|p| - 1]) + [p[|p| - 1]]
  }

  function Base(p: string): string {
    if p == "" then "."
    else
      var last := AfterLastSlash(TrimSlashes(p));
      if last == "" then "/" else last
  }

  lemma {:induction false} AfterLastSlashIsPlain(p: string)
    ensures '/' !in AfterLastSlash(p)
    ensures '/' !in p ==> AfterLastSlash(p) == p
  {
    if p != "" && p[|p| - 1] != '/' {
      AfterLastSlashIsPlain(p[..|p| - 1]);
      assert p == p[..|p| - 1] + [p[|p| - 1]];
    }
  }

  lemma BaseIdempotent(p: string)
    ensures Base(Base(p)) == Base(p)
  {
    var last := AfterLastSlash(TrimSlashes(p));
    AfterLastSlashIsPlain(TrimSlashes(p));
    AfterLastSlashIsPlain(last);
    if p == "" {
      AfterLastSlashIsPlain(".");
    } else if last == "" {
      assert TrimSlashes("/") == TrimSlashes("") == "";
    } else {
      assert TrimSlashes(last) == last;
    }
  }

  /** The base name of a path that ends in a plain name is that name. */
  lemma LastComponent(dir: string, name: string)
    requires name != "" && '/' !in name
    ensures Base(dir + "/" + name) == name
  {
    var p := dir + "/" + name;
    assert p[|p| - 1] == name[|name| - 1];
    AfterLastSlashAppend(dir, name);
  }

  lemma {:induction false} AfterLastSlashAppend(dir: string, name: string)
    requires '/' !in name
    ensures AfterLastSlash(dir + "/" + name) == name
  {
    var p := dir + "/" + name;
    if name == "" {
      assert p[|p| - 1] == '/';
    } else {
      var n := |name| - 1;
      AfterLastSlashAppend(dir, name[..n]);
      assert p[..|p| - 1] == dir + "/" + name[..n];
      assert name == name[..n] + [name[n]];
    }
  }

  ghost predicate Slashes(s: string) {
    forall k :: 0 <= k < |s| ==> s[k] == '/'
  }

  lemma {:induction false} TrimTrailing(p: string, slashes: string)
    requires Slashes(slashes) && (p == "" || p[|p| - 1] != '/')
    ensures TrimSlashes(p + slashes) == p
    decreases |slashes|
  {
    if slashes == "" {
      assert p + slashes == p;
    } else {
      var n := |slashes| - 1;
      assert (p + slashes)[..|p + slashes| - 1] == p + slashes[..n];
      TrimTrailing(p, slashes[..n]);
    }
  }

  /** What a base name is: the last name of the path, slashes after it ignored; "/" when there are only
      slashes, and "." for the empty path. */
  lemma BaseExactly(dir: string, name: string, slashes: string)
    requires name != "" && '/' !in name && Slashes(slashes)
    ensures Base(dir + "/" + name + slashes) == Base(name + slashes) == name
    ensures Base(slashes) == if slashes == "" then "." else "/"
  {
    var p := dir + "/" + name;
    assert p[|p| - 1] == name[|name| - 1];
    TrimTrailing(p, slashes);
    AfterLastSlashAppend(dir, name);
    TrimTrailing(name, slashes);
    AfterLastSlashIsPlain(name);
    TrimTrailing("", slashes);
    assert "" + slashes == slashes;
  }

  // ---------- Abs and Clean ----------

  /** A component of a cleaned path. */
  predicate Plain(c: string) {
    c != "" && c != "." && c != ".." && '/' !in c
  }

  ghost predicate Clean(cs: seq<string>) {
    forall c :: c in cs ==> Plain(c)
  }

  function Walk(from: seq<string>, parts: seq<string>): seq<string>
    decreases parts
  {
    if parts == [] then from
    else
      var p := parts[0];
      var next := if p == "" || p == "." then from
                  else if p == ".." then (if from == [] then [] else from[..|from| - 1])
                  else from + [p];
      Walk(next, parts[1..])
  }

  /** The components of `p` once made absolute from the directory `cwd` and cleaned. */
  function Resolve(cwd: seq<string>, p: string): seq<string> {
    Walk(if p != "" && p[0] == '/' then [] else cwd, Split(p, '/'))
  }

  lemma {:induction false} WalkIsClean(from: seq<string>, parts: seq<string>)
    requires Clean(from) && Free(parts, '/')
    ensures Clean(Walk(from, parts))
    decreases parts
  {
    if parts != [] {
      var p := parts[0];
      var next := if p == "" || p == "." then from
                  else if p == ".." then (if from == [] then [] else from[..|from| - 1])
                  else from + [p];
      assert p in parts;
      WalkIsClean(next, parts[1..]);
    }
  }

  lemma ResolveIsClean(cwd: seq<string>, p: string)
    requires Clean(cwd)
    ensures Clean(Resolve(cwd, p))
  {
    JoinSplit(p, '/');
    WalkIsClean(if p != "" && p[0] == '/' then [] else cwd, Split(p, '/'));
  }

  /** A cleaned absolute path as a string. */
  function Render(cs: seq<string>): string {
    if cs == [] then "/" else Slashed(cs)
  }

  function Slashed(cs: seq<string>): string {
    if cs == [] then "" else "/" + cs[0] + Slashed(cs[1..])
  }

  lemma {:induction false} WalkPlain(from: seq<string>, parts: seq<string>)
    requires Clean(parts)
    ensures Walk(from, parts) == from + parts
    decreases parts
  {
    if parts == [] {
      assert from + [] == from;
    } else {
      assert parts[0] in parts;
      WalkPlain(from + [parts[0]], parts[1..]);
      assert from + [parts[0]] + parts[1..] == from + parts;
    }
  }

  lemma {:induction false} SlashedIsJoin(cs: seq<string>)
    requires cs != []
    ensures Slashed(cs) == "/" + Join(cs, '/')
  {
    FileUnfold(cs);
    if |cs| > 1 { SlashedIsJoin(cs[1..]); }
  }

  /** A cleaned absolute path is its own resolution, whatever the working directory. */
  lemma ResolveRender(cwd: seq<string>, cs: seq<string>)
    requires Clean(cs)
    ensures Resolve(cwd, Render(cs)) == cs
  {
    if cs == [] {
      SplitFirst("", "", '/');
      assert Split("/", '/') == ["", ""] by { assert "" + ['/'] + "" == "/"; }
      assert ["", ""][1..] == [""];
    } else {
      SlashedIsJoin(cs);
      forall c | c in cs
        ensures '/' !in c
      {
        assert Plain(c);
      }
      SplitJoin(cs, '/');
      SplitFirst("", Join(cs, '/'), '/');
      assert "" + ['/'] + Join(cs, '/') == Slashed(cs);
      var parts := Split(Slashed(cs), '/');
      assert parts == [""] + cs && parts[1..] == cs;
      WalkPlain([], cs);
      assert [] + cs == cs;
    }
  }

  lemma FileUnfold(cs: seq<string>)
    requires cs != []
    ensures Slashed(cs) == "/" + (cs[0] + Slashed(cs[1..]))
  {
    assert ("/" + cs[0]) + Slashed(cs[1..]) == "/" + (cs[0] + Slashed(cs[1..]));
  }

  // ---------- Rel ----------

  function CommonPrefix(a: seq<string>, b: seq<string>): (n: nat)
    ensures n <= |a| && n <= |b| && a[..n] == b[..n]
    ensures n < |a| && n < |b| ==> a[n] != b[n]
  {
    if a == [] || b == [] || a[0] != b[0] then 0 else CommonPrefix(a[1..], b[1..]) + 1
  }

  /** The path from one cleaned absolute path to another. */
  function Rel(base: seq<string>, target: seq<string>): string {
    var n := CommonPrefix(base, target);
    if base == target then "." else Join(seq(|base| - n, _ => "..") + target[n..], '/')
  }

  // ---------- what Resolve and Rel mean ----------

  lemma {:induction false} WalkConcat(from: seq<string>, a: seq<string>, b: seq<string>)
    ensures Walk(from, a + b) == Walk(Walk(from, a), b)
    decreases a
  {
    if a == [] {
      assert a + b == b;
    } else {
      var p := a[0];
      var next := if p == "" || p == "." then from
                  else if p == ".." then (if from == [] then [] else from[..|from| - 1])
                  else from + [p];
      assert (a + b)[1..] == a[1..] + b;
      WalkConcat(next, a[1..], b);
    }
  }

  lemma WalkOne(from: seq<string>, q: string)
    ensures Walk(from, [q]) == if q == "" || q == "." then from
                               else if q == ".." then (if from == [] then [] else from[..|from| - 1])
                               else from + [q]
  {
    assert [q][1..] == [];
  }

  /** One more component: a name is entered, "." and "" stay, ".." goes up and stops at the root. */
  lemma ResolveStep(cwd: seq<string>, p: string, q: string)
    requires p != "" && '/' !in q
    ensures var at, next := Resolve(cwd, p), Resolve(cwd, p + "/" + q);
            && (Plain(q) ==> next == at + [q])
            && (q == "." || q == "" ==> next == at)
            && (q == ".." ==> next == if at == [] then [] else at[..|at| - 1])
  {
    var start := if p[0] == '/' then [] else cwd;
    var parts := Split(p, '/');
    JoinSplit(p, '/');
    JoinConcat(parts, [q], '/');
    assert Join([q], '/') == q && p + "/" + q == Join(parts + [q], '/');
    SplitJoin(parts + [q], '/');
    assert (p + "/" + q)[0] == p[0];
    WalkConcat(start, parts, [q]);
    WalkOne(Walk(start, parts), q);
  }

  /** The first component of a relative path is taken from the working directory. */
  lemma ResolveFirst(cwd: seq<string>, q: string)
    requires '/' !in q
    ensures Plain(q) ==> Resolve(cwd, q) == cwd + [q]
    ensures q == "." || q == "" ==> Resolve(cwd, q) == cwd
    ensures q == ".." ==> Resolve(cwd, q) == if cwd == [] then [] else cwd[..|cwd| - 1]
  {
    SplitPlain(q, '/');
    assert q != "" ==> q[0] in q;
    WalkOne(cwd, q);
  }

  function Ups(k: nat): seq<string> {
    seq(k, _ => "..")
  }

  lemma {:induction false} WalkUps(from: seq<string>, k: nat)
    requires k <= |from|
    ensures Walk(from, Ups(k)) == from[..|from| - k]
    decreases k
  {
    if k == 0 {
      assert from[..|from|] == from;
    } else {
      assert Ups(k)[1..] == Ups(k - 1);
      WalkUps(from[..|from| - 1], k - 1);
    }
  }

  lemma ResolveParts(cwd: seq<string>, parts: seq<string>)
    requires parts != [] && Free(parts, '/') && parts[0] != ""
    ensures Resolve(cwd, Join(parts, '/')) == Walk(cwd, parts)
  {
    SplitJoin(parts, '/');
    assert parts[0] in parts && parts[0][0] in parts[0];
    assert Join(parts, '/')[0] == parts[0][0];
  }

  lemma UpThenDown(base: seq<string>, k: nat, rest: seq<string>)
    requires k <= |base| && Clean(rest)
    ensures Walk(base, Ups(k) + rest) == base[..|base| - k] + rest
  {
    WalkConcat(base, Ups(k), rest);
    WalkUps(base, k);
    WalkPlain(base[..|base| - k], rest);
  }

  lemma CleanSuffix(cs: seq<string>, n: nat)
    requires n <= |cs| && Clean(cs)
    ensures Clean(cs[n..]) && cs[..n] + cs[n..] == cs
  {
    forall c | c in cs[n..]
      ensures Plain(c)
    {
      assert c in cs;
    }
  }

  lemma RelParts(base: seq<string>, target: seq<string>) returns (parts: seq<string>)
    requires base != target && Clean(target)
    ensures parts != [] && Free(parts, '/') && parts[0] != ""
    ensures Rel(base, target) == Join(parts, '/')
    ensures parts == Ups(|base| - CommonPrefix(base, target)) + target[CommonPrefix(base, target)..]
  {
    var n := CommonPrefix(base, target);
    parts := Ups(|base| - n) + target[n..];
    assert parts == seq(|base| - n, _ => "..") + target[n..];
    assert base == base[..n] + base[n..] && target == target[..n] + target[n..];
    forall c | c in parts
      ensures '/' !in c && c != ""
    {
      assert c == ".." || c in target;
      assert c in target ==> Plain(c);
    }
    assert parts[0] in parts;
  }

  /** Following the relative path from one directory leads to the other. */
  lemma RelLeadsThere(base: seq<string>, target: seq<string>)
    requires Clean(base) && Clean(target)
    ensures Resolve(base, Rel(base, target)) == target
  {
    if base == target {
      ResolveFirst(base, ".");
    } else {
      var parts := RelParts(base, target);
      ResolveParts(base, parts);
      var n := CommonPrefix(base, target);
      CleanSuffix(target, n);
      UpThenDown(base, |base| - n, target[n..]);
    }
  }
}
