/**
  `relative_path` of the promotion tool (tool/src/main.rs:189-213): the path
  that leads from the directory `from_path` to `to_path`, written into the
  dependency entry of the alpha crate.

  Paths are sequences of components, as `Path::components` yields them:
  the root `/` (first only), `.` (first only), `..`, and named components.
  `from.ancestors()` yields `from` and then each parent, down to `/` for an
  absolute path and down to the empty path for a relative one;
  `to.starts_with(a)` compares whole components.
*/
module RelativePaths {

  datatype Component = RootDir | CurDir | ParentDir | Normal(name: string)

  type Path = seq<Component>

  predicate IsAbsolute(p: Path) {
    |p| > 0 && p[0] == RootDir
  }

  /** `Path::starts_with`: `base` is a whole-component prefix of `p`. */
  predicate StartsWith(p: Path, base: Path) {
    |base| <= |p| && p[..|base|] == base
  }

  /** The length of the shortest ancestor `ancestors()` yields: `/` for an absolute path, the empty path otherwise. */
  function LowestAncestor(p: Path): (r: nat)
    ensures r <= |p|
  {
    if IsAbsolute(p) then 1 else 0
  }

  /** The number of leading components two paths share. */
  function CommonPrefixLength(a: Path, b: Path): (k: nat)
    ensures k <= |a| && k <= |b|
    ensures a[..k] == b[..k]
    ensures k < |a| && k < |b| ==> a[k] != b[k]
  {
    if |a| == 0 || |b| == 0 || a[0] != b[0] then 0
    else
      var k := 1 + CommonPrefixLength(a[1..], b[1..]);
      assert a[..k] == [a[0]] + a[1..][..k - 1];
      assert b[..k] == [b[0]] + b[1..][..k - 1];
      k
  }

  /** An ancestor of `from` is a prefix of `to` exactly when it is no longer than their common prefix. */
  lemma StartsWithAncestor(from: Path, to: Path, k: nat)
    requires k <= |from|
    ensures StartsWith(to, from[..k]) <==> k <= CommonPrefixLength(from, to)
  {
    var c := CommonPrefixLength(from, to);
    if k <= c {
      assert to[..k] == to[..c][..k];
      assert from[..k] == from[..c][..k];
    } else if k <= |to| {
      assert to[..k][c] != from[..k][c];
    }
  }

  /** `n` components `..`. */
  function Ups(n: nat): (r: Path)
    ensures |r| == n
    ensures forall i :: 0 <= i < n ==> r[i] == ParentDir
  {
    seq(n, _ => ParentDir)
  }

  /** `PathBuf::join`: an absolute argument replaces the base. */
  function Join(base: Path, rest: Path): Path {
    if IsAbsolute(rest) then rest else base + rest
  }

  /**
    What `relative_path` returns: with `k` the length of the longest
    ancestor of `from` that `to` starts with — the common prefix, when it is
    not shorter than the lowest ancestor — `|from| - k` components `..`
    joined with what follows that prefix in `to`; `to` itself when no
    ancestor qualifies.
  */
  function RelativePathSpec(from: Path, to: Path): Path {
    var k := CommonPrefixLength(from, to);
    if k < LowestAncestor(from) then to else Join(Ups(|from| - k), to[k..])
  }

  /**
    `relative_path`: search the ancestors of `from`, longest first, for one
    `to` starts with; push one `..` per component below it; join the rest
    of `to`.
  */
  method RelativePath(from: Path, to: Path) returns (r: Path)
    ensures r == RelativePathSpec(from, to)
  {
    var lowest := LowestAncestor(from);
    ghost var common := CommonPrefixLength(from, to);
    var k: int := |from|;
    while k >= lowest && !StartsWith(to, from[..k])
      invariant lowest - 1 <= k <= |from|
      invariant common <= k
      decreases k
    {
      StartsWithAncestor(from, to, k);
      k := k - 1;
    }
    if k < lowest {
      // no ancestor is a prefix of `to`
      return to;
    }
    StartsWithAncestor(from, to, k);
    var upward: Path := [];
    var i := k;
    while i < |from|
      invariant k <= i <= |from|
      invariant upward == Ups(i - k)
    {
      upward := upward + [ParentDir];
      i := i + 1;
    }
    assert k == common && upward == Ups(|from| - k);
    r := Join(upward, to[k..]);
  }

  // ---------------------------------------------------------------------
  // Resolving a relative path
  // ---------------------------------------------------------------------

  /**
    One component appended to a path, normalised lexically: `/` restarts at
    the root, `.` stays, `..` drops a trailing named component, a name is
    appended.
  */
  function Push(base: Path, c: Component): Path {
    match c
    case RootDir => [RootDir]
    case CurDir => base
    case ParentDir =>
      if |base| > 0 && base[|base| - 1].Normal? then base[..|base| - 1] else base + [ParentDir]
    case Normal(_) => base + [c]
  }

  /** `base.join(rel)`, normalised lexically: where `rel` leads from `base`. */
  function Resolve(base: Path, rel: Path): Path
    decreases |rel|
  {
    if |rel| == 0 then base else Resolve(Push(base, rel[0]), rel[1..])
  }

  /** Every component after the optional leading root is a plain name. */
  predicate Plain(p: Path) {
    forall i :: 0 <= i < |p| ==> p[i].Normal? || (i == 0 && p[i] == RootDir)
  }

  /** Every component is a plain name. */
  predicate Names(p: Path) {
    forall i :: 0 <= i < |p| ==> p[i].Normal?
  }

  lemma {:induction false} ResolveNames(base: Path, names: Path)
    requires Names(names)
    ensures Resolve(base, names) == base + names
    decreases |names|
  {
    if |names| > 0 {
      ResolveNames(base + [names[0]], names[1..]);
      assert base + [names[0]] + names[1..] == base + names;
    }
  }

  lemma {:induction false} ResolveUps(base: Path, n: nat, rest: Path)
    requires n <= |base|
    requires forall i :: |base| - n <= i < |base| ==> base[i].Normal?
    ensures Resolve(base, Ups(n) + rest) == Resolve(base[..|base| - n], rest)
    decreases n
  {
    if n > 0 {
      var rel := Ups(n) + rest;
      assert rel[0] == ParentDir;
      assert rel[1..] == Ups(n - 1) + rest;
      var popped := base[..|base| - 1];
      assert base[|base| - 1].Normal?;
      assert Push(base, ParentDir) == popped;
      assert Resolve(base, rel) == Resolve(popped, rel[1..]);
      ResolveUps(popped, n - 1, rest);
      assert popped[..|popped| - (n - 1)] == base[..|base| - n];
    } else {
      assert Ups(0) + rest == rest;
      assert base[..|base|] == base;
    }
  }

  /** An absolute plain path resolves to itself from anywhere. */
  lemma ResolveAbsolute(base: Path, p: Path)
    requires Plain(p) && IsAbsolute(p)
    ensures Resolve(base, p) == p
  {
    assert Resolve(base, p) == Resolve([RootDir], p[1..]);
    assert Names(p[1..]);
    ResolveNames([RootDir], p[1..]);
    assert [RootDir] + p[1..] == p;
  }

  /** The common prefix of two plain paths covers the root when both are absolute. */
  lemma PlainPrefix(from: Path, to: Path)
    requires Plain(from) && Plain(to)
    requires IsAbsolute(from) ==> IsAbsolute(to)
    ensures LowestAncestor(from) <= CommonPrefixLength(from, to)
    ensures forall i :: CommonPrefixLength(from, to) <= i < |from| ==> from[i].Normal?
    ensures IsAbsolute(to[CommonPrefixLength(from, to)..]) ==> CommonPrefixLength(from, to) == 0
    ensures !IsAbsolute(to[CommonPrefixLength(from, to)..]) ==> Names(to[CommonPrefixLength(from, to)..])
  {
    var k := CommonPrefixLength(from, to);
    if IsAbsolute(from) {
      assert from[0] == to[0];
    }
  }

  /** Climbing out of the names of `from` below the common prefix and descending into the rest of `to` reaches `to`. */
  lemma ResolveThroughPrefix(from: Path, to: Path, k: nat)
    requires k <= |from| && k <= |to| && from[..k] == to[..k]
    requires forall i :: k <= i < |from| ==> from[i].Normal?
    requires Names(to[k..])
    ensures Resolve(from, Ups(|from| - k) + to[k..]) == to
  {
    var n := |from| - k;
    ResolveUps(from, n, to[k..]);
    assert from[..|from| - n] == from[..k] == to[..k];
    ResolveNames(to[..k], to[k..]);
    assert to[..k] + to[k..] == to;
  }

  /**
    Resolving the result against `from` leads back to `to`, for plain paths
    where `to` is absolute whenever `from` is (a relative `to` cannot be
    reached from an absolute `from`, and is returned as it is).
  */
  lemma RelativePathResolves(from: Path, to: Path)
    requires Plain(from) && Plain(to)
    requires IsAbsolute(from) ==> IsAbsolute(to)
    ensures Resolve(from, RelativePathSpec(from, to)) == to
  {
    var k := CommonPrefixLength(from, to);
    PlainPrefix(from, to);
    if IsAbsolute(to[k..]) {
      assert to[k..] == to;
      ResolveAbsolute(from, to);
    } else {
      ResolveThroughPrefix(from, to, k);
    }
  }

  /** From a directory to itself the relative path is empty. */
  lemma RelativePathToSelf(p: Path)
    ensures RelativePathSpec(p, p) == []
  {
    assert p[..|p|] == p;
  }

  // ---------------------------------------------------------------------
  // A leading `.`
  // ---------------------------------------------------------------------

  /** The components `Path::components` yields for a path without `..`: names, after an optional leading `/` or `.`. */
  predicate Written(p: Path) {
    forall i :: 0 <= i < |p| ==> p[i].Normal? || (i == 0 && (p[i] == RootDir || p[i] == CurDir))
  }

  /** The path without its leading `.`, naming the same directory. */
  function DropCurDir(p: Path): (r: Path)
    ensures Written(p) ==> Plain(r)
    ensures Written(p) ==> (IsAbsolute(r) <==> IsAbsolute(p))
  {
    if |p| > 0 && p[0] == CurDir then p[1..] else p
  }

  /**
    As written, `relative_path` compares components, so `./a/b` and `a/c`
    (say `./migrations/alpha` and `migrations/v6`) share no ancestor but the
    empty path: all three components of `from`, `.` included, are climbed,
    and the result leads one directory above the one `to` names.
  */
  lemma LeadingCurDirMisses(a: string, b: string, c: string)
    ensures var from := [CurDir, Normal(a), Normal(b)];
            var to := [Normal(a), Normal(c)];
            && RelativePathSpec(from, to) == [ParentDir, ParentDir, ParentDir, Normal(a), Normal(c)]
            && Resolve(from, RelativePathSpec(from, to)) == [CurDir, ParentDir, Normal(a), Normal(c)]
            && DropCurDir(Resolve(from, RelativePathSpec(from, to))) != DropCurDir(to)
  {
    var from := [CurDir, Normal(a), Normal(b)];
    var to := [Normal(a), Normal(c)];
    assert CommonPrefixLength(from, to) == 0;
    assert Ups(3) == [ParentDir, ParentDir, ParentDir];
    var rel := [ParentDir, ParentDir, ParentDir, Normal(a), Normal(c)];
    assert RelativePathSpec(from, to) == rel;
    // one component at a time: `..` drops `b`, then `a`, then is kept after the `.`
    var rel1, rel2, rel3, rel4 := rel[1..], rel[2..], rel[3..], rel[4..];
    assert rel1 == [ParentDir, ParentDir, Normal(a), Normal(c)] && rel2 == rel1[1..];
    assert rel2 == [ParentDir, Normal(a), Normal(c)] && rel3 == rel2[1..];
    assert rel3 == [Normal(a), Normal(c)] && rel4 == rel3[1..] && rel4[1..] == [];
    assert Push(from, ParentDir) == [CurDir, Normal(a)];
    assert Push([CurDir, Normal(a)], ParentDir) == [CurDir];
    assert Push([CurDir], ParentDir) == [CurDir, ParentDir];
    assert Push([CurDir, ParentDir], Normal(a)) == [CurDir, ParentDir, Normal(a)];
    assert Resolve(from, rel) == Resolve([CurDir, Normal(a)], rel1);
    assert Resolve([CurDir, Normal(a)], rel1) == Resolve([CurDir], rel2);
    assert Resolve([CurDir], rel2) == Resolve([CurDir, ParentDir], rel3);
    assert Resolve([CurDir, ParentDir], rel3) == Resolve([CurDir, ParentDir, Normal(a)], rel4);
    assert Resolve([CurDir, ParentDir, Normal(a)], rel4) == Resolve([CurDir, ParentDir, Normal(a), Normal(c)], []);
  }

  /** `relative_path` with the leading `.` of both paths dropped before they are compared. */
  function RelativePathFromCurrent(from: Path, to: Path): (r: Path)
    // it is the tool's result whenever neither path starts with `.`
    ensures (|from| == 0 || from[0] != CurDir) && (|to| == 0 || to[0] != CurDir) ==> r == RelativePathSpec(from, to)
  {
    RelativePathSpec(DropCurDir(from), DropCurDir(to))
  }

  /** Every component is `..` or a name. */
  predicate Steps(p: Path) {
    forall i :: 0 <= i < |p| ==> p[i] == ParentDir || p[i].Normal?
  }

  /** A leading `.` of the base stays in front while `..` and names are resolved. */
  lemma {:induction false} ResolveBelowCurDir(base: Path, rel: Path)
    requires Steps(rel)
    ensures Resolve([CurDir] + base, rel) == [CurDir] + Resolve(base, rel)
    decreases |rel|
  {
    if |rel| > 0 {
      var dotted := [CurDir] + base;
      assert Push(dotted, rel[0]) == [CurDir] + Push(base, rel[0]) by {
        if rel[0] == ParentDir && |base| > 0 && base[|base| - 1].Normal? {
          assert dotted[..|dotted| - 1] == [CurDir] + base[..|base| - 1];
        }
      }
      assert Steps(rel[1..]);
      ResolveBelowCurDir(Push(base, rel[0]), rel[1..]);
    }
  }

  /** A path starting at the root resolves the same from any base. */
  lemma ResolveFromRoot(base: Path, other: Path, rel: Path)
    requires IsAbsolute(rel)
    ensures Resolve(base, rel) == Resolve(other, rel)
  {
    assert Resolve(base, rel) == Resolve([RootDir], rel[1..]);
    assert Resolve(other, rel) == Resolve([RootDir], rel[1..]);
  }

  /** Between plain paths, a result that does not start at the root is made of `..` and names only. */
  lemma RelativeSteps(from: Path, to: Path)
    requires Plain(from) && Plain(to)
    requires IsAbsolute(from) ==> IsAbsolute(to)
    requires !IsAbsolute(RelativePathSpec(from, to))
    ensures Steps(RelativePathSpec(from, to))
  {
    var k := CommonPrefixLength(from, to);
    PlainPrefix(from, to);
    var rest := to[k..];
    var n := |from| - k;
    assert !IsAbsolute(rest) && Names(rest);
    var rel := RelativePathSpec(from, to);
    assert rel == Ups(n) + rest;
    forall i | 0 <= i < |rel|
      ensures rel[i] == ParentDir || rel[i].Normal?
    {
      if i >= n {
        assert rel[i] == rest[i - n];
      }
    }
  }

  /**
    With the leading `.` dropped first, resolving the result against `from`
    reaches the directory `to` names, for paths without `..` where `to` is
    absolute whenever `from` is.
  */
  lemma RelativePathFromCurrentResolves(from: Path, to: Path)
    requires Written(from) && Written(to)
    requires IsAbsolute(from) ==> IsAbsolute(to)
    ensures DropCurDir(Resolve(from, RelativePathFromCurrent(from, to))) == DropCurDir(to)
  {
    var base, target := DropCurDir(from), DropCurDir(to);
    var rel := RelativePathSpec(base, target);
    assert rel == RelativePathFromCurrent(from, to);
    RelativePathResolves(base, target);
    if |from| > 0 && from[0] == CurDir {
      assert from == [CurDir] + base;
      if IsAbsolute(rel) {
        ResolveFromRoot(from, base, rel);
      } else {
        RelativeSteps(base, target);
        ResolveBelowCurDir(base, rel);
      }
    }
  }
}
