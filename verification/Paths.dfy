/** Path resolution and path splitting of tools/totcopy.c, over any directory-step function. */
module Paths {
  import opened Bytes
  import opened Volume

  const SLASH: byte := 47
  const PARENT_MAX := 256

  type Path = seq<byte>

  /** `step(dir, name)`: the child of inode `dir` called `name`, or 0. */
  type Step = (nat, seq<byte>) -> nat

  function SkipSlashes(p: Path): (r: Path)
    ensures r == [] || r[0] != SLASH
    ensures |r| <= |p|
  {
    if p != [] && p[0] == SLASH then SkipSlashes(p[1..]) else p
  }

  /** Length of the first component. */
  function CompLen(p: Path): (n: nat)
    ensures n <= |p|
    ensures forall i :: 0 <= i < n ==> p[i] != SLASH
    ensures n < |p| ==> p[n] == SLASH
    ensures p != [] && p[0] != SLASH ==> n > 0
  {
    if p == [] || p[0] == SLASH then 0 else 1 + CompLen(p[1..])
  }

  function ResolveFrom(step: Step, cur: nat, p: Path): nat
    requires p == [] || p[0] != SLASH
    decreases |p|
  {
    if p == [] then cur
    else
      var n := CompLen(p);
      var child := step(cur, p[..n]);
      if child == 0 then 0 else ResolveFrom(step, child, SkipSlashes(p[n..]))
  }

  function Resolve(step: Step, p: Path): nat {
    if p == [] then 0 else ResolveFrom(step, ROOT, SkipSlashes(p))
  }

  /** Index of the last slash, or -1. */
  function LastSlash(p: Path): (s: int)
    ensures -1 <= s < |p|
    ensures s >= 0 ==> p[s] == SLASH
    ensures forall i :: s < i < |p| ==> p[i] != SLASH
  {
    if p == [] then -1
    else if p[|p| - 1] == SLASH then |p| - 1
    else LastSlash(p[..|p| - 1])
  }

  /** The whole parent path, before the 256-byte buffer of `do_copy` cuts it. */
  function FullParent(p: Path): Path {
    if LastSlash(p) <= 0 then [SLASH] else p[..LastSlash(p)]
  }

  /** The parent path as `split_path` returns it. */
  function Parent(p: Path): Path {
    FullParent(p)[..Min(|FullParent(p)|, PARENT_MAX - 1)]
  }

  function Base(p: Path): (b: Path)
    ensures forall i :: 0 <= i < |b| ==> b[i] != SLASH
  {
    p[LastSlash(p) + 1..]
  }

  lemma ResolveStep(step: Step, cur: nat, p: Path)
    requires p != [] && p[0] != SLASH
    ensures var n := CompLen(p);
      ResolveFrom(step, cur, p) == if step(cur, p[..n]) == 0 then 0 else ResolveFrom(step, step(cur, p[..n]), SkipSlashes(p[n..]))
  {
    hide CompLen, SkipSlashes;
  }

  lemma ResolveDone(step: Step, cur: nat)
    ensures ResolveFrom(step, cur, []) == cur
  {
  }

  // ---- the path law ----

  lemma {:induction false} SkipAppend(z: Path, base: Path)
    requires base != [] && base[0] != SLASH
    ensures SkipSlashes(z + [SLASH] + base) ==
      if SkipSlashes(z) == [] then base else SkipSlashes(z) + [SLASH] + base
  {
    var all := z + [SLASH] + base;
    if z == [] {
      assert all == [SLASH] + base && all[1..] == base;
    } else if z[0] == SLASH {
      assert all[1..] == z[1..] + [SLASH] + base;
      SkipAppend(z[1..], base);
    }
  }

  lemma {:induction false} CompAppend(x: Path, w: Path)
    ensures CompLen(x + [SLASH] + w) == CompLen(x)
  {
    var all := x + [SLASH] + w;
    if x != [] && x[0] != SLASH {
      assert all[1..] == x[1..] + [SLASH] + w;
      CompAppend(x[1..], w);
    }
  }

  lemma ResolveOne(step: Step, cur: nat, base: Path)
    requires base != [] && forall i :: 0 <= i < |base| ==> base[i] != SLASH
    ensures ResolveFrom(step, cur, base) == step(cur, base)
  {
    var n := CompLen(base);
    assert n == |base| && base[..n] == base && base[n..] == [];
  }

  lemma {:induction false} ResolveAppend(step: Step, cur: nat, x: Path, base: Path)
    requires x != [] && x[0] != SLASH
    requires base != [] && forall i :: 0 <= i < |base| ==> base[i] != SLASH
    ensures var c := ResolveFrom(step, cur, x);
      ResolveFrom(step, cur, x + [SLASH] + base) == if c == 0 then 0 else step(c, base)
    decreases |x|
  {
    var all, n := x + [SLASH] + base, CompLen(x);
    CompAppend(x, base);
    assert all[..n] == x[..n] && all[n..] == x[n..] + [SLASH] + base;
    var child := step(cur, x[..n]);
    if child != 0 {
      SkipAppend(x[n..], base);
      var y := SkipSlashes(x[n..]);
      if y == [] { ResolveOne(step, child, base); } else { ResolveAppend(step, child, y, base); }
    }
  }

  /** A path resolves to its base name looked up in its parent, whatever repeated or
      leading slashes it has. */
  lemma ResolveIsLookupInParent(step: Step, p: Path)
    requires Base(p) != []
    ensures var c := Resolve(step, FullParent(p));
      Resolve(step, p) == if c == 0 then 0 else step(c, Base(p))
  {
    var s, base := LastSlash(p), Base(p);
    if s == -1 {
      assert p == base;
      ResolveOne(step, ROOT, base);
    } else {
      assert p == p[..s] + [SLASH] + base;
      SkipAppend(p[..s], base);
      var y := SkipSlashes(p[..s]);
      if y == [] { ResolveOne(step, ROOT, base); } else { ResolveAppend(step, ROOT, y, base); }
    }
  }

  /** The empty path is not found, and any number of slashes is the root. */
  lemma {:induction false} ResolveSlashes(step: Step, n: nat)
    ensures Resolve(step, []) == 0 && Resolve(step, seq(n + 1, _ => SLASH)) == 1
    decreases n
  {
    var p: Path := seq(n + 1, _ => SLASH);
    if n > 0 {
      ResolveSlashes(step, n - 1);
      assert p[1..] == seq(n, _ => SLASH);
    } else {
      assert p[1..] == [];
    }
  }

  lemma {:induction false} SkipTrailing(p: Path)
    ensures SkipSlashes(p + [SLASH]) == if SkipSlashes(p) == [] then [] else SkipSlashes(p) + [SLASH]
  {
    var all := p + [SLASH];
    if p == [] {
      assert all[1..] == [];
    } else if p[0] == SLASH {
      assert all[1..] == p[1..] + [SLASH];
      SkipTrailing(p[1..]);
    }
  }

  lemma {:induction false} ResolveFromTrailing(step: Step, cur: nat, x: Path)
    requires x != [] && x[0] != SLASH
    ensures ResolveFrom(step, cur, x + [SLASH]) == ResolveFrom(step, cur, x)
    decreases |x|
  {
    var all, n := x + [SLASH], CompLen(x);
    CompAppend(x, []);
    assert x + [SLASH] + [] == all;
    assert all[..n] == x[..n] && all[n..] == x[n..] + [SLASH];
    var child := step(cur, x[..n]);
    if child != 0 {
      SkipTrailing(x[n..]);
      var y := SkipSlashes(x[n..]);
      if y != [] { ResolveFromTrailing(step, child, y); }
    }
  }

  /** A trailing slash changes nothing. */
  lemma TrailingSlash(step: Step, p: Path)
    requires p != []
    ensures Resolve(step, p + [SLASH]) == Resolve(step, p)
  {
    SkipTrailing(p);
    if SkipSlashes(p) != [] { ResolveFromTrailing(step, ROOT, SkipSlashes(p)); }
  }

  // ---- comparing two namespaces ----

  /** If the second namespace agrees with the first on every answer of the first, from
      every inode in `known`, then every path that resolved before resolves to the same inode. */
  lemma {:induction false} ResolveFromKept(a: Step, b: Step, known: set<nat>, cur: nat, p: Path)
    requires p == [] || p[0] != SLASH
    requires cur in known
    requires forall c, n :: c in known && n != [] && a(c, n) != 0 ==> b(c, n) == a(c, n) && a(c, n) in known
    requires ResolveFrom(a, cur, p) != 0
    ensures ResolveFrom(b, cur, p) == ResolveFrom(a, cur, p)
    decreases |p|
  {
    if p != [] {
      var n := CompLen(p);
      assert a(cur, p[..n]) != 0 && p[..n] != [];
      ResolveFromKept(a, b, known, a(cur, p[..n]), SkipSlashes(p[n..]));
    }
  }

  /** Two namespaces that give the same answers from every inode in `known` resolve every
      path alike. */
  lemma {:induction false} ResolveFromSame(a: Step, b: Step, known: set<nat>, cur: nat, p: Path)
    requires p == [] || p[0] != SLASH
    requires cur in known
    requires forall c, n :: c in known && n != [] ==> b(c, n) == a(c, n) && (a(c, n) != 0 ==> a(c, n) in known)
    ensures ResolveFrom(b, cur, p) == ResolveFrom(a, cur, p)
    ensures ResolveFrom(a, cur, p) == 0 || ResolveFrom(a, cur, p) in known
    decreases |p|
  {
    if p != [] {
      var n := CompLen(p);
      assert p[..n] != [];
      var child := a(cur, p[..n]);
      if child != 0 { ResolveFromSame(a, b, known, child, SkipSlashes(p[n..])); }
    }
  }

  /** If moreover every new answer is the childless inode `added`, then a path resolves to
      something new only if it resolves to `added`. */
  lemma {:induction false} ResolveFromNew(a: Step, b: Step, known: set<nat>, added: nat, cur: nat, p: Path)
    requires p == [] || p[0] != SLASH
    requires cur in known
    requires forall c, n :: c in known && n != [] ==>
      (b(c, n) == a(c, n) && (a(c, n) != 0 ==> a(c, n) in known)) || b(c, n) == added
    requires forall n :: b(added, n) == 0
    ensures ResolveFrom(b, cur, p) in {0, added, ResolveFrom(a, cur, p)}
    decreases |p|
  {
    if p != [] {
      var n := CompLen(p);
      assert p[..n] != [];
      var child := b(cur, p[..n]);
      var rest := SkipSlashes(p[n..]);
      if child == added {
        if rest != [] { assert b(added, rest[..CompLen(rest)]) == 0; }
      } else if child != 0 {
        ResolveFromNew(a, b, known, added, child, rest);
      }
    }
  }

  // ---- joining a path and a name ----

  /** The parent handed on is the whole one up to 255 bytes and its first 255 bytes beyond; a path
      with at most a leading slash has the root as parent and the rest as base name. */
  lemma SplitCases(p: Path, name: Path)
    requires forall i :: 0 <= i < |name| ==> name[i] != 47
    ensures Parent(p) == if |FullParent(p)| <= 255 then FullParent(p) else FullParent(p)[..255]
    ensures FullParent(name) == [47] && Base(name) == name
    ensures FullParent([47] + name) == [47] && Base([47] + name) == name
  {
    assert LastSlash(name) == -1;
    assert ([47] + name)[0] == 47 && forall i :: 0 < i < |[47] + name| ==> ([47] + name)[i] == name[i - 1];
    assert LastSlash([47] + name) == 0;
  }

  lemma JoinParts(parent: Path, name: Path)
    requires parent != [] && forall i :: 0 <= i < |name| ==> name[i] != SLASH
    ensures var q := parent + [SLASH] + name; FullParent(q) == parent && Base(q) == name
  {
    hide LastSlash;
    var q := parent + [SLASH] + name;
    assert q[|parent|] == SLASH && forall i :: |parent| < i < |q| ==> q[i] == name[i - |parent| - 1];
    assert LastSlash(q) == |parent|;
  }
}
