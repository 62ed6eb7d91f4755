/** The array-based union-find inside find_similar_files
    (src/videohash.rs): `parent[i]` is the parent of element `i`, and a root
    is its own parent. The source keeps no rank; the model threads a ghost
    rank that strictly grows from child to parent, which is what shows that
    every walk towards the root ends. */
module UnionFind {

  /** A rank bound for every element. */
  function Sup(rank: seq<nat>): (m: nat)
    ensures forall i :: 0 <= i < |rank| ==> rank[i] <= m
    decreases |rank|
  {
    if |rank| == 0 then 0
    else
      var m := Sup(rank[..|rank| - 1]);
      var last := rank[|rank| - 1];
      assert forall i :: 0 <= i < |rank| - 1 ==> rank[i] == rank[..|rank| - 1][i];
      if last > m then last else m
  }

  /** Every parent is an element, and every step towards a root strictly
      raises the rank. */
  predicate Valid(parent: seq<nat>, rank: seq<nat>) {
    && |rank| == |parent|
    && (forall i :: 0 <= i < |parent| ==> parent[i] < |parent|)
    && (forall i :: 0 <= i < |parent| && parent[i] != i ==> rank[i] < rank[parent[i]])
  }

  /** The root reached by following parents from `x`. */
  function Root(parent: seq<nat>, rank: seq<nat>, x: nat): (r: nat)
    requires Valid(parent, rank) && x < |parent|
    ensures r < |parent| && parent[r] == r
    ensures rank[x] <= rank[r]
    decreases Sup(rank) - rank[x]
  {
    if parent[x] == x then x else Root(parent, rank, parent[x])
  }

  /** The initial forest: every element is its own root. */
  function Singletons(n: nat): (parent: seq<nat>)
    ensures |parent| == n
    ensures forall i :: 0 <= i < n ==> parent[i] == i
  {
    seq(n, i => i)
  }

  lemma SingletonRoots(n: nat, rank: seq<nat>)
    requires |rank| == n
    ensures Valid(Singletons(n), rank)
    ensures forall i :: 0 <= i < n ==> Root(Singletons(n), rank, i) == i
  {
  }

  /** Every element has the same root in both forests. */
  predicate SameRoots(p: seq<nat>, q: seq<nat>, rank: seq<nat>)
    requires Valid(p, rank) && Valid(q, rank)
  {
    |p| == |q| && forall i :: 0 <= i < |p| ==> Root(p, rank, i) == Root(q, rank, i)
  }

  /** The root does not depend on which valid rank proves the walk finite. */
  lemma {:induction false} RootRankFree(parent: seq<nat>, r1: seq<nat>, r2: seq<nat>, x: nat)
    requires Valid(parent, r1) && Valid(parent, r2) && x < |parent|
    ensures Root(parent, r1, x) == Root(parent, r2, x)
    decreases Sup(r1) - r1[x]
  {
    if parent[x] != x {
      RootRankFree(parent, r1, r2, parent[x]);
    }
  }

  /** Pointing a non-root `a` at another element `t` of its own tree with a
      higher rank keeps the forest valid and every root as it was. */
  lemma {:induction false} Redirect(p: seq<nat>, rank: seq<nat>, a: nat, t: nat, x: nat)
    requires Valid(p, rank) && a < |p| && t < |p| && x < |p|
    requires p[a] != a && rank[a] < rank[t] && Root(p, rank, t) == Root(p, rank, a)
    ensures Valid(p[a := t], rank)
    ensures Root(p[a := t], rank, x) == Root(p, rank, x)
    decreases Sup(rank) - rank[x]
  {
    var q := p[a := t];
    if x == a {
      Redirect(p, rank, a, t, t);
    } else if p[x] != x {
      Redirect(p, rank, a, t, p[x]);
    }
  }

  lemma RedirectAll(p: seq<nat>, rank: seq<nat>, a: nat, t: nat)
    requires Valid(p, rank) && a < |p| && t < |p|
    requires p[a] != a && rank[a] < rank[t] && Root(p, rank, t) == Root(p, rank, a)
    ensures Valid(p[a := t], rank) && SameRoots(p, p[a := t], rank)
  {
    forall x | 0 <= x < |p|
      ensures Root(p[a := t], rank, x) == Root(p, rank, x)
    {
      Redirect(p, rank, a, t, x);
    }
  }

  /** _find: walks from `y` to its root. Each step moves on to the parent
      and re-points the element just left at its parent's grandparent, an
      element higher up the same tree. Every element keeps its root. */
  method Find(parent: seq<nat>, ghost rank: seq<nat>, y: nat) returns (x: nat, p: seq<nat>)
    requires Valid(parent, rank) && y < |parent|
    ensures Valid(p, rank) && SameRoots(parent, p, rank)
    ensures x == Root(parent, rank, y) && x < |p| && p[x] == x
  {
    x, p := y, parent;
    while p[x] != x
      invariant Valid(p, rank) && SameRoots(parent, p, rank) && x < |p|
      invariant Root(p, rank, x) == Root(parent, rank, y)
      decreases Sup(rank) - rank[x]
    {
      var tmp := x;
      x := p[x];
      var up := p[p[x]];
      HigherInTree(p, rank, tmp);
      RedirectAll(p, rank, tmp, up);
      ghost var before := p;
      p := p[tmp := up];
      SameRootsTrans(parent, before, p, rank);
    }
  }

  /** The grandparent of a non-root's parent lies higher up the same tree. */
  lemma HigherInTree(p: seq<nat>, rank: seq<nat>, a: nat)
    requires Valid(p, rank) && a < |p| && p[a] != a
    ensures rank[a] < rank[p[p[p[a]]]]
    ensures Root(p, rank, p[p[p[a]]]) == Root(p, rank, a)
  {
    var b := p[a];
    var c := p[b];
    var d := p[c];
    assert rank[b] <= rank[c] <= rank[d];
    assert Root(p, rank, a) == Root(p, rank, b);
    assert Root(p, rank, b) == Root(p, rank, c);
    assert Root(p, rank, c) == Root(p, rank, d);
  }

  /** An element is its own root exactly when it is its own parent. */
  lemma RootIsSelf(p: seq<nat>, rank: seq<nat>, r: nat)
    requires Valid(p, rank) && r < |p|
    ensures Root(p, rank, r) == r <==> p[r] == r
  {
  }

  /** Forests with the same roots have the same root elements. */
  lemma SameRootSet(p: seq<nat>, q: seq<nat>, rank: seq<nat>)
    requires Valid(p, rank) && Valid(q, rank) && SameRoots(p, q, rank)
    ensures forall r :: 0 <= r < |p| ==> (p[r] == r <==> q[r] == r)
  {
    forall r | 0 <= r < |p|
      ensures p[r] == r <==> q[r] == r
    {
      RootIsSelf(p, rank, r);
      RootIsSelf(q, rank, r);
    }
  }

  lemma SameRootsTrans(p: seq<nat>, q: seq<nat>, s: seq<nat>, rank: seq<nat>)
    requires Valid(p, rank) && Valid(q, rank) && Valid(s, rank)
    requires SameRoots(p, q, rank) && SameRoots(q, s, rank)
    ensures SameRoots(p, s, rank)
  {
  }

  /** Raising the rank of a root keeps the forest valid. */
  lemma RaiseRoot(p: seq<nat>, rank: seq<nat>, r: nat, k: nat)
    requires Valid(p, rank) && r < |p| && p[r] == r && rank[r] <= k
    ensures Valid(p, rank[r := k])
  {
  }

  /** Hanging root `a` under root `b` moves the elements of `a`'s tree to
      `b`'s and leaves every other root alone. */
  lemma {:induction false} Link(p: seq<nat>, rank: seq<nat>, a: nat, b: nat, x: nat)
    requires Valid(p, rank) && a < |p| && b < |p| && x < |p|
    requires p[a] == a && p[b] == b && a != b && rank[a] < rank[b]
    ensures Valid(p[a := b], rank)
    ensures Root(p[a := b], rank, x) == if Root(p, rank, x) == a then b else Root(p, rank, x)
    decreases Sup(rank) - rank[x]
  {
    if p[x] != x {
      Link(p, rank, a, b, p[x]);
    }
  }

  /** _union: finds both roots; equal roots leave every root as it was,
      otherwise the first root is hung under the second, so that exactly the
      first root's tree joins the second's. */
  method Union(parent: seq<nat>, ghost rank: seq<nat>, x: nat, y: nat) returns (p: seq<nat>, ghost rank': seq<nat>)
    requires Valid(parent, rank) && x < |parent| && y < |parent|
    ensures Valid(p, rank') && |p| == |parent|
    ensures forall i :: 0 <= i < |p| ==>
      Root(p, rank', i) == if Root(parent, rank, i) == Root(parent, rank, x) then Root(parent, rank, y) else Root(parent, rank, i)
    ensures Root(parent, rank, x) == Root(parent, rank, y) ==> forall r :: 0 <= r < |p| ==> (p[r] == r <==> parent[r] == r)
    ensures Root(parent, rank, x) != Root(parent, rank, y) ==>
      && p[Root(parent, rank, x)] == Root(parent, rank, y)
      && forall r :: 0 <= r < |p| ==> (p[r] == r <==> parent[r] == r && r != Root(parent, rank, x))
  {
    var xr, p1 := Find(parent, rank, x);
    var yr, p2 := Find(p1, rank, y);
    SameRootsTrans(parent, p1, p2, rank);
    SameRootSet(parent, p2, rank);
    if xr == yr {
      p, rank' := p2, rank;
      return;
    }
    rank' := rank[yr := if rank[yr] > rank[xr] then rank[yr] else rank[xr] + 1];
    RaiseRoot(p2, rank, yr, rank'[yr]);
    p := p2[xr := yr];
    forall i | 0 <= i < |p|
      ensures Root(p, rank', i) == if Root(parent, rank, i) == xr then yr else Root(parent, rank, i)
    {
      Link(p2, rank', xr, yr, i);
      RootRankFree(p2, rank, rank', i);
    }
  }
}
