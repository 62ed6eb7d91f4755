/** find_similar_files (src/videohash.rs): videos whose histograms are
    closer than a threshold are joined with a union-find, and every group of
    two or more joined videos is reported. A group is given by the positions
    of its videos in `files`, which is what the source's references into
    `files` are. */
module SimilarVideos {
  import opened Base
  import opened UnionFind
  import opened Connectivity
  import opened VideoHashes

  /** Every cell of the histogram is zero. */
  predicate AllZero(h: seq<byte>) {
    forall k :: 0 <= k < |h| ==> h[k] == 0
  }

  /** `dist` is an n x n matrix. */
  predicate Square(dist: seq<seq<nat>>, n: nat) {
    |dist| == n && forall i :: 0 <= i < n ==> |dist[i]| == n
  }

  /** The pair (i, j) with i <= j is joined: the first video's histogram is
      not all zeros and the distance is below the threshold. */
  predicate Joinable(files: seq<VideoHash>, dist: seq<seq<nat>>, threshold: nat, i: nat, j: nat) {
    && i <= j < |files| && Square(dist, |files|)
    && !AllZero(files[i].histogram) && dist[i][j] < threshold
  }

  /** All joined pairs. */
  ghost function Joins(files: seq<VideoHash>, dist: seq<seq<nat>>, threshold: nat): set<(nat, nat)> {
    set i: nat, j: nat | i <= j < |files| && Joinable(files, dist, threshold, i, j) :: (i, j)
  }

  /** The strictly increasing positions of one group. */
  predicate Increasing(s: seq<nat>) {
    forall i, j :: 0 <= i < j < |s| ==> s[i] < s[j]
  }

  /** Some group holds both a and b. */
  ghost predicate Together(bags: seq<seq<nat>>, a: nat, b: nat) {
    exists q :: 0 <= q < |bags| && a in bags[q] && b in bags[q]
  }

  /** The groups are the connected components of the join graph over
      0..n-1 that have two or more members: every group lists positions in
      increasing order and has at least two, no position is in two groups,
      and two different positions share a group exactly when a chain of
      joined pairs links them. */
  ghost predicate SimilarBags(n: nat, edges: set<(nat, nat)>, bags: seq<seq<nat>>) {
    && (forall q :: 0 <= q < |bags| ==> |bags[q]| > 1 && Increasing(bags[q]))
    && (forall q, e :: 0 <= q < |bags| && e in bags[q] ==> e < n)
    && (forall q1, q2, e :: 0 <= q1 < q2 < |bags| && e in bags[q1] ==> e !in bags[q2])
    && (forall a, b :: 0 <= a < n && 0 <= b < n && a != b ==> (Together(bags, a, b) <==> Connected(edges, a, b)))
  }

  /** Two elements share a root exactly when the edges so far connect them. */
  ghost predicate Tracks(parent: seq<nat>, rank: seq<nat>, edges: set<(nat, nat)>, n: nat) {
    && Valid(parent, rank) && |parent| == n
    && forall a, b :: 0 <= a < n && 0 <= b < n ==>
         (Root(parent, rank, a) == Root(parent, rank, b) <==> Connected(edges, a, b))
  }

  lemma StartTracks(n: nat, rank: seq<nat>)
    requires |rank| == n
    ensures Tracks(Singletons(n), rank, {}, n)
  {
    SingletonRoots(n, rank);
    forall a, b | 0 <= a < n && 0 <= b < n
      ensures Root(Singletons(n), rank, a) == Root(Singletons(n), rank, b) <==> Connected({}, a, b)
    {
      NoEdges(a, b);
    }
  }

  /** A union of x and y is what adding the edge (x, y) does to the roots. */
  lemma UnionTracks(parent: seq<nat>, rank: seq<nat>, p: seq<nat>, rank': seq<nat>,
                    edges: set<(nat, nat)>, x: nat, y: nat, n: nat)
    requires Tracks(parent, rank, edges, n) && x < n && y < n
    requires Valid(p, rank') && |p| == n
    requires forall i :: 0 <= i < n ==>
      Root(p, rank', i) == if Root(parent, rank, i) == Root(parent, rank, x) then Root(parent, rank, y) else Root(parent, rank, i)
    ensures Tracks(p, rank', edges + {(x, y)}, n)
  {
    forall a, b | 0 <= a < n && 0 <= b < n
      ensures Root(p, rank', a) == Root(p, rank', b) <==> Connected(edges + {(x, y)}, a, b)
    {
      AddEdge(edges, x, y, a, b);
      assert Connected(edges, a, x) <==> Root(parent, rank, a) == Root(parent, rank, x);
      assert Connected(edges, y, b) <==> Root(parent, rank, y) == Root(parent, rank, b);
      assert Connected(edges, a, y) <==> Root(parent, rank, a) == Root(parent, rank, y);
      assert Connected(edges, x, b) <==> Root(parent, rank, x) == Root(parent, rank, b);
    }
  }

  /** find_similar_files: joins every pair (i, j), i <= j, whose distance is
      below the threshold, skipping a first video whose histogram is all
      zeros; then groups the positions by root, in position order, and keeps
      the groups of two or more. */
  method FindSimilarFiles(files: seq<VideoHash>, dist: seq<seq<nat>>, threshold: nat) returns (bags: seq<seq<nat>>)
    requires Square(dist, |files|)
    ensures SimilarBags(|files|, Joins(files, dist, threshold), bags)
  {
    var n := |files|;
    var parent := Singletons(n);
    ghost var rank: seq<nat> := seq(n, _ => 0);
    ghost var edges: set<(nat, nat)> := {};
    StartTracks(n, rank);
    for i := 0 to n
      invariant Tracks(parent, rank, edges, n)
      invariant forall e :: e in edges <==> e.0 < i && Joinable(files, dist, threshold, e.0, e.1)
    {
      if AllZero(files[i].histogram) {
        continue;
      }
      for j := i to n
        invariant Tracks(parent, rank, edges, n)
        invariant forall e :: e in edges <==> Joinable(files, dist, threshold, e.0, e.1) && (e.0 < i || (e.0 == i && e.1 < j))
      {
        if dist[i][j] < threshold {
          var p, rank' := Union(parent, rank, i, j);
          UnionTracks(parent, rank, p, rank', edges, i, j, n);
          parent, rank := p, rank';
          edges := edges + {(i, j)};
        }
      }
    }
    assert edges == Joins(files, dist, threshold);
    var groups := GroupByRoot(parent, rank);
    ghost var owners;
    bags, owners := KeepShared(groups);
    Grouped(n, edges, parent, rank, groups, bags, owners);
  }

  /** A pair the loop joins directly ends up in one group. */
  lemma JoinedTogether(files: seq<VideoHash>, dist: seq<seq<nat>>, threshold: nat, bags: seq<seq<nat>>, i: nat, j: nat)
    requires SimilarBags(|files|, Joins(files, dist, threshold), bags)
    requires Joinable(files, dist, threshold, i, j) && i != j
    ensures Together(bags, i, j)
  {
    assert (i, j) in Joins(files, dist, threshold);
    EdgeConnected(Joins(files, dist, threshold), i, j);
  }

  /** The positions below `upto` with root `r`, in increasing order. */
  ghost predicate GroupOf(forest: seq<nat>, rank: seq<nat>, r: nat, g: seq<nat>, upto: nat)
    requires Valid(forest, rank) && upto <= |forest|
  {
    && Increasing(g)
    && forall e :: e in g <==> 0 <= e < upto && Root(forest, rank, e) == r
  }

  /** Appending the next position to the group of its root. */
  lemma GroupStep(forest: seq<nat>, rank: seq<nat>, r: nat, g: seq<nat>, idx: nat)
    requires Valid(forest, rank) && idx < |forest| && Root(forest, rank, idx) == r
    requires GroupOf(forest, rank, r, g, idx)
    ensures GroupOf(forest, rank, r, g + [idx], idx + 1)
  {
    var g' := g + [idx];
    forall i, j | 0 <= i < j < |g'|
      ensures g'[i] < g'[j]
    {
      assert g'[i] == g[i];
      if j < |g| {
        assert g'[j] == g[j];
      } else {
        assert g[i] in g;
      }
    }
  }

  /** Other groups do not change when the next position joins one. */
  lemma GroupOther(forest: seq<nat>, rank: seq<nat>, r: nat, g: seq<nat>, idx: nat)
    requires Valid(forest, rank) && idx < |forest| && Root(forest, rank, idx) != r
    requires GroupOf(forest, rank, r, g, idx)
    ensures GroupOf(forest, rank, r, g, idx + 1)
  {
  }

  /** `groups` holds, under the root of each, the positions below `upto`. */
  ghost predicate GroupsUpTo(forest: seq<nat>, rank: seq<nat>, groups: map<nat, seq<nat>>, upto: nat)
    requires Valid(forest, rank) && upto <= |forest|
  {
    && (forall r :: r in groups ==> GroupOf(forest, rank, r, groups[r], upto))
    && (forall e :: 0 <= e < upto ==> Root(forest, rank, e) in groups)
  }

  /** One step of the bag-building loop keeps every group exact. */
  lemma GroupsStep(forest: seq<nat>, rank: seq<nat>, groups: map<nat, seq<nat>>, r: nat, bag: seq<nat>, idx: nat)
    requires Valid(forest, rank) && idx < |forest| && r == Root(forest, rank, idx)
    requires GroupsUpTo(forest, rank, groups, idx)
    requires bag == if r in groups then groups[r] else []
    ensures GroupsUpTo(forest, rank, groups[r := bag + [idx]], idx + 1)
  {
    assert GroupOf(forest, rank, r, bag, idx);
    GroupStep(forest, rank, r, bag, idx);
    forall r' | r' in groups && r' != r
      ensures GroupOf(forest, rank, r', groups[r'], idx + 1)
    {
      GroupOther(forest, rank, r', groups[r'], idx);
    }
  }

  /** The bag-building loop: every position, in order, is appended to the
      group of its root, found with _find (which shortens paths but keeps
      every root). */
  method GroupByRoot(forest: seq<nat>, ghost rank: seq<nat>) returns (groups: map<nat, seq<nat>>)
    requires Valid(forest, rank)
    ensures forall r :: r in groups ==> GroupOf(forest, rank, r, groups[r], |forest|)
    ensures forall e :: 0 <= e < |forest| ==> Root(forest, rank, e) in groups
  {
    var parent := forest;
    groups := map[];
    for idx := 0 to |forest|
      invariant Valid(parent, rank) && SameRoots(forest, parent, rank)
      invariant GroupsUpTo(forest, rank, groups, idx)
    {
      var r, p := Find(parent, rank, idx);
      SameRootsTrans(forest, parent, p, rank);
      parent := p;
      assert r == Root(forest, rank, idx);
      var bag := if r in groups then groups[r] else [];
      GroupsStep(forest, rank, groups, r, bag, idx);
      groups := groups[r := bag + [idx]];
    }
  }

  /** filebags.into_values().filter(len > 1): the groups of two or more, in
      the unspecified order of the map's values; `owners` names the root of
      each. */
  method KeepShared(groups: map<nat, seq<nat>>) returns (bags: seq<seq<nat>>, ghost owners: seq<nat>)
    ensures |owners| == |bags|
    ensures forall q :: 0 <= q < |bags| ==> owners[q] in groups && bags[q] == groups[owners[q]] && |bags[q]| > 1
    ensures Distinct(owners)
    ensures forall r :: r in groups && |groups[r]| > 1 ==> r in owners
    ensures forall q :: 0 <= q < |bags| ==> |bags[q]| > 1 && bags[q] in groups.Values
    ensures forall r :: r in groups && |groups[r]| > 1 ==> groups[r] in bags
  {
    var keys := Enumerate(groups.Keys);
    bags := [];
    owners := [];
    for k := 0 to |keys|
      invariant |bags| == |owners|
      invariant forall q :: 0 <= q < |bags| ==> owners[q] in groups && bags[q] == groups[owners[q]] && |bags[q]| > 1
      invariant forall q :: 0 <= q < |owners| ==> owners[q] in keys[..k]
      invariant Distinct(owners)
      invariant forall j :: 0 <= j < k && |groups[keys[j]]| > 1 ==> keys[j] in owners
    {
      if |groups[keys[k]]| > 1 {
        assert keys[k] !in keys[..k];
        bags := bags + [groups[keys[k]]];
        owners := owners + [keys[k]];
      }
    }
    forall q | 0 <= q < |bags|
      ensures bags[q] in groups.Values
    {
      assert groups[owners[q]] in groups.Values;
    }
    forall r | r in groups && |groups[r]| > 1
      ensures groups[r] in bags
    {
      var q :| 0 <= q < |owners| && owners[q] == r;
      assert bags[q] == groups[r];
    }
  }

  /** Two different elements of one sequence make it at least two long. */
  lemma TwoApart(s: seq<nat>, a: nat, b: nat)
    requires a in s && b in s && a != b
    ensures |s| > 1
  {
  }

  lemma Grouped(n: nat, edges: set<(nat, nat)>, forest: seq<nat>, rank: seq<nat>,
                groups: map<nat, seq<nat>>, bags: seq<seq<nat>>, owners: seq<nat>)
    requires Tracks(forest, rank, edges, n)
    requires forall r :: r in groups ==> GroupOf(forest, rank, r, groups[r], n)
    requires forall e :: 0 <= e < n ==> Root(forest, rank, e) in groups
    requires |owners| == |bags|
    requires forall q :: 0 <= q < |bags| ==> owners[q] in groups && bags[q] == groups[owners[q]] && |bags[q]| > 1
    requires Distinct(owners)
    requires forall r :: r in groups && |groups[r]| > 1 ==> r in owners
    ensures SimilarBags(n, edges, bags)
  {
    forall q1, q2, e | 0 <= q1 < q2 < |bags| && e in bags[q1]
      ensures e !in bags[q2]
    {
    }
    forall a, b | 0 <= a < n && 0 <= b < n && a != b
      ensures Together(bags, a, b) <==> Connected(edges, a, b)
    {
      GroupedPair(n, edges, forest, rank, groups, bags, owners, a, b);
    }
  }

  lemma GroupedPair(n: nat, edges: set<(nat, nat)>, forest: seq<nat>, rank: seq<nat>,
                    groups: map<nat, seq<nat>>, bags: seq<seq<nat>>, owners: seq<nat>, a: nat, b: nat)
    requires Tracks(forest, rank, edges, n)
    requires forall r :: r in groups ==> GroupOf(forest, rank, r, groups[r], n)
    requires forall e :: 0 <= e < n ==> Root(forest, rank, e) in groups
    requires |owners| == |bags|
    requires forall q :: 0 <= q < |bags| ==> owners[q] in groups && bags[q] == groups[owners[q]]
    requires forall r :: r in groups && |groups[r]| > 1 ==> r in owners
    requires a < n && b < n && a != b
    ensures Together(bags, a, b) <==> Connected(edges, a, b)
  {
    if Together(bags, a, b) {
      var q :| 0 <= q < |bags| && a in bags[q] && b in bags[q];
      assert GroupOf(forest, rank, owners[q], groups[owners[q]], n);
    }
    if Connected(edges, a, b) {
      var r := Root(forest, rank, a);
      assert GroupOf(forest, rank, r, groups[r], n);
      assert a in groups[r] && b in groups[r];
      TwoApart(groups[r], a, b);
      var q :| 0 <= q < |bags| && owners[q] == r;
      assert a in bags[q] && b in bags[q];
    }
  }
}
