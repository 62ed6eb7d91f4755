/** The unit test of find_similar_files (src/videohash.rs): five videos of
    which 1 and 2, and 3 and 5, are close; with threshold 128 exactly these
    two pairs come back as groups. The videos are listed in id order, the
    order in which the joined table is scanned. */
module SimilarExample {
  import opened Base
  import opened Connectivity
  import opened VideoHashes
  import opened SimilarVideos

  function TestHashes(): (files: seq<VideoHash>)
    ensures |files| == 5 && OrderedLengths(files)
  {
    [ VideoHash(1, "/tmp/a.mp4", [0xff, 0x00, 0xff, 0x00], 10),
      VideoHash(2, "/tmp/b.mp4", [0xff, 0x01, 0xff, 0x00], 11),
      VideoHash(3, "/tmp/c.wmv", [0x00, 0x00, 0x00, 0xa0], 12),
      VideoHash(4, "/tmp/d.avi", [0x00, 0xff, 0x00, 0xff], 13),
      VideoHash(5, "tmp/e.wmv", [0x00, 0x00, 0x00, 0xa2], 15) ]
  }

  /** The pairs joined in the test: every video with itself, 1 with 2 and
      3 with 5 (as positions: 0 with 1, 2 with 4). */
  function TestEdges(): set<(nat, nat)> {
    {(0, 0), (1, 1), (2, 2), (3, 3), (4, 4), (0, 1), (2, 4)}
  }

  /** The L1 distance of two four-cell histograms, cell by cell. */
  lemma L1Four(a: seq<byte>, b: seq<byte>)
    requires |a| == 4 && |b| == 4
    ensures L1(a, b) == AbsDiff(a[0], b[0]) + AbsDiff(a[1], b[1]) + AbsDiff(a[2], b[2]) + AbsDiff(a[3], b[3])
  {
    assert L1(a[..1], b) == AbsDiff(a[0], b[0]) by {
      assert a[..1][..0] == [];
    }
    assert L1(a[..2], b) == L1(a[..1], b) + AbsDiff(a[1], b[1]) by {
      assert a[..2][..1] == a[..1];
    }
    assert L1(a[..3], b) == L1(a[..2], b) + AbsDiff(a[2], b[2]) by {
      assert a[..3][..2] == a[..2];
    }
    assert a[..3] == a[..|a| - 1];
  }

  /** No cell differs by more than the whole distance. */
  lemma {:induction false} L1AtLeast(a: seq<byte>, b: seq<byte>, k: nat)
    requires |a| <= |b| && k < |a|
    ensures L1(a, b) >= AbsDiff(a[k], b[k])
    decreases |a|
  {
    if k < |a| - 1 {
      L1AtLeast(a[..|a| - 1], b, k);
    }
  }

  /** The pairs 1, 2 and 3, 5 are 1 and 2 apart. */
  lemma ClosePairs()
    ensures L1(TestHashes()[0].histogram, TestHashes()[1].histogram) == 1
    ensures L1(TestHashes()[2].histogram, TestHashes()[4].histogram) == 2
  {
    var f := TestHashes();
    L1Four(f[0].histogram, f[1].histogram);
    L1Four(f[2].histogram, f[4].histogram);
  }

  /** Every other pair differs by at least 128 in its first or second cell. */
  lemma FarPair(i: nat, j: nat)
    requires i < j < 5 && (i, j) != (0, 1) && (i, j) != (2, 4)
    ensures L1(TestHashes()[i].histogram, TestHashes()[j].histogram) >= 128
  {
    var f := TestHashes();
    var k := if i <= 1 && (j == 2 || j == 4) then 0 else 1;
    L1AtLeast(f[i].histogram, f[j].histogram, k);
  }

  /** With threshold 128 a pair i < j is joined exactly when it is one of
      the two close pairs. */
  lemma PairJoined(dist: seq<seq<nat>>, i: nat, j: nat)
    requires DistancesOf(TestHashes(), dist) && i < j < 5
    ensures dist[i][j] < 128 <==> (i, j) == (0, 1) || (i, j) == (2, 4)
  {
    var f := TestHashes();
    L1Exact(f[i].histogram, f[j].histogram);
    if (i, j) != (0, 1) && (i, j) != (2, 4) {
      FarPair(i, j);
    } else {
      ClosePairs();
    }
  }

  /** A pair i <= j is joined exactly when it is in TestEdges: no
      histogram of the test is all zeros. */
  lemma JoinableIff(dist: seq<seq<nat>>, i: nat, j: nat)
    requires DistancesOf(TestHashes(), dist) && i <= j < 5
    ensures Joinable(TestHashes(), dist, 128, i, j) <==> (i, j) in TestEdges()
  {
    var f := TestHashes();
    assert f[i].histogram[0] != 0 || f[i].histogram[1] != 0 || f[i].histogram[3] != 0;
    if i < j {
      PairJoined(dist, i, j);
    }
  }

  /** With threshold 128 the joined pairs are exactly TestEdges. */
  lemma TestJoins(dist: seq<seq<nat>>)
    requires DistancesOf(TestHashes(), dist)
    ensures Joins(TestHashes(), dist, 128) == TestEdges()
  {
    var f := TestHashes();
    forall e | e in TestEdges()
      ensures e in Joins(f, dist, 128)
    {
      JoinableIff(dist, e.0, e.1);
    }
    forall i: nat, j: nat | i <= j < 5 && Joinable(f, dist, 128, i, j)
      ensures (i, j) in TestEdges()
    {
      JoinableIff(dist, i, j);
    }
  }

  /** The connected parts of TestEdges. */
  function Part(x: nat): set<nat> {
    if x <= 1 then {0, 1} else if x == 3 then {3} else {2, 4}
  }

  lemma StaysInPart(a: nat, b: nat)
    requires a < 5 && Connected(TestEdges(), a, b)
    ensures b in Part(a)
  {
    if b !in Part(a) {
      Separated(TestEdges(), Part(a), a, b);
    }
  }

  /** Every group is [0, 1] or [2, 4]. */
  lemma BagShape(bags: seq<seq<nat>>, q: nat)
    requires SimilarBags(5, TestEdges(), bags) && q < |bags|
    ensures bags[q] == [0, 1] || bags[q] == [2, 4]
  {
    var b := bags[q];
    assert b[0] in b && b[1] in b;
    assert Together(bags, b[0], b[1]);
    StaysInPart(b[0], b[1]);
    if |b| > 2 {
      assert b[2] in b;
      assert Together(bags, b[0], b[2]);
      StaysInPart(b[0], b[2]);
      assert false;
    }
    assert b == [b[0], b[1]];
  }

  /** The group holding `a` and `b`, when they are joined directly. */
  lemma BagOfEdge(bags: seq<seq<nat>>, a: nat, b: nat) returns (q: nat)
    requires SimilarBags(5, TestEdges(), bags) && (a, b) in TestEdges() && a != b && b < 5
    ensures q < |bags| && a in bags[q] && b in bags[q]
  {
    EdgeConnected(TestEdges(), a, b);
    q :| 0 <= q < |bags| && a in bags[q] && b in bags[q];
  }

  /** The ids of the videos of one group. */
  function Ids(files: seq<VideoHash>, bag: seq<nat>): (ids: seq<int>)
    requires forall e :: e in bag ==> e < |files|
    ensures |ids| == |bag|
  {
    seq(|bag|, k requires 0 <= k < |bag| => assert bag[k] in bag; files[bag[k]].id)
  }

  /** The id list of a group of the test. */
  lemma BagIds(bags: seq<seq<nat>>, q: nat)
    requires SimilarBags(5, TestEdges(), bags) && q < |bags|
    ensures bags[q] == [0, 1] ==> Ids(TestHashes(), bags[q]) == [1, 2]
    ensures bags[q] == [2, 4] ==> Ids(TestHashes(), bags[q]) == [3, 5]
    ensures Ids(TestHashes(), bags[q]) == [1, 2] || Ids(TestHashes(), bags[q]) == [3, 5]
  {
    BagShape(bags, q);
  }

  /** The groups the test expects, as sets of id lists: {[1, 2], [3, 5]}. */
  lemma FindSimilarExample(dist: seq<seq<nat>>, bags: seq<seq<nat>>)
    requires DistancesOf(TestHashes(), dist)
    requires SimilarBags(5, Joins(TestHashes(), dist, 128), bags)
    ensures (set q | 0 <= q < |bags| :: Ids(TestHashes(), bags[q])) == {[1, 2], [3, 5]}
  {
    TestJoins(dist);
    Expected(bags);
  }

  lemma Expected(bags: seq<seq<nat>>)
    requires SimilarBags(5, TestEdges(), bags)
    ensures (set q | 0 <= q < |bags| :: Ids(TestHashes(), bags[q])) == {[1, 2], [3, 5]}
  {
    var f := TestHashes();
    var found := set q | 0 <= q < |bags| :: Ids(f, bags[q]);
    forall x | x in found
      ensures x == [1, 2] || x == [3, 5]
    {
      var q :| 0 <= q < |bags| && x == Ids(f, bags[q]);
      BagIds(bags, q);
    }
    var q1 := BagOfEdge(bags, 0, 1);
    BagShape(bags, q1);
    BagIds(bags, q1);
    assert [1, 2] in found;
    var q2 := BagOfEdge(bags, 2, 4);
    BagShape(bags, q2);
    BagIds(bags, q2);
    assert [3, 5] in found;
  }
}
