/** Grouping stored files by equal content digest and turning the groups into
    the result the user sees (src/similarities.rs). */
module Similarities {
  import opened Base
  import opened Sorting
  import opened Database

  /** A bag of files found to share `digest`; `ids` in the order found. */
  datatype Bag = Bag(ids: seq<int>, digest: seq<byte>)

  /** The lookup map: the first four digest bytes to the bags whose digests
      start with them. */
  type Buckets = map<seq<byte>, seq<Bag>>

  /** The width of the lookup key. */
  const KeyWidth: nat := 4

  /** Every digest is long enough to take the lookup key from; with a shorter
      one the source's slice panics. */
  predicate KeysAvailable(files: seq<FileDigest>) {
    forall i :: 0 <= i < |files| ==> |files[i].digest| >= KeyWidth
  }

  /** The ids of the files whose digest is `d`, in the order of `files`. */
  function IdsWithDigest(files: seq<FileDigest>, d: seq<byte>): seq<int>
    decreases |files|
  {
    if |files| == 0 then []
    else
      var last := files[|files| - 1];
      IdsWithDigest(files[..|files| - 1], d) + (if last.digest == d then [last.id] else [])
  }

  /** The reference answer: for every digest that more than one file has, the
      ids of those files in ascending order. */
  ghost function ExactGroups(files: seq<FileDigest>): set<seq<int>> {
    set i | 0 <= i < |files| && |IdsWithDigest(files, files[i].digest)| > 1 :: SortAsc(IdsWithDigest(files, files[i].digest))
  }

  /** The inner loop over a bucket: every bag with the file's digest gets the
      file's id; the flag says whether any did. */
  function PlaceInBags(bags: seq<Bag>, f: FileDigest): (r: (seq<Bag>, bool))
    ensures |r.0| == |bags|
    ensures forall i :: 0 <= i < |bags| ==>
      r.0[i] == (if bags[i].digest == f.digest then Bag(bags[i].ids + [f.id], bags[i].digest) else bags[i])
    ensures r.1 <==> exists i :: 0 <= i < |bags| && bags[i].digest == f.digest
    decreases |bags|
  {
    if |bags| == 0 then ([], false)
    else
      var rest := PlaceInBags(bags[1..], f);
      var b := bags[0];
      var b' := if b.digest == f.digest then Bag(b.ids + [f.id], b.digest) else b;
      assert forall i :: 1 <= i < |bags| ==> bags[1..][i - 1] == bags[i];
      ([b'] + rest.0, rest.1 || b.digest == f.digest)
  }

  /** One iteration of the outer loop: add the file to the bag of its digest
      in the bucket of its key, opening a new bag when there is none. */
  function AddFile(m: Buckets, f: FileDigest): Buckets
    requires |f.digest| >= KeyWidth
  {
    var key := f.digest[..KeyWidth];
    var bags := if key in m then m[key] else [];
    var placed := PlaceInBags(bags, f);
    m[key := if placed.1 then placed.0 else placed.0 + [Bag([f.id], f.digest)]]
  }

  /** The lookup map after the outer loop has seen all of `files`. */
  function BuildBuckets(files: seq<FileDigest>): Buckets
    requires KeysAvailable(files)
    decreases |files|
  {
    if |files| == 0 then map[]
    else AddFile(BuildBuckets(files[..|files| - 1]), files[|files| - 1])
  }

  /** What the lookup map holds after seeing `files`: each bag sits under its
      digest's key, holds exactly the ids of the files with its digest, and
      no digest has two bags; every file seen has a bag. */
  ghost predicate BucketsInv(m: Buckets, files: seq<FileDigest>) {
    BagsExact(m, files) && BagsDistinct(m) && AllHaveBags(m, files)
  }

  ghost predicate BagsExact(m: Buckets, files: seq<FileDigest>) {
    forall k, i :: k in m && 0 <= i < |m[k]| ==>
      && |m[k][i].digest| >= KeyWidth
      && m[k][i].digest[..KeyWidth] == k
      && m[k][i].ids == IdsWithDigest(files, m[k][i].digest)
      && |m[k][i].ids| > 0
  }

  ghost predicate BagsDistinct(m: Buckets) {
    forall k, i, j :: k in m && 0 <= i < j < |m[k]| ==> m[k][i].digest != m[k][j].digest
  }

  ghost predicate AllHaveBags(m: Buckets, files: seq<FileDigest>) {
    forall n :: 0 <= n < |files| ==> HasBag(m, files[n].digest)
  }

  ghost predicate HasBag(m: Buckets, d: seq<byte>) {
    |d| >= KeyWidth && d[..KeyWidth] in m && exists i :: 0 <= i < |m[d[..KeyWidth]]| && m[d[..KeyWidth]][i].digest == d
  }

  lemma IdsWithDigestSnoc(files: seq<FileDigest>, f: FileDigest, d: seq<byte>)
    ensures IdsWithDigest(files + [f], d) == IdsWithDigest(files, d) + (if f.digest == d then [f.id] else [])
  {
    assert (files + [f])[..|files|] == files;
  }

  lemma {:induction false} IdsWithDigestMembers(files: seq<FileDigest>, d: seq<byte>, x: int)
    ensures x in IdsWithDigest(files, d) <==> exists n :: 0 <= n < |files| && files[n].id == x && files[n].digest == d
    decreases |files|
  {
    if |files| > 0 {
      var init := files[..|files| - 1];
      IdsWithDigestMembers(init, d, x);
      if x in IdsWithDigest(init, d) {
        var n :| 0 <= n < |init| && init[n].id == x && init[n].digest == d;
        assert files[n] == init[n];
      }
      if exists n :: 0 <= n < |files| && files[n].id == x && files[n].digest == d {
        var n :| 0 <= n < |files| && files[n].id == x && files[n].digest == d;
        if n < |files| - 1 {
          assert init[n] == files[n];
        }
      }
    }
  }

  /** A digest no file has selects no ids. */
  lemma NoFileNoIds(files: seq<FileDigest>, d: seq<byte>)
    requires forall n :: 0 <= n < |files| ==> files[n].digest != d
    ensures IdsWithDigest(files, d) == []
  {
    var none := IdsWithDigest(files, d);
    if |none| > 0 {
      IdsWithDigestMembers(files, d, none[0]);
    }
  }

  /** Adding one file keeps the invariant. */
  lemma AddFileKeepsInv(m: Buckets, files: seq<FileDigest>, f: FileDigest)
    requires |f.digest| >= KeyWidth && BucketsInv(m, files)
    ensures BucketsInv(AddFile(m, f), files + [f])
  {
    AddFileKeepsExact(m, files, f);
    AddFileKeepsDistinct(m, files, f);
    AddFileKeepsBags(m, files, f);
  }

  lemma AddFileKeepsExact(m: Buckets, files: seq<FileDigest>, f: FileDigest)
    requires |f.digest| >= KeyWidth && BucketsInv(m, files)
    ensures BagsExact(AddFile(m, f), files + [f])
  {
    var key := f.digest[..KeyWidth];
    var bags := if key in m then m[key] else [];
    var placed := PlaceInBags(bags, f);
    var m': Buckets := AddFile(m, f);
    var files' := files + [f];
    forall k: seq<byte>, i: int | k in m' && 0 <= i < |m'[k]|
      ensures && |m'[k][i].digest| >= KeyWidth
              && m'[k][i].digest[..KeyWidth] == k
              && m'[k][i].ids == IdsWithDigest(files', m'[k][i].digest)
              && |m'[k][i].ids| > 0
    {
      var d := m'[k][i].digest;
      IdsWithDigestSnoc(files, f, d);
      if k != key {
        assert m'[k][i] == m[k][i];
        assert d[..KeyWidth] != f.digest[..KeyWidth];
      } else if i < |bags| {
        assert m'[k][i] == placed.0[i];
        assert bags[i] == m[k][i];
      } else {
        assert !HasBag(m, f.digest);
        NoFileNoIds(files, f.digest);
        assert m'[k][i] == Bag([f.id], f.digest);
      }
    }
  }

  lemma AddFileKeepsDistinct(m: Buckets, files: seq<FileDigest>, f: FileDigest)
    requires |f.digest| >= KeyWidth && BucketsInv(m, files)
    ensures BagsDistinct(AddFile(m, f))
  {
    var key := f.digest[..KeyWidth];
    var bags := if key in m then m[key] else [];
    var placed := PlaceInBags(bags, f);
    var m': Buckets := AddFile(m, f);
    forall k: seq<byte>, i: int, j: int | k in m' && 0 <= i < j < |m'[k]|
      ensures m'[k][i].digest != m'[k][j].digest
    {
      if k == key {
        assert m'[k][i].digest == bags[i].digest;
        if j < |bags| {
          assert m'[k][j].digest == bags[j].digest;
        }
      }
    }
  }

  /** A digest that had a bag before a file is added still has one. */
  lemma OldBagKept(m: Buckets, files: seq<FileDigest>, f: FileDigest, d: seq<byte>)
    requires |f.digest| >= KeyWidth && HasBag(m, d)
    ensures HasBag(AddFile(m, f), d)
  {
    var key := f.digest[..KeyWidth];
    var m': Buckets := AddFile(m, f);
    var j :| 0 <= j < |m[d[..KeyWidth]]| && m[d[..KeyWidth]][j].digest == d;
    if d[..KeyWidth] == key {
      assert m'[key][j].digest == d;
    } else {
      assert m'[d[..KeyWidth]] == m[d[..KeyWidth]];
    }
  }

  lemma AddFileKeepsBags(m: Buckets, files: seq<FileDigest>, f: FileDigest)
    requires |f.digest| >= KeyWidth && BucketsInv(m, files)
    ensures AllHaveBags(AddFile(m, f), files + [f])
  {
    var key := f.digest[..KeyWidth];
    var bags := if key in m then m[key] else [];
    var placed := PlaceInBags(bags, f);
    var m': Buckets := AddFile(m, f);
    var files' := files + [f];
    forall n | 0 <= n < |files'|
      ensures HasBag(m', files'[n].digest)
    {
      if n < |files| {
        assert files'[n] == files[n];
        OldBagKept(m, files, f, files[n].digest);
      } else if placed.1 {
        var j :| 0 <= j < |bags| && bags[j].digest == f.digest;
        assert m'[key][j].digest == f.digest;
      } else {
        assert m'[key][|bags|].digest == f.digest;
      }
    }
  }

  lemma {:induction false} BuildBucketsInv(files: seq<FileDigest>)
    requires KeysAvailable(files)
    ensures BucketsInv(BuildBuckets(files), files)
    decreases |files|
  {
    if |files| > 0 {
      var init := files[..|files| - 1];
      BuildBucketsInv(init);
      assert init + [files[|files| - 1]] == files;
      AddFileKeepsInv(BuildBuckets(init), init, files[|files| - 1]);
    }
  }

  /** The second loop: every bag with more than one id, its ids sorted. */
  function Collect(m: Buckets): set<seq<int>> {
    set k, i | k in m && 0 <= i < |m[k]| && |m[k][i].ids| > 1 :: SortAsc(m[k][i].ids)
  }

  lemma CollectSound(m: Buckets, files: seq<FileDigest>)
    requires BucketsInv(m, files)
    ensures Collect(m) <= ExactGroups(files)
  {
    forall g | g in Collect(m)
      ensures g in ExactGroups(files)
    {
      var k, i :| k in m && 0 <= i < |m[k]| && |m[k][i].ids| > 1 && g == SortAsc(m[k][i].ids);
      var d := m[k][i].digest;
      IdsWithDigestMembers(files, d, m[k][i].ids[0]);
      var n :| 0 <= n < |files| && files[n].id == m[k][i].ids[0] && files[n].digest == d;
    }
  }

  lemma CollectComplete(m: Buckets, files: seq<FileDigest>)
    requires BucketsInv(m, files)
    ensures ExactGroups(files) <= Collect(m)
  {
    forall g | g in ExactGroups(files)
      ensures g in Collect(m)
    {
      var n :| 0 <= n < |files| && |IdsWithDigest(files, files[n].digest)| > 1 && g == SortAsc(IdsWithDigest(files, files[n].digest));
      var d := files[n].digest;
      assert HasBag(m, d);
      var j :| 0 <= j < |m[d[..KeyWidth]]| && m[d[..KeyWidth]][j].digest == d;
      assert m[d[..KeyWidth]][j].ids == IdsWithDigest(files, d);
    }
  }

  /** Every reference group is a sorted list of at least two ids. */
  lemma GroupsShape(files: seq<FileDigest>)
    ensures forall g :: g in ExactGroups(files) ==> |g| > 1 && SortedAsc(g)
  {
    forall g | g in ExactGroups(files)
      ensures |g| > 1
    {
      var n :| 0 <= n < |files| && |IdsWithDigest(files, files[n].digest)| > 1 && g == SortAsc(IdsWithDigest(files, files[n].digest));
      SortAscMembers(IdsWithDigest(files, files[n].digest));
    }
  }

  /** find_similarities: exactly the reference groups, each a sorted list of at
      least two ids. */
  function FindSimilarities(files: seq<FileDigest>): (r: set<seq<int>>)
    requires KeysAvailable(files)
    ensures r == ExactGroups(files)
    ensures forall g :: g in r ==> |g| > 1 && SortedAsc(g)
  {
    var m := BuildBuckets(files);
    BuildBucketsInv(files);
    CollectSound(m, files);
    CollectComplete(m, files);
    GroupsShape(files);
    Collect(m)
  }

  /** No two files share an id (row ids of one table never do). */
  predicate IdsDistinct(files: seq<FileDigest>) {
    forall a, b :: 0 <= a < b < |files| ==> files[a].id != files[b].id
  }

  lemma OwnId(files: seq<FileDigest>, n: nat, d: seq<byte>)
    requires IdsDistinct(files) && n < |files|
    ensures files[n].id in IdsWithDigest(files, d) <==> files[n].digest == d
  {
    IdsWithDigestMembers(files, d, files[n].id);
    if files[n].id in IdsWithDigest(files, d) {
      var m :| 0 <= m < |files| && files[m].id == files[n].id && files[m].digest == d;
      assert m == n;
    }
  }

  /** A sequence holding two different values has at least two elements. */
  lemma TwoValues(s: seq<int>, x: int, y: int)
    requires x in s && y in s && x != y
    ensures |s| > 1
  {
  }

  /** Two different files are in a common group exactly when their digests
      are equal. */
  lemma SameGroupIffEqualDigest(files: seq<FileDigest>, a: nat, b: nat)
    requires IdsDistinct(files) && a < |files| && b < |files| && a != b
    ensures (exists g :: g in ExactGroups(files) && files[a].id in g && files[b].id in g)
        <==> files[a].digest == files[b].digest
  {
    if files[a].digest == files[b].digest {
      var d := files[a].digest;
      var ids := IdsWithDigest(files, d);
      OwnId(files, a, d);
      OwnId(files, b, d);
      TwoValues(ids, files[a].id, files[b].id);
      SortAscMembers(ids);
      assert SortAsc(ids) in ExactGroups(files);
    }
    if exists g :: g in ExactGroups(files) && files[a].id in g && files[b].id in g {
      var g :| g in ExactGroups(files) && files[a].id in g && files[b].id in g;
      var n :| 0 <= n < |files| && |IdsWithDigest(files, files[n].digest)| > 1 && g == SortAsc(IdsWithDigest(files, files[n].digest));
      SortAscMembers(IdsWithDigest(files, files[n].digest));
      OwnId(files, a, files[n].digest);
      OwnId(files, b, files[n].digest);
    }
  }

  /** A file is in some group exactly when another file has its digest; a
      file with a digest of its own is reported nowhere. */
  lemma GroupedIffShared(files: seq<FileDigest>, a: nat)
    requires IdsDistinct(files) && a < |files|
    ensures (exists g :: g in ExactGroups(files) && files[a].id in g)
        <==> exists b :: 0 <= b < |files| && b != a && files[b].digest == files[a].digest
  {
    if exists b :: 0 <= b < |files| && b != a && files[b].digest == files[a].digest {
      var b :| 0 <= b < |files| && b != a && files[b].digest == files[a].digest;
      SameGroupIffEqualDigest(files, a, b);
    }
    if exists g :: g in ExactGroups(files) && files[a].id in g {
      var g :| g in ExactGroups(files) && files[a].id in g;
      GroupedHasPartner(files, a, g);
    }
  }

  lemma GroupedHasPartner(files: seq<FileDigest>, a: nat, g: seq<int>)
    requires IdsDistinct(files) && a < |files| && g in ExactGroups(files) && files[a].id in g
    ensures exists b :: 0 <= b < |files| && b != a && files[b].digest == files[a].digest
  {
    var n :| 0 <= n < |files| && |IdsWithDigest(files, files[n].digest)| > 1 && g == SortAsc(IdsWithDigest(files, files[n].digest));
    var d := files[n].digest;
    var ids := IdsWithDigest(files, d);
    SortAscMembers(ids);
    OwnId(files, a, d);
    IdsWithDigestDistinct(files, d);
    var y := OtherElement(ids, files[a].id);
    IdsWithDigestMembers(files, d, y);
    var b :| 0 <= b < |files| && files[b].id == y && files[b].digest == d;
  }

  lemma OtherElement(s: seq<int>, x: int) returns (y: int)
    requires |s| > 1 && Distinct(s)
    ensures y in s && y != x
  {
    y := if s[0] != x then s[0] else s[1];
  }

  lemma {:induction false} IdsWithDigestDistinct(files: seq<FileDigest>, d: seq<byte>)
    requires IdsDistinct(files)
    ensures Distinct(IdsWithDigest(files, d))
    decreases |files|
  {
    if |files| > 0 {
      var init := files[..|files| - 1];
      var last := files[|files| - 1];
      assert IdsDistinct(init);
      IdsWithDigestDistinct(init, d);
      IdsWithDigestMembers(init, d, last.id);
    }
  }

  /** No id is in two different groups. */
  lemma GroupsDisjoint(files: seq<FileDigest>, g1: seq<int>, g2: seq<int>, x: int)
    requires IdsDistinct(files)
    requires g1 in ExactGroups(files) && g2 in ExactGroups(files) && x in g1 && x in g2
    ensures g1 == g2
  {
    var n1 :| 0 <= n1 < |files| && |IdsWithDigest(files, files[n1].digest)| > 1 && g1 == SortAsc(IdsWithDigest(files, files[n1].digest));
    var n2 :| 0 <= n2 < |files| && |IdsWithDigest(files, files[n2].digest)| > 1 && g2 == SortAsc(IdsWithDigest(files, files[n2].digest));
    SortAscMembers(IdsWithDigest(files, files[n1].digest));
    SortAscMembers(IdsWithDigest(files, files[n2].digest));
    IdsWithDigestMembers(files, files[n1].digest, x);
    var m :| 0 <= m < |files| && files[m].id == x && files[m].digest == files[n1].digest;
    OwnId(files, m, files[n2].digest);
  }

  /** IdsWithDigest of five files, spelled out one file at a time. */
  lemma IdsOfExample(files: seq<FileDigest>, d: seq<byte>)
    requires |files| == 5
    ensures IdsWithDigest(files, d) ==
      (if files[0].digest == d then [files[0].id] else []) +
      (if files[1].digest == d then [files[1].id] else []) +
      (if files[2].digest == d then [files[2].id] else []) +
      (if files[3].digest == d then [files[3].id] else []) +
      (if files[4].digest == d then [files[4].id] else [])
  {
    var part := (n: nat) requires n < 5 => if files[n].digest == d then [files[n].id] else [];
    assert IdsWithDigest(files, d) == IdsWithDigest(files[..4], d) + part(4);
    assert IdsWithDigest(files[..4], d) == IdsWithDigest(files[..3], d) + part(3) by {
      assert files[..4][..3] == files[..3];
    }
    assert IdsWithDigest(files[..3], d) == IdsWithDigest(files[..2], d) + part(2) by {
      assert files[..3][..2] == files[..2];
    }
    assert IdsWithDigest(files[..2], d) == IdsWithDigest(files[..1], d) + part(1) by {
      assert files[..2][..1] == files[..1];
    }
    assert IdsWithDigest(files[..1], d) == part(0) by {
      assert files[..1][..0] == [];
    }
  }

  /** The files of the unit test of find_similarities. */
  function ExampleFiles(): seq<FileDigest> {
    [ FileDigest(1, "/tmp/a", [0, 1, 2, 3], 1),
      FileDigest(2, "/tmp/a", [0, 1, 2, 3], 1),
      FileDigest(3, "/tmp/a", [1, 1, 2, 4], 1),
      FileDigest(4, "/tmp/a", [1, 1, 2, 4], 1),
      FileDigest(5, "/tmp/a", [1, 1, 2, 6], 1)]
  }

  /** The shape of that test: five files with ids 1 to 5, where files 1 and
      2 share a digest, files 3 and 4 share another, and file 5 has a third. */
  predicate ExamplePattern(files: seq<FileDigest>) {
    && |files| == 5
    && (forall n :: 0 <= n < 5 ==> files[n].id == n + 1 && |files[n].digest| >= KeyWidth)
    && files[0].digest == files[1].digest
    && files[2].digest == files[3].digest
    && files[0].digest != files[2].digest
    && files[0].digest != files[4].digest
    && files[2].digest != files[4].digest
  }

  lemma ExampleFilesPattern()
    ensures ExamplePattern(ExampleFiles())
  {
    var files := ExampleFiles();
    assert files[0].digest[0] != files[2].digest[0];
    assert files[0].digest[0] != files[4].digest[0];
    assert files[2].digest[3] != files[4].digest[3];
  }

  lemma ExampleIds(files: seq<FileDigest>)
    requires ExamplePattern(files)
    ensures forall n :: 0 <= n < 5 ==> IdsWithDigest(files, files[n].digest) == (if n < 2 then [1, 2] else if n < 4 then [3, 4] else [5])
  {
    IdsOfExample(files, files[0].digest);
    IdsOfExample(files, files[2].digest);
    IdsOfExample(files, files[4].digest);
  }

  lemma SortExamplePairs()
    ensures SortAsc([1, 2]) == [1, 2] && SortAsc([3, 4]) == [3, 4]
  {
  }

  lemma ExampleGroupsWithin(files: seq<FileDigest>, g: seq<int>)
    requires ExamplePattern(files) && g in ExactGroups(files)
    ensures g == [1, 2] || g == [3, 4]
  {
    ExampleIds(files);
    var n :| 0 <= n < |files| && |IdsWithDigest(files, files[n].digest)| > 1 && g == SortAsc(IdsWithDigest(files, files[n].digest));
    SortExamplePairs();
    if n < 2 {
      assert IdsWithDigest(files, files[n].digest) == [1, 2];
    } else if n < 4 {
      assert IdsWithDigest(files, files[n].digest) == [3, 4];
    } else {
      assert false;
    }
  }

  lemma ExampleGroupsPresent(files: seq<FileDigest>)
    requires ExamplePattern(files)
    ensures {[1, 2], [3, 4]} <= ExactGroups(files)
  {
    ExampleIds(files);
    SortExamplePairs();
    assert IdsWithDigest(files, files[0].digest) == [1, 2];
    assert SortAsc(IdsWithDigest(files, files[0].digest)) in ExactGroups(files);
    assert IdsWithDigest(files, files[2].digest) == [3, 4];
    assert SortAsc(IdsWithDigest(files, files[2].digest)) in ExactGroups(files);
  }

  lemma ExampleGroupsAllWithin(files: seq<FileDigest>)
    requires ExamplePattern(files)
    ensures ExactGroups(files) <= {[1, 2], [3, 4]}
  {
    forall g | g in ExactGroups(files)
      ensures g == [1, 2] || g == [3, 4]
    {
      ExampleGroupsWithin(files, g);
    }
  }

  lemma ExampleGroups(files: seq<FileDigest>)
    requires ExamplePattern(files)
    ensures ExactGroups(files) == {[1, 2], [3, 4]}
  {
    ExampleGroupsAllWithin(files);
    ExampleGroupsPresent(files);
  }

  /** The unit test of find_similarities, for any files of its shape: two
      pairs of equal digests and one digest of its own give the groups [1, 2]
      and [3, 4]. */
  lemma FindSimilaritiesExample(files: seq<FileDigest>)
    requires ExamplePattern(files)
    ensures KeysAvailable(files) && FindSimilarities(files) == {[1, 2], [3, 4]}
  {
    ExampleGroups(files);
  }

  /** The test's own files have that shape. */
  lemma FindSimilaritiesTest()
    ensures KeysAvailable(ExampleFiles()) && FindSimilarities(ExampleFiles()) == {[1, 2], [3, 4]}
  {
    ExampleFilesPattern();
    FindSimilaritiesExample(ExampleFiles());
  }

  // ---------------------------------------------------------------------
  // From groups of ids to the result bags

  /** What the result shows of one file. */
  datatype FileEntry = FileEntry(id: int, path: string, size: nat)

  /** The entry of the row stored under `id`. */
  function EntryOf(t: DigestTable, id: int): FileEntry
    requires id in t.rows
  {
    FileEntry(id, t.rows[id].path, t.rows[id].size)
  }

  predicate Stored(t: DigestTable, ids: seq<int>) {
    forall j :: 0 <= j < |ids| ==> ids[j] in t.rows
  }

  predicate AllStored(t: DigestTable, lists: seq<seq<int>>) {
    forall i :: 0 <= i < |lists| ==> Stored(t, lists[i])
  }

  /** The entries of a list of stored ids, position by position. */
  ghost function Entries(t: DigestTable, ids: seq<int>): seq<FileEntry>
    requires Stored(t, ids)
  {
    seq(|ids|, j requires 0 <= j < |ids| && ids[j] in t.rows => EntryOf(t, ids[j]))
  }

  /** The entries of every list, list by list. */
  ghost function AllEntries(t: DigestTable, lists: seq<seq<int>>): seq<seq<FileEntry>>
    requires AllStored(t, lists)
  {
    seq(|lists|, i requires 0 <= i < |lists| && Stored(t, lists[i]) => Entries(t, lists[i]))
  }

  /** The lookups of one id list, collected into a `Result`: the first id
      without a row ends the list with that id's error. */
  function LookupEntries(t: DigestTable, ids: seq<int>): (r: Result<seq<FileEntry>>)
    ensures r.Ok? <==> Stored(t, ids)
    ensures r.Ok? ==> r.value == Entries(t, ids)
    ensures r.Err? ==> exists j :: 0 <= j < |ids| && ids[j] !in t.rows && r.error == NoSuchRow(ids[j])
                        && forall i :: 0 <= i < j ==> ids[i] in t.rows
    decreases |ids|
  {
    if |ids| == 0 then Ok([])
    else
      match LookupFileDigest(t, ids[0])
      case Err(e) => Err(e)
      case Ok(f) =>
        var rest := LookupEntries(t, ids[1..]);
        assert forall j :: 1 <= j < |ids| ==> ids[1..][j - 1] == ids[j];
        if rest.Err? then
          var k :| 0 <= k < |ids[1..]| && ids[1..][k] !in t.rows && rest.error == NoSuchRow(ids[1..][k])
                   && forall i :: 0 <= i < k ==> ids[1..][i] in t.rows;
          assert ids[k + 1] !in t.rows;
          Err(rest.error)
        else
          Ok([FileEntry(f.id, f.path, f.size)] + rest.value)
  }

  /** The first loop of into_resultbag: one entry list per id list; the first
      failing lookup ends it. */
  function LookupBags(t: DigestTable, lists: seq<seq<int>>): (r: Result<seq<seq<FileEntry>>>)
    ensures r.Ok? <==> AllStored(t, lists)
    ensures r.Ok? ==> r.value == AllEntries(t, lists)
    ensures r.Err? ==> exists i, j :: 0 <= i < |lists| && 0 <= j < |lists[i]| && lists[i][j] !in t.rows && r.error == NoSuchRow(lists[i][j])
    decreases |lists|
  {
    if |lists| == 0 then Ok([])
    else
      var first := LookupEntries(t, lists[0]);
      var rest := LookupBags(t, lists[1..]);
      assert forall i :: 1 <= i < |lists| ==> lists[1..][i - 1] == lists[i];
      if first.Err? then
        Err(first.error)
      else if rest.Err? then
        var i, j :| 0 <= i < |lists[1..]| && 0 <= j < |lists[1..][i]| && lists[1..][i][j] !in t.rows && rest.error == NoSuchRow(lists[1..][i][j]);
        assert lists[i + 1][j] !in t.rows;
        Err(rest.error)
      else
        Ok([first.value] + rest.value)
  }

  /** The sort key of a bag: its first file's size, negated, so that an
      ascending sort puts the largest files first. */
  function SizeKey(bag: seq<FileEntry>): int {
    if |bag| > 0 then -(bag[0].size as int) else 0
  }

  /** Bags in order of their first file's size, largest first. */
  predicate LargestFirst(bags: seq<seq<FileEntry>>) {
    forall i, j :: 0 <= i < j < |bags| && |bags[i]| > 0 && |bags[j]| > 0 ==> bags[i][0].size >= bags[j][0].size
  }

  /** into_resultbag: every id list turned into its files' entries, or the
      error of a missing id; the bags come out largest first. The sort reads
      the first entry of every bag, so with more than one bag none may be
      empty. */
  function IntoResultBag(t: DigestTable, lists: seq<seq<int>>): (r: Result<seq<seq<FileEntry>>>)
    requires AllStored(t, lists) && |lists| > 1 ==> forall i :: 0 <= i < |lists| ==> |lists[i]| > 0
    ensures r.Ok? <==> AllStored(t, lists)
    ensures r.Err? ==> exists i, j :: 0 <= i < |lists| && 0 <= j < |lists[i]| && lists[i][j] !in t.rows && r.error == NoSuchRow(lists[i][j])
    ensures r.Ok? ==> multiset(r.value) == multiset(AllEntries(t, lists))
    ensures r.Ok? ==> LargestFirst(r.value)
  {
    match LookupBags(t, lists)
    case Err(e) => Err(e)
    case Ok(bags) =>
      var sorted := SortBy(bags, SizeKey);
      assert forall i, j :: 0 <= i < j < |sorted| ==> SizeKey(sorted[i]) <= SizeKey(sorted[j]);
      Ok(sorted)
  }

  /** A bag of the final result: at least two stored files, all with the
      digest of the first, listed by strictly ascending id (so no file twice). */
  ghost predicate DuplicateBag(t: DigestTable, bag: seq<FileEntry>) {
    && |bag| > 1
    && bag[0].id in t.rows
    && (forall e :: e in bag ==> e.id in t.rows && e == EntryOf(t, e.id) && t.rows[e.id].digest == t.rows[bag[0].id].digest)
    && (forall i, j :: 0 <= i < j < |bag| ==> bag[i].id < bag[j].id)
  }

  /** The files a table listing hands to the grouping satisfy its needs: long
      enough digests and distinct ids. */
  lemma ListingFacts(files: seq<FileDigest>, t: DigestTable)
    requires ListsTable(files, t)
    requires forall id :: id in t.rows ==> |t.rows[id].digest| >= KeyWidth
    ensures KeysAvailable(files) && IdsDistinct(files)
  {
    forall n | 0 <= n < |files|
      ensures |files[n].digest| >= KeyWidth
    {
      assert t.rows[files[n].id] == RowOf(files[n]);
    }
  }

  /** A group found in a table listing holds stored ids of one digest, each
      once, in ascending order. */
  lemma GroupRows(files: seq<FileDigest>, t: DigestTable, g: seq<int>)
    requires ListsTable(files, t) && g in ExactGroups(files)
    ensures |g| > 1 && SortedAsc(g) && Stored(t, g)
    ensures forall i, j :: 0 <= i < j < |g| ==> g[i] < g[j]
    ensures forall x :: x in g ==> t.rows[x].digest == t.rows[g[0]].digest
  {
    var n :| 0 <= n < |files| && |IdsWithDigest(files, files[n].digest)| > 1 && g == SortAsc(IdsWithDigest(files, files[n].digest));
    var d := files[n].digest;
    SortAscMembers(IdsWithDigest(files, d));
    IdsWithDigestDistinct(files, d);
    SameMultisetDistinct(g, IdsWithDigest(files, d));
    forall x | x in g
      ensures x in t.rows && t.rows[x].digest == d
    {
      IdsWithDigestMembers(files, d, x);
      var m :| 0 <= m < |files| && files[m].id == x && files[m].digest == d;
      assert t.rows[x] == RowOf(files[m]);
    }
    assert g[0] in g;
    forall j | 0 <= j < |g|
      ensures g[j] in t.rows
    {
      assert g[j] in g;
    }
  }

  /** A bag of a sorted result comes from one of the lists. */
  lemma FromSomeList(t: DigestTable, lists: seq<seq<int>>, bags: seq<seq<FileEntry>>, b: seq<FileEntry>)
    requires AllStored(t, lists) && multiset(bags) == multiset(AllEntries(t, lists)) && b in bags
    ensures exists i :: 0 <= i < |lists| && b == Entries(t, lists[i])
  {
    assert b in multiset(AllEntries(t, lists));
    var i :| 0 <= i < |lists| && AllEntries(t, lists)[i] == b;
  }

  /** Every list's entries are a bag of a sorted result. */
  lemma InSomeBag(t: DigestTable, lists: seq<seq<int>>, bags: seq<seq<FileEntry>>, i: nat)
    requires AllStored(t, lists) && multiset(bags) == multiset(AllEntries(t, lists)) && i < |lists|
    ensures Entries(t, lists[i]) in bags
  {
    assert AllEntries(t, lists)[i] == Entries(t, lists[i]);
    assert Entries(t, lists[i]) in multiset(AllEntries(t, lists));
  }

  /** `bags` is what into_resultbag made of the groups of a table listing,
      enumerated as `lists`. */
  ghost predicate BagsOfListing(t: DigestTable, files: seq<FileDigest>, lists: seq<seq<int>>, bags: seq<seq<FileEntry>>) {
    && ListsTable(files, t)
    && IdsDistinct(files)
    && Enumerates(lists, ExactGroups(files))
    && AllStored(t, lists)
    && multiset(bags) == multiset(AllEntries(t, lists))
  }

  lemma BagsAreDuplicates(t: DigestTable, files: seq<FileDigest>, lists: seq<seq<int>>, bags: seq<seq<FileEntry>>)
    requires BagsOfListing(t, files, lists, bags)
    ensures forall b :: b in bags ==> DuplicateBag(t, b)
  {
    forall b | b in bags
      ensures DuplicateBag(t, b)
    {
      FromSomeList(t, lists, bags, b);
      var i :| 0 <= i < |lists| && b == Entries(t, lists[i]);
      assert lists[i] in lists;
      GroupRows(files, t, lists[i]);
      forall e | e in b
        ensures e.id in t.rows && e == EntryOf(t, e.id) && t.rows[e.id].digest == t.rows[b[0].id].digest
      {
        var j :| 0 <= j < |b| && b[j] == e;
        assert lists[i][j] in lists[i];
      }
      forall p, q | 0 <= p < q < |b|
        ensures b[p].id < b[q].id
      {
        assert b[p].id == lists[i][p] && b[q].id == lists[i][q];
      }
    }
  }

  lemma EqualDigestsShareBag(t: DigestTable, files: seq<FileDigest>, lists: seq<seq<int>>, bags: seq<seq<FileEntry>>, a: int, c: int)
    requires BagsOfListing(t, files, lists, bags)
    requires a in t.rows && c in t.rows && a != c && t.rows[a].digest == t.rows[c].digest
    ensures exists b :: b in bags && EntryOf(t, a) in b && EntryOf(t, c) in b
  {
    var g := SharedGroup(t, files, a, c);
    var i :| 0 <= i < |lists| && lists[i] == g;
    ListedGroupInBag(t, lists, bags, i, a, c);
  }

  /** Two rows with equal digests share a group of the listing. */
  lemma SharedGroup(t: DigestTable, files: seq<FileDigest>, a: int, c: int) returns (g: seq<int>)
    requires ListsTable(files, t) && IdsDistinct(files)
    requires a in t.rows && c in t.rows && a != c && t.rows[a].digest == t.rows[c].digest
    ensures g in ExactGroups(files) && a in g && c in g
  {
    var na :| 0 <= na < |files| && files[na].id == a;
    var nc :| 0 <= nc < |files| && files[nc].id == c;
    assert t.rows[a] == RowOf(files[na]) && t.rows[c] == RowOf(files[nc]);
    SameGroupIffEqualDigest(files, na, nc);
    g :| g in ExactGroups(files) && a in g && c in g;
  }

  lemma ListedGroupInBag(t: DigestTable, lists: seq<seq<int>>, bags: seq<seq<FileEntry>>, i: nat, a: int, c: int)
    requires AllStored(t, lists) && multiset(bags) == multiset(AllEntries(t, lists))
    requires i < |lists| && a in lists[i] && c in lists[i]
    ensures a in t.rows && c in t.rows
    ensures exists b :: b in bags && EntryOf(t, a) in b && EntryOf(t, c) in b
  {
    var g := lists[i];
    InSomeBag(t, lists, bags, i);
    var ja :| 0 <= ja < |g| && g[ja] == a;
    var jc :| 0 <= jc < |g| && g[jc] == c;
    assert Stored(t, g);
    assert Entries(t, g)[ja] == EntryOf(t, a);
    assert Entries(t, g)[jc] == EntryOf(t, c);
  }

  /** Two bags that share an entry are equal. */
  lemma BagsDisjoint(t: DigestTable, files: seq<FileDigest>, lists: seq<seq<int>>, bags: seq<seq<FileEntry>>, i: nat, j: nat, e: FileEntry)
    requires BagsOfListing(t, files, lists, bags) && i < |bags| && j < |bags|
    ensures e in bags[i] && e in bags[j] ==> bags[i] == bags[j]
  {
    if e in bags[i] && e in bags[j] {
      SharedEntry(t, files, lists, bags, bags[i], bags[j], e);
    }
  }

  lemma SharedEntry(t: DigestTable, files: seq<FileDigest>, lists: seq<seq<int>>, bags: seq<seq<FileEntry>>, b1: seq<FileEntry>, b2: seq<FileEntry>, e: FileEntry)
    requires BagsOfListing(t, files, lists, bags)
    requires b1 in bags && b2 in bags && e in b1 && e in b2
    ensures b1 == b2
  {
    FromSomeList(t, lists, bags, b1);
    FromSomeList(t, lists, bags, b2);
    var i1 :| 0 <= i1 < |lists| && b1 == Entries(t, lists[i1]);
    var i2 :| 0 <= i2 < |lists| && b2 == Entries(t, lists[i2]);
    var j1 :| 0 <= j1 < |b1| && b1[j1] == e;
    var j2 :| 0 <= j2 < |b2| && b2[j2] == e;
    assert lists[i1] in lists && lists[i2] in lists;
    assert lists[i1][j1] in lists[i1] && lists[i2][j2] in lists[i2];
    GroupsDisjoint(files, lists[i1], lists[i2], e.id);
  }

  /** Stored id lists with equal entries are equal: each entry carries its id. */
  lemma EntriesInjective(t: DigestTable, a: seq<int>, b: seq<int>)
    requires Stored(t, a) && Stored(t, b)
    ensures Entries(t, a) == Entries(t, b) ==> a == b
  {
    if Entries(t, a) == Entries(t, b) {
      assert |a| == |Entries(t, a)|;
      forall k | 0 <= k < |a|
        ensures a[k] == b[k]
      {
        assert Entries(t, a)[k].id == a[k] && Entries(t, b)[k].id == b[k];
      }
    }
  }

  /** Different lists give different entry lists. */
  lemma AllEntriesDistinct(t: DigestTable, lists: seq<seq<int>>)
    requires AllStored(t, lists) && Distinct(lists)
    ensures Distinct(AllEntries(t, lists))
  {
    forall i, j | 0 <= i < j < |lists|
      ensures AllEntries(t, lists)[i] != AllEntries(t, lists)[j]
    {
      EntriesInjective(t, lists[i], lists[j]);
    }
  }

  /** No bag of a listing appears twice in the result. */
  lemma BagsRepeatFree(t: DigestTable, files: seq<FileDigest>, lists: seq<seq<int>>, bags: seq<seq<FileEntry>>, i: nat, j: nat)
    requires BagsOfListing(t, files, lists, bags) && i < j < |bags|
    ensures bags[i] != bags[j]
  {
    RepeatCount(bags, i, j);
    AllEntriesDistinct(t, lists);
    DistinctCount(AllEntries(t, lists), bags[i]);
  }

  /** Any two rows with equal digests have their entries in one bag. */
  ghost predicate EqualDigestsTogether(t: DigestTable, bags: seq<seq<FileEntry>>) {
    forall a, c :: a in t.rows && c in t.rows && a != c && t.rows[a].digest == t.rows[c].digest ==>
      exists b :: b in bags && EntryOf(t, a) in b && EntryOf(t, c) in b
  }

  /** No entry is in two bags: an entry of one position of the result is
      missing from every later position (so no bag is listed twice either). */
  predicate BagsApart(bags: seq<seq<FileEntry>>) {
    forall i, j, e :: 0 <= i < j < |bags| && e in bags[i] ==> e !in bags[j]
  }

  /** The groups of a listing, enumerated, can all be looked up. */
  lemma ListedGroupsStored(files: seq<FileDigest>, t: DigestTable, lists: seq<seq<int>>)
    requires ListsTable(files, t) && Enumerates(lists, ExactGroups(files))
    ensures AllStored(t, lists)
    ensures forall i :: 0 <= i < |lists| ==> |lists[i]| > 1
  {
    forall i | 0 <= i < |lists|
      ensures Stored(t, lists[i]) && |lists[i]| > 1
    {
      assert lists[i] in lists;
      GroupRows(files, t, lists[i]);
    }
  }

  lemma ListingBags(t: DigestTable, files: seq<FileDigest>, lists: seq<seq<int>>, bags: seq<seq<FileEntry>>)
    requires BagsOfListing(t, files, lists, bags)
    ensures forall b :: b in bags ==> DuplicateBag(t, b)
    ensures EqualDigestsTogether(t, bags)
    ensures BagsApart(bags)
  {
    BagsAreDuplicates(t, files, lists, bags);
    forall a, c | a in t.rows && c in t.rows && a != c && t.rows[a].digest == t.rows[c].digest
      ensures exists b :: b in bags && EntryOf(t, a) in b && EntryOf(t, c) in b
    {
      EqualDigestsShareBag(t, files, lists, bags, a, c);
    }
    forall i, j, e | 0 <= i < j < |bags| && e in bags[i]
      ensures e !in bags[j]
    {
      BagsRepeatFree(t, files, lists, bags, i, j);
      BagsDisjoint(t, files, lists, bags, i, j, e);
    }
  }

  /** get_list_of_similar_files: reading the whole table, grouping it and
      looking the groups up never fails; every bag holds files with one
      digest, any two files with equal digests share a bag, no file is in
      two bags, and the bags come largest first. */
  method GetListOfSimilarFiles(t: DigestTable) returns (r: Result<seq<seq<FileEntry>>>)
    requires forall id :: id in t.rows ==> |t.rows[id].digest| >= KeyWidth
    ensures r.Ok?
    ensures LargestFirst(r.value)
    ensures forall b :: b in r.value ==> DuplicateBag(t, b)
    ensures EqualDigestsTogether(t, r.value)
    ensures BagsApart(r.value)
  {
    var files := GetAllFileDigests(t);
    ListingFacts(files, t);
    var groups := FindSimilarities(files);
    var lists := Enumerate(groups);
    ListedGroupsStored(files, t, lists);
    r := IntoResultBag(t, lists);
    ListingBags(t, files, lists, r.value);
  }
}
