/** The video_hash pass and the distances between stored video histograms
    (src/videohash.rs). */
module VideoHashes {
  import opened Base
  import opened Database
  import opened ColorHistogram
  import opened VideoTables

  /** The extensions get_files_without_videohash selects ('avi' is listed
      twice in the query; a set holds it once). */
  const HashExtensions: set<string> := {"mp4", "avi", "mkv", "wmv", "flv"}

  /** A stored video histogram together with its file's path and size. */
  datatype VideoHash = VideoHash(id: int, path: string, histogram: seq<byte>, size: nat)

  /** get_all_files_with_videohash: the join of file_digests and video_hash
      on the id, every match once, in no promised order. */
  method FilesWithVideohash(t: DigestTable, hashes: HistogramTable) returns (files: seq<VideoHash>)
    ensures forall v :: v in files <==>
      v.id in t.rows && v.id in hashes && v.path == t.rows[v.id].path
      && v.size == t.rows[v.id].size && v.histogram == hashes[v.id]
    ensures forall i, j :: 0 <= i < j < |files| ==> files[i].id != files[j].id
  {
    var all := GetAllFileDigests(t);
    files := [];
    for k := 0 to |all|
      invariant forall v :: v in files <==>
        v.id in t.rows && v.id in hashes && v.path == t.rows[v.id].path
        && v.size == t.rows[v.id].size && v.histogram == hashes[v.id]
        && exists j :: 0 <= j < k && all[j].id == v.id
      invariant forall i, j :: 0 <= i < j < |files| ==> files[i].id != files[j].id
      invariant forall v :: v in files ==> exists j :: 0 <= j < k && all[j].id == v.id
    {
      var f := all[k];
      assert t.rows[f.id] == RowOf(f);
      if f.id in hashes {
        files := files + [VideoHash(f.id, f.path, hashes[f.id], f.size)];
      }
    }
  }

  /** update_hashes: computes the histogram of every stored video with one
      of the five extensions and no video_hash row, and commits them. Only
      the video_hash table changes; it keeps its rows and gains one for
      every such video that can be decoded. */
  method UpdateHashes(s: Store, videos: map<string, seq<seq<byte>>>, batchSize: nat)
    returns (r: Store, outcome: Outcome)
    requires Decodable(videos)
    ensures outcome == Pass
    ensures r.digests == s.digests && r.histograms == s.histograms
    ensures forall id :: id in r.videoHashes <==>
      id in s.videoHashes || (id in s.digests.rows && HasExtension(s.digests.rows[id].path, HashExtensions)
                              && s.digests.rows[id].path in videos)
    ensures forall id :: id in s.videoHashes ==> r.videoHashes[id] == s.videoHashes[id]
    ensures forall id :: id in r.videoHashes && id !in s.videoHashes ==>
      r.videoHashes[id] == ColorHistogramOf(videos[s.digests.rows[id].path])
  {
    var table;
    table, outcome := UpdateTable(U64, s.digests, s.videoHashes, HashExtensions, videos, batchSize);
    r := s.(videoHashes := table);
  }

  /** The rows of the unit tests of get_files_without_videohash and
      get_files_without_histogram. */
  function SelectionTable(): DigestTable {
    DigestTable(map[
      1 := Row("/tmp/a.mp4", [], 1),
      2 := Row("/tmp/b.jpg", [], 1),
      3 := Row("/tmp/c.wmv", [], 1),
      4 := Row("/tmp/d.avi", [], 1)])
  }

  /** The selection test: with a hash stored for file 3, files 1 and 4 are
      waiting; file 2 is no video. */
  lemma WithoutVideohashExample()
    ensures forall c :: Selected(SelectionTable(), map[3 := [0]], HashExtensions, c) <==>
      c == Candidate(1, "/tmp/a.mp4", 1) || c == Candidate(4, "/tmp/d.avi", 1)
  {
    SelectionPaths();
  }

  /** The extensions of the selection test's paths. */
  lemma SelectionPaths()
    ensures Lower(LastThree("/tmp/a.mp4")) == "mp4"
    ensures Lower(LastThree("/tmp/b.jpg")) == "jpg"
    ensures Lower(LastThree("/tmp/d.avi")) == "avi"
  {
    LowerCaseExtension("/tmp/a.mp4");
    LowerCaseExtension("/tmp/b.jpg");
    LowerCaseExtension("/tmp/d.avi");
  }

  /** A path already ending in lower case is its own lowered extension. */
  lemma LowerCaseExtension(path: string)
    requires |path| >= 3
    requires forall i :: |path| - 3 <= i < |path| ==> !('A' <= path[i] <= 'Z')
    ensures Lower(LastThree(path)) == path[|path| - 3..]
  {
  }

  /** The join test: only files 3 and 4 have hashes, and they come back
      with their paths and sizes. */
  lemma WithVideohashExample(v: VideoHash)
    ensures var t := DigestTable(map[
              1 := Row("/tmp/a.mp4", [], 10), 2 := Row("/tmp/b.jpg", [], 11),
              3 := Row("/tmp/c.wmv", [], 12), 4 := Row("/tmp/d.avi", [], 13)]);
            var hashes: HistogramTable := map[3 := [170, 170, 170, 170], 4 := [170, 170, 170, 171]];
            (v.id in t.rows && v.id in hashes && v.path == t.rows[v.id].path
             && v.size == t.rows[v.id].size && v.histogram == hashes[v.id])
            <==> v == VideoHash(3, "/tmp/c.wmv", [170, 170, 170, 170], 12)
                 || v == VideoHash(4, "/tmp/d.avi", [170, 170, 170, 171], 13)
  {
  }

  /** |x - y| of two bytes, as i16 arithmetic computes it. */
  function AbsDiff(x: byte, y: byte): (d: nat)
    ensures d <= 255
  {
    var u, v := x as int, y as int;
    if u >= v then u - v else v - u
  }

  /** The exact L1 distance over the cells of `a`. */
  function L1(a: seq<byte>, b: seq<byte>): nat
    requires |a| <= |b|
    decreases |a|
  {
    if |a| == 0 then 0
    else L1(a[..|a| - 1], b) + AbsDiff(a[|a| - 1], b[|a| - 1])
  }

  /** i16 wrap-around: the value in -32768..32767 that agrees with `x`
      modulo 2^16. */
  function Wrap16(x: int): (w: int)
    ensures -0x8000 <= w < 0x8000
    ensures w == x - 0x1_0000 * ((x + 0x8000) / 0x1_0000)
  {
    (x + 0x8000) % 0x1_0000 - 0x8000
  }

  /** l1_distance: sums |a[i] - b[i]| over the cells of `a` in a 16-bit
      signed accumulator and returns its bits as u16. The accumulator wraps
      as a release build does, so the result is the exact distance modulo
      2^16. */
  method L1Distance(a: seq<byte>, b: seq<byte>) returns (d: nat)
    requires |a| <= |b|
    ensures d < 0x1_0000
    ensures d == L1(a, b) % 0x1_0000
  {
    var dist := 0;
    ghost var wraps := 0;
    for i := 0 to |a|
      invariant -0x8000 <= dist < 0x8000
      invariant dist == L1(a[..i], b) - 0x1_0000 * wraps
    {
      assert a[..i + 1][..i] == a[..i];
      var sum := dist + AbsDiff(a[i], b[i]);
      wraps := wraps + (sum + 0x8000) / 0x1_0000;
      dist := Wrap16(sum);
    }
    assert a[..|a|] == a;
    ModShift(L1(a, b), wraps);
    d := dist % 0x1_0000;
  }

  /** Whole turns of 2^16 do not change the residue. */
  lemma ModShift(x: int, k: int)
    ensures (x - 0x1_0000 * k) % 0x1_0000 == x % 0x1_0000
  {
    var q, r := x / 0x1_0000, x % 0x1_0000;
    assert x - 0x1_0000 * k == 0x1_0000 * (q - k) + r;
  }

  /** Histograms of up to 128 cells never leave the i16 range: the result
      is the exact distance, in a debug build too. */
  lemma L1Exact(a: seq<byte>, b: seq<byte>)
    requires |a| <= |b| && |a| <= 128
    ensures L1(a, b) < 0x8000
    ensures L1(a, b) % 0x1_0000 == L1(a, b)
  {
    L1Bound(a, b);
  }

  /** No cell adds more than 255. */
  lemma {:induction false} L1Bound(a: seq<byte>, b: seq<byte>)
    requires |a| <= |b|
    ensures L1(a, b) <= 255 * |a|
    decreases |a|
  {
    if |a| > 0 {
      L1Bound(a[..|a| - 1], b);
    }
  }

  /** The distance is symmetric for histograms of one length. */
  lemma {:induction false} L1Symmetric(a: seq<byte>, b: seq<byte>)
    requires |a| == |b|
    ensures L1(a, b) == L1(b, a)
    decreases |a|
  {
    if |a| > 0 {
      L1Symmetric(a[..|a| - 1], b[..|b| - 1]);
      L1Prefix(a[..|a| - 1], b);
      L1Prefix(b[..|b| - 1], a);
    }
  }

  /** Only the first |a| cells of `b` matter. */
  lemma {:induction false} L1Prefix(a: seq<byte>, b: seq<byte>)
    requires |a| < |b|
    ensures L1(a, b) == L1(a, b[..|b| - 1])
    decreases |a|
  {
    if |a| > 0 {
      L1Prefix(a[..|a| - 1], b);
    }
  }

  /** The exact sum of cell differences is zero exactly when `a` equals the
      start of `b`. */
  lemma {:induction false} L1Zero(a: seq<byte>, b: seq<byte>)
    requires |a| <= |b|
    ensures L1(a, b) == 0 <==> a == b[..|a|]
    decreases |a|
  {
    if |a| > 0 {
      var n := |a| - 1;
      L1Zero(a[..n], b);
      assert b[..|a|][..n] == b[..n];
      if a == b[..|a|] {
        assert a[..n] == b[..n];
      }
      if L1(a, b) == 0 {
        assert a == a[..n] + [a[n]];
        assert b[..|a|] == b[..n] + [b[n]];
      }
    }
  }

  /** For histograms of up to 128 cells the returned 16-bit distance is zero
      exactly when `a` equals the start of `b`: the cast loses nothing. */
  lemma L1DistanceZero(a: seq<byte>, b: seq<byte>)
    requires |a| <= |b| && |a| <= 128
    ensures L1(a, b) % 0x1_0000 == 0 <==> a == b[..|a|]
  {
    L1Exact(a, b);
    L1Zero(a, b);
  }

  /** The distances calculate_distances stores: zero on the diagonal, the
      16-bit L1 distance of the earlier histogram to the later one
      elsewhere, mirrored. */
  ghost predicate DistancesOf(files: seq<VideoHash>, dist: seq<seq<nat>>)
    requires OrderedLengths(files)
  {
    && |dist| == |files|
    && (forall i :: 0 <= i < |dist| ==> |dist[i]| == |files|)
    && (forall i :: 0 <= i < |files| ==> dist[i][i] == 0)
    && (forall i, j :: 0 <= i < j < |files| ==>
          dist[i][j] == dist[j][i] == L1(files[i].histogram, files[j].histogram) % 0x1_0000)
  }

  /** Every histogram is at most as long as every later one, so l1_distance
      never reads past the end of its second argument. */
  predicate OrderedLengths(files: seq<VideoHash>) {
    forall i, j :: 0 <= i < j < |files| ==> |files[i].histogram| <= |files[j].histogram|
  }

  /** The value calculate_distances stores for the pair i <= j. */
  function PairDistance(files: seq<VideoHash>, i: nat, j: nat): nat
    requires OrderedLengths(files) && i <= j < |files|
  {
    if i == j then 0 else L1(files[i].histogram, files[j].histogram) % 0x1_0000
  }

  /** calculate_distances: fills the upper triangle row by row, mirroring
      every value into the lower one. */
  method CalculateDistances(files: seq<VideoHash>) returns (dist: seq<seq<nat>>)
    requires OrderedLengths(files)
    ensures DistancesOf(files, dist)
  {
    var n := |files|;
    dist := seq(n, _ => seq(n, _ => 0));
    for i := 0 to n
      invariant |dist| == n && forall a :: 0 <= a < n ==> |dist[a]| == n
      invariant forall a, b :: 0 <= a <= b < n && a < i ==>
        dist[a][b] == PairDistance(files, a, b) && dist[b][a] == PairDistance(files, a, b)
    {
      for j := i to n
        invariant |dist| == n && forall a :: 0 <= a < n ==> |dist[a]| == n
        invariant forall a, b :: 0 <= a <= b < n && (a < i || (a == i && b < j)) ==>
          dist[a][b] == PairDistance(files, a, b) && dist[b][a] == PairDistance(files, a, b)
      {
        var d := 0;
        if i != j {
          d := L1Distance(files[i].histogram, files[j].histogram);
        }
        dist := Mirror(dist, i, j, d);
      }
    }
  }

  /** Stores `d` at (i, j) and at (j, i), leaving every other cell. */
  function Mirror(dist: seq<seq<nat>>, i: nat, j: nat, d: nat): (r: seq<seq<nat>>)
    requires i < |dist| && j < |dist| && forall a :: 0 <= a < |dist| ==> |dist[a]| == |dist|
    ensures |r| == |dist| && forall a :: 0 <= a < |r| ==> |r[a]| == |r|
    ensures r[i][j] == d && r[j][i] == d
    ensures forall a, b :: 0 <= a < |r| && 0 <= b < |r| && (a, b) != (i, j) && (a, b) != (j, i) ==> r[a][b] == dist[a][b]
  {
    var row: seq<nat> := dist[i][j := d];
    var r1 := dist[i := row];
    var col: seq<nat> := r1[j][i := d];
    r1[j := col]
  }
}
