/** Hashing files and committing their digests in batches
    (src/filehashing.rs, and the copies of get_hash and process_filelist in
    src/main.rs). The file system is a map from the paths that can be opened
    to their contents; the hash function is a parameter. */
module FileHashing {
  import opened Base
  import opened Database
  import opened Batching

  /** The paths of a list of file digests. */
  function Paths(files: seq<FileDigest>): set<string> {
    set i | 0 <= i < |files| :: files[i].path
  }

  predicate DistinctPaths(files: seq<FileDigest>) {
    forall i, j :: 0 <= i < j < |files| ==> files[i].path != files[j].path
  }

  /** The files can all be inserted into `t`: no path twice, none stored. */
  predicate Fresh(t: DigestTable, files: seq<FileDigest>) {
    DistinctPaths(files) && forall i :: 0 <= i < |files| ==> files[i].path !in StoredPaths(t)
  }

  /** `files[i]` is the first file whose insert into `t` is ignored: the
      files before it can all go in, and it cannot follow them. */
  predicate FirstRefused(t: DigestTable, files: seq<FileDigest>, i: int) {
    0 <= i < |files| && Fresh(t, files[..i]) && !Fresh(t, files[..i + 1])
  }

  /** `t'` is `t` with one new row for each of `files` and nothing else. */
  ghost predicate Extends(t: DigestTable, t': DigestTable, files: seq<FileDigest>) {
    && StoredPaths(t') == StoredPaths(t) + Paths(files)
    && |t'.rows| == |t.rows| + |files|
    && KeepsRows(t, t')
    && RowsFor(t', files)
    && NewRowsFrom(t, t', files)
    && (PathsUnique(t) ==> PathsUnique(t'))
  }

  /** Every row of `t` is in `t'` unchanged. */
  ghost predicate KeepsRows(t: DigestTable, t': DigestTable) {
    forall id :: id in t.rows ==> id in t'.rows && t'.rows[id] == t.rows[id]
  }

  /** Some row of `t` equals `row`. */
  ghost predicate HasRow(t: DigestTable, row: Row) {
    exists id :: id in t.rows && t.rows[id] == row
  }

  /** Each of `files` has a row in `t`. */
  ghost predicate RowsFor(t: DigestTable, files: seq<FileDigest>) {
    forall i :: 0 <= i < |files| ==> HasRow(t, RowOf(files[i]))
  }

  /** Each row of `t'` that `t` lacks is the row of one of `files`. */
  ghost predicate NewRowsFrom(t: DigestTable, t': DigestTable, files: seq<FileDigest>) {
    forall id :: id in t'.rows && id !in t.rows ==> exists i :: 0 <= i < |files| && t'.rows[id] == RowOf(files[i])
  }

  lemma PathsSingle(f: FileDigest)
    ensures Paths([f]) == {f.path}
  {
    assert [f][0] == f;
  }

  lemma PathsConcat(a: seq<FileDigest>, b: seq<FileDigest>)
    ensures Paths(a + b) == Paths(a) + Paths(b)
  {
    var ab := a + b;
    forall p | p in Paths(ab)
      ensures p in Paths(a) + Paths(b)
    {
      var i :| 0 <= i < |ab| && ab[i].path == p;
      if i < |a| {
        assert ab[i] == a[i];
      } else {
        assert ab[i] == b[i - |a|];
      }
    }
    forall p | p in Paths(a) + Paths(b)
      ensures p in Paths(ab)
    {
      if p in Paths(a) {
        var i :| 0 <= i < |a| && a[i].path == p;
        assert ab[i] == a[i];
      } else {
        var i :| 0 <= i < |b| && b[i].path == p;
        assert ab[|a| + i] == b[i];
      }
    }
  }

  lemma ExtendsNothing(t: DigestTable)
    ensures Extends(t, t, [])
  {
    assert Paths([]) == {};
  }

  lemma ExtendsTrans(t: DigestTable, t1: DigestTable, t2: DigestTable, a: seq<FileDigest>, b: seq<FileDigest>)
    requires Extends(t, t1, a) && Extends(t1, t2, b)
    ensures Extends(t, t2, a + b)
  {
    PathsConcat(a, b);
    RowsForTrans(t1, t2, a, b);
    NewRowsFromTrans(t, t1, t2, a, b);
    assert KeepsRows(t, t2) by {
      forall id | id in t.rows
        ensures id in t2.rows && t2.rows[id] == t.rows[id]
      {
        assert id in t1.rows;
      }
    }
    assert |a + b| == |a| + |b|;
  }

  lemma RowsForTrans(t1: DigestTable, t2: DigestTable, a: seq<FileDigest>, b: seq<FileDigest>)
    requires RowsFor(t1, a) && KeepsRows(t1, t2) && RowsFor(t2, b)
    ensures RowsFor(t2, a + b)
  {
    forall i | 0 <= i < |a + b|
      ensures HasRow(t2, RowOf((a + b)[i]))
    {
      if i < |a| {
        assert (a + b)[i] == a[i];
        assert HasRow(t1, RowOf(a[i]));
        var id :| id in t1.rows && t1.rows[id] == RowOf(a[i]);
        assert t2.rows[id] == RowOf(a[i]);
      } else {
        assert (a + b)[i] == b[i - |a|];
        assert HasRow(t2, RowOf(b[i - |a|]));
      }
    }
  }

  lemma NewRowsFromTrans(t: DigestTable, t1: DigestTable, t2: DigestTable, a: seq<FileDigest>, b: seq<FileDigest>)
    requires NewRowsFrom(t, t1, a) && KeepsRows(t1, t2) && NewRowsFrom(t1, t2, b)
    ensures NewRowsFrom(t, t2, a + b)
  {
    var ab := a + b;
    forall id | id in t2.rows && id !in t.rows
      ensures exists i :: 0 <= i < |ab| && t2.rows[id] == RowOf(ab[i])
    {
      if id in t1.rows {
        var i :| 0 <= i < |a| && t1.rows[id] == RowOf(a[i]);
        assert ab[i] == a[i];
      } else {
        var i :| 0 <= i < |b| && t2.rows[id] == RowOf(b[i]);
        assert ab[|a| + i] == b[i];
      }
    }
  }

  /** Inserting a list is possible exactly when its head can be inserted and
      its tail can then be inserted into the result. */
  lemma FreshCons(t: DigestTable, t1: DigestTable, files: seq<FileDigest>)
    requires |files| > 0 && Extends(t, t1, [files[0]])
    ensures Fresh(t, files) <==> files[0].path !in StoredPaths(t) && Fresh(t1, files[1..])
  {
    PathsSingle(files[0]);
    var rest := files[1..];
    assert forall i :: 1 <= i < |files| ==> files[i] == rest[i - 1];
    if files[0].path !in StoredPaths(t) && Fresh(t1, rest) {
      forall i, j | 0 <= i < j < |files|
        ensures files[i].path != files[j].path
      {
        if i > 0 {
          assert rest[i - 1] == files[i] && rest[j - 1] == files[j];
        } else {
          assert rest[j - 1].path !in StoredPaths(t1);
        }
      }
    }
  }

  /** insert_many_filedigests: all of `files` in one transaction. A path that
      is already stored, or that comes twice, makes its insert ignore the row
      and the whole transaction fail, leaving the table as it was; the error
      names the first such path. */
  function InsertManyFileDigests(t: DigestTable, files: seq<FileDigest>): (r: Result<DigestTable>)
    ensures r.Ok? <==> Fresh(t, files)
    ensures r.Ok? ==> Extends(t, r.value, files)
    ensures r.Err? ==> exists i :: FirstRefused(t, files, i) && r.error == PathAlreadyStored(files[i].path)
    decreases |files|
  {
    if |files| == 0 then
      ExtendsNothing(t);
      Ok(t)
    else
      match InsertFileDigest(t, files[0])
      case Err(e) =>
        assert files[..1] == [files[0]] && files[..0] == [];
        assert FirstRefused(t, files, 0);
        Err(e)
      case Ok(t1) =>
        var rest := InsertManyFileDigests(t1, files[1..]);
        InsertManyStep(t, t1, files, rest);
        rest
  }

  /** The recursive step of InsertManyFileDigests: the head went in, and
      the tail's outcome is the outcome for the whole list. */
  lemma InsertManyStep(t: DigestTable, t1: DigestTable, files: seq<FileDigest>, rest: Result<DigestTable>)
    requires |files| > 0 && InsertFileDigest(t, files[0]) == Ok(t1)
    requires rest.Ok? <==> Fresh(t1, files[1..])
    requires rest.Ok? ==> Extends(t1, rest.value, files[1..])
    requires rest.Err? ==> exists i :: FirstRefused(t1, files[1..], i) && rest.error == PathAlreadyStored(files[1..][i].path)
    ensures rest.Ok? <==> Fresh(t, files)
    ensures rest.Ok? ==> Extends(t, rest.value, files)
    ensures rest.Err? ==> exists i :: FirstRefused(t, files, i) && rest.error == PathAlreadyStored(files[i].path)
  {
    InsertExtends(t, files[0]);
    FreshCons(t, t1, files);
    if rest.Ok? {
      TailExtends(t, t1, rest.value, files);
    } else {
      var i :| FirstRefused(t1, files[1..], i) && rest.error == PathAlreadyStored(files[1..][i].path);
      assert files[1..][i] == files[i + 1];
      RefusedLater(t, t1, files, i);
    }
  }

  /** After a batch prefix that can go in, a file is refused exactly when
      its path is already stored or repeats a path earlier in the batch. */
  lemma RefusedWhy(t: DigestTable, files: seq<FileDigest>, i: nat)
    requires i < |files| && Fresh(t, files[..i])
    ensures FirstRefused(t, files, i) <==>
              files[i].path in StoredPaths(t) || exists j :: 0 <= j < i && files[j].path == files[i].path
  {
    var pre, upto := files[..i], files[..i + 1];
    assert forall k :: 0 <= k < i ==> upto[k] == pre[k] && pre[k] == files[k];
    assert upto[i] == files[i];
  }

  /** The first refusal in the tail, after the head went in, is the first
      refusal in the whole list, one position later. */
  lemma RefusedLater(t: DigestTable, t1: DigestTable, files: seq<FileDigest>, i: nat)
    requires |files| > 0 && InsertFileDigest(t, files[0]) == Ok(t1)
    requires FirstRefused(t1, files[1..], i)
    ensures FirstRefused(t, files, i + 1)
  {
    InsertExtends(t, files[0]);
    var short, long := files[..i + 1], files[..i + 2];
    assert short[0] == files[0] && long[0] == files[0];
    assert short[1..] == files[1..][..i] && long[1..] == files[1..][..i + 1];
    FreshCons(t, t1, short);
    FreshCons(t, t1, long);
  }

  lemma TailExtends(t: DigestTable, t1: DigestTable, t2: DigestTable, files: seq<FileDigest>)
    requires |files| > 0 && Extends(t, t1, [files[0]]) && Extends(t1, t2, files[1..])
    ensures Extends(t, t2, files)
  {
    ExtendsTrans(t, t1, t2, [files[0]], files[1..]);
    assert [files[0]] + files[1..] == files;
  }

  /** A successful single insert extends the table by that file. */
  lemma InsertExtends(t: DigestTable, f: FileDigest)
    requires InsertFileDigest(t, f).Ok?
    ensures Extends(t, InsertFileDigest(t, f).value, [f])
  {
    var t1 := InsertFileDigest(t, f).value;
    PathsSingle(f);
    assert RowOf(f) == t1.rows[NextId(t)];
    assert t1.rows.Keys == t.rows.Keys + {NextId(t)};
    assert [f][0] == f;
  }

  /** The batch inserts of one hashing pass in order; the first failing
      batch ends the pass, and the batches before it stay committed. */
  function CommitDigestBatches(t: DigestTable, flushes: seq<seq<FileDigest>>): (r: (DigestTable, Outcome))
    ensures r.1.Pass? <==> Fresh(t, Concat(flushes))
    ensures r.1.Pass? ==> Extends(t, r.0, Concat(flushes))
    ensures r.1.Fail? ==> exists k :: 0 <= k < |flushes| && Extends(t, r.0, Concat(flushes[..k]))
                                      && InsertManyFileDigests(r.0, flushes[k]) == Err(r.1.error)
    decreases |flushes|
  {
    if |flushes| == 0 then
      ExtendsNothing(t);
      (t, Pass)
    else
      ConcatCons(flushes[0], flushes[1..]);
      assert [flushes[0]] + flushes[1..] == flushes;
      match InsertManyFileDigests(t, flushes[0])
      case Err(e) =>
        ExtendsNothing(t);
        assert flushes[..0] == [];
        FreshSplit(t, t, flushes[0], Concat(flushes[1..]));
        (t, Fail(e))
      case Ok(t1) =>
        FreshSplit(t, t1, flushes[0], Concat(flushes[1..]));
        var r := CommitDigestBatches(t1, flushes[1..]);
        if r.1.Pass? then
          ExtendsTrans(t, t1, r.0, flushes[0], Concat(flushes[1..]));
          r
        else
          FailedLater(t, t1, r.0, flushes, r.1.error);
          r
  }

  lemma FailedLater(t: DigestTable, t1: DigestTable, r: DigestTable, flushes: seq<seq<FileDigest>>, e: Error)
    requires |flushes| > 0 && Extends(t, t1, flushes[0])
    requires exists k :: 0 <= k < |flushes[1..]| && Extends(t1, r, Concat(flushes[1..][..k]))
                         && InsertManyFileDigests(r, flushes[1..][k]) == Err(e)
    ensures exists k :: 0 <= k < |flushes| && Extends(t, r, Concat(flushes[..k]))
                        && InsertManyFileDigests(r, flushes[k]) == Err(e)
  {
    var rest := flushes[1..];
    var k :| 0 <= k < |rest| && Extends(t1, r, Concat(rest[..k])) && InsertManyFileDigests(r, rest[k]) == Err(e);
    ExtendsTrans(t, t1, r, flushes[0], Concat(rest[..k]));
    ConcatPrefix(flushes, k);
    assert rest[k] == flushes[k + 1];
  }

  /** A concatenation can be inserted exactly when its first part can, and
      then its second part can be inserted into the result. */
  lemma FreshSplit(t: DigestTable, t1: DigestTable, a: seq<FileDigest>, b: seq<FileDigest>)
    requires Fresh(t, a) ==> Extends(t, t1, a)
    requires !Fresh(t, a) ==> t1 == t
    ensures Fresh(t, a + b) <==> Fresh(t, a) && Fresh(t1, b)
  {
    var ab := a + b;
    if Fresh(t, ab) {
      forall i, j | 0 <= i < j < |a|
        ensures a[i].path != a[j].path
      {
        assert ab[i] == a[i] && ab[j] == a[j];
      }
      forall i | 0 <= i < |a|
        ensures a[i].path !in StoredPaths(t)
      {
        assert ab[i] == a[i];
      }
      forall i, j | 0 <= i < j < |b|
        ensures b[i].path != b[j].path
      {
        assert ab[|a| + i] == b[i] && ab[|a| + j] == b[j];
      }
      forall i | 0 <= i < |b|
        ensures b[i].path !in StoredPaths(t1)
      {
        assert ab[|a| + i] == b[i];
        forall k | 0 <= k < |a|
          ensures a[k].path != b[i].path
        {
          assert ab[k] == a[k];
        }
      }
    }
    if Fresh(t, a) && Fresh(t1, b) {
      forall i, j | 0 <= i < j < |ab|
        ensures ab[i].path != ab[j].path
      {
        if j < |a| {
          assert ab[i] == a[i] && ab[j] == a[j];
        } else if i >= |a| {
          assert ab[i] == b[i - |a|] && ab[j] == b[j - |a|];
        } else {
          assert ab[i] == a[i] && ab[j] == b[j - |a|];
          assert a[i].path in Paths(a);
        }
      }
      forall i | 0 <= i < |ab|
        ensures ab[i].path !in StoredPaths(t)
      {
        if i < |a| {
          assert ab[i] == a[i];
        } else {
          assert ab[i] == b[i - |a|];
        }
      }
    }
  }

  /** The size of the read buffer. */
  const BufferSize: nat := 1024

  /** get_hash: reads the file in chunks of the buffer's size and feeds every
      chunk to the hash. A chunk shorter than the buffer (possibly empty)
      ends the loop. The chunks together are exactly the file, so the digest
      is the hash of the whole file. */
  method GetHash(fs: map<string, seq<byte>>, path: string, hash: seq<byte> -> seq<byte>)
    returns (r: Result<seq<byte>>, chunks: seq<seq<byte>>)
    ensures path !in fs ==> r == Err(Unreadable(path)) && chunks == []
    ensures path in fs ==> r == Ok(hash(fs[path]))
    ensures path in fs ==> Concat(chunks) == fs[path]
    ensures path in fs ==> |chunks| > 0 && |chunks[|chunks| - 1]| < BufferSize
    ensures forall i :: 0 <= i < |chunks| - 1 ==> |chunks[i]| == BufferSize
  {
    if path !in fs {
      return Err(Unreadable(path)), [];
    }
    var data := fs[path];
    var pos := 0;
    chunks := [];
    while true
      invariant 0 <= pos <= |data|
      invariant Concat(chunks) == data[..pos]
      invariant forall i :: 0 <= i < |chunks| ==> |chunks[i]| == BufferSize
      decreases |data| - pos
    {
      var n := if |data| - pos < BufferSize then |data| - pos else BufferSize;
      var chunk := data[pos..pos + n];
      ConcatAppend(chunks, chunk);
      assert data[..pos] + chunk == data[..pos + n];
      chunks := chunks + [chunk];
      pos := pos + n;
      if n == 0 || n < BufferSize {
        break;
      }
    }
    assert pos == |data| && data[..pos] == data;
    r := Ok(hash(data));
  }

  /** What hashing one path yields: the digest and size of its contents, with
      the placeholder id -1, or an error when it cannot be opened. */
  function DigestOf(fs: map<string, seq<byte>>, hash: seq<byte> -> seq<byte>, path: string): Result<FileDigest> {
    if path in fs then Ok(FileDigest(-1, path, hash(fs[path]), |fs[path]|)) else Err(Unreadable(path))
  }

  /** _create_filedigest: the hash from get_hash and the size from the file's
      metadata. */
  method CreateFileDigest(fs: map<string, seq<byte>>, hash: seq<byte> -> seq<byte>, path: string)
    returns (r: Result<FileDigest>)
    ensures r == DigestOf(fs, hash, path)
  {
    var digest, _ := GetHash(fs, path, hash);
    if digest.Err? {
      return Err(digest.error);
    }
    r := Ok(FileDigest(-1, path, digest.value, |fs[path]|));
  }

  /** The row a readable path gets. */
  function RowFor(fs: map<string, seq<byte>>, hash: seq<byte> -> seq<byte>, path: string): Row
    requires path in fs
  {
    Row(path, hash(fs[path]), |fs[path]|)
  }

  /** The elements of a sequence, as a set. */
  function Elements<T>(s: seq<T>): set<T> {
    set i | 0 <= i < |s| :: s[i]
  }

  /** The digests that reach the batching loop when the paths are hashed in
      the order `paths`: one per readable path, in that order. */
  ghost predicate HashedInOrder(fs: map<string, seq<byte>>, hash: seq<byte> -> seq<byte>, paths: seq<string>, received: seq<Result<FileDigest>>) {
    |received| == |paths| && forall i :: 0 <= i < |paths| ==> received[i] == DigestOf(fs, hash, paths[i])
  }

  lemma HashedPrefix(fs: map<string, seq<byte>>, hash: seq<byte> -> seq<byte>, paths: seq<string>, received: seq<Result<FileDigest>>, n: nat)
    requires HashedInOrder(fs, hash, paths, received) && n <= |paths|
    ensures HashedInOrder(fs, hash, paths[..n], received[..n])
  {
  }

  /** The committed digests are those of the readable paths. */
  lemma {:induction false} OksPaths(fs: map<string, seq<byte>>, hash: seq<byte> -> seq<byte>, paths: seq<string>, received: seq<Result<FileDigest>>)
    requires HashedInOrder(fs, hash, paths, received)
    ensures Paths(Oks(received)) == Elements(paths) * fs.Keys
    decreases |paths|
  {
    if |paths| > 0 {
      var n := |paths| - 1;
      HashedPrefix(fs, hash, paths, received, n);
      OksPaths(fs, hash, paths[..n], received[..n]);
      PathsConcat(Oks(received[..n]), OkPart(received[n]));
      if paths[n] in fs {
        PathsSingle(received[n].value);
      }
      assert Elements(paths) == Elements(paths[..n]) + {paths[n]} by {
        assert forall i :: 0 <= i < n ==> paths[..n][i] == paths[i];
        forall x | x in Elements(paths)
          ensures x in Elements(paths[..n]) + {paths[n]}
        {
          var i :| 0 <= i < |paths| && paths[i] == x;
          if i < n {
            assert paths[..n][i] == x;
          }
        }
      }
    }
  }

  /** Each committed digest carries the hash and size of its path. */
  lemma {:induction false} OksRows(fs: map<string, seq<byte>>, hash: seq<byte> -> seq<byte>, paths: seq<string>, received: seq<Result<FileDigest>>)
    requires HashedInOrder(fs, hash, paths, received)
    ensures forall i :: 0 <= i < |Oks(received)| ==> Oks(received)[i].path in fs && RowOf(Oks(received)[i]) == RowFor(fs, hash, Oks(received)[i].path)
    decreases |paths|
  {
    if |paths| > 0 {
      var n := |paths| - 1;
      HashedPrefix(fs, hash, paths, received, n);
      OksRows(fs, hash, paths[..n], received[..n]);
      var init := Oks(received[..n]);
      var all := init + OkPart(received[n]);
      forall i | 0 <= i < |all|
        ensures all[i].path in fs && RowOf(all[i]) == RowFor(fs, hash, all[i].path)
      {
        if i < |init| {
          assert all[i] == init[i];
        }
      }
    }
  }

  /** Hashing distinct paths commits distinct paths. */
  lemma {:induction false} OksDistinct(fs: map<string, seq<byte>>, hash: seq<byte> -> seq<byte>, paths: seq<string>, received: seq<Result<FileDigest>>)
    requires HashedInOrder(fs, hash, paths, received) && Distinct(paths)
    ensures DistinctPaths(Oks(received))
    decreases |paths|
  {
    if |paths| > 0 {
      var n := |paths| - 1;
      HashedPrefix(fs, hash, paths, received, n);
      OksDistinct(fs, hash, paths[..n], received[..n]);
      OksPaths(fs, hash, paths[..n], received[..n]);
      var init := Oks(received[..n]);
      var all := init + OkPart(received[n]);
      if paths[n] in fs {
        forall i | 0 <= i < |init|
          ensures init[i].path != paths[n]
        {
          assert init[i].path in Paths(init);
          var k :| 0 <= k < n && paths[..n][k] == init[i].path;
          assert paths[k] == paths[..n][k];
        }
        forall i, j | 0 <= i < j < |all|
          ensures all[i].path != all[j].path
        {
          assert all[i] == init[i];
          if j < |init| {
            assert all[j] == init[j];
          }
        }
      } else {
        assert all == init;
      }
    }
  }

  /** The rows a pass adds, when `files` are the digests it committed. */
  ghost predicate RowsFromFilelist(t: DigestTable, r: DigestTable, filelist: set<string>, fs: map<string, seq<byte>>, hash: seq<byte> -> seq<byte>) {
    && (forall id :: id in t.rows ==> id in r.rows && r.rows[id] == t.rows[id])
    && (forall id :: id in r.rows && id !in t.rows ==>
          var p := r.rows[id].path;
          p in filelist && p in fs && r.rows[id] == RowFor(fs, hash, p))
    && (PathsUnique(t) ==> PathsUnique(r))
  }

  /** process_filelist: hashes every path of the list in some order, passes
      the results through the batching loop and commits the batches. The
      pass succeeds exactly when no readable path of the list is already
      stored; then every readable path has gained its row. Unreadable paths
      are skipped. Whatever happens, old rows stay and every new row belongs
      to a readable path of the list. */
  method ProcessFilelist(t: DigestTable, filelist: set<string>, fs: map<string, seq<byte>>,
                         hash: seq<byte> -> seq<byte>, batchSize: nat)
    returns (r: DigestTable, outcome: Outcome)
    ensures outcome.Pass? <==> forall p :: p in filelist && p in fs ==> p !in StoredPaths(t)
    ensures outcome.Pass? ==> StoredPaths(r) == StoredPaths(t) + (filelist * fs.Keys)
    ensures outcome.Pass? ==> forall p :: p in filelist && p in fs ==> HasRow(r, RowFor(fs, hash, p))
    ensures RowsFromFilelist(t, r, filelist, fs, hash)
  {
    var paths := Enumerate(filelist);
    var received: seq<Result<FileDigest>> := [];
    for i := 0 to |paths|
      invariant |received| == i
      invariant forall j :: 0 <= j < i ==> received[j] == DigestOf(fs, hash, paths[j])
    {
      var d := CreateFileDigest(fs, hash, paths[i]);
      received := received + [d];
    }
    var flushes := Batches(received, batchSize);
    var committed := CommitDigestBatches(t, flushes);
    r, outcome := committed.0, committed.1;
    PassOutcome(t, filelist, fs, hash, paths, received, flushes, r, outcome);
  }

  /** What committing the batches of one pass leaves behind. */
  lemma PassOutcome(t: DigestTable, filelist: set<string>, fs: map<string, seq<byte>>, hash: seq<byte> -> seq<byte>,
                    paths: seq<string>, received: seq<Result<FileDigest>>, flushes: seq<seq<FileDigest>>,
                    r: DigestTable, outcome: Outcome)
    requires Enumerates(paths, filelist) && HashedInOrder(fs, hash, paths, received)
    requires Concat(flushes) == Oks(received) && (r, outcome) == CommitDigestBatches(t, flushes)
    ensures outcome.Pass? <==> forall p :: p in filelist && p in fs ==> p !in StoredPaths(t)
    ensures outcome.Pass? ==> StoredPaths(r) == StoredPaths(t) + (filelist * fs.Keys)
    ensures outcome.Pass? ==> forall p :: p in filelist && p in fs ==> HasRow(r, RowFor(fs, hash, p))
    ensures RowsFromFilelist(t, r, filelist, fs, hash)
  {
    var files := Oks(received);
    OksPaths(fs, hash, paths, received);
    OksRows(fs, hash, paths, received);
    OksDistinct(fs, hash, paths, received);
    assert Elements(paths) == filelist by {
      forall x | x in filelist
        ensures x in Elements(paths)
      {
        var i :| 0 <= i < |paths| && paths[i] == x;
      }
    }
    PassesWhenFresh(t, files, filelist, fs);
    if outcome.Pass? {
      PassedRows(t, r, files, filelist, fs, hash);
    } else {
      FailedRows(t, r, files, flushes, filelist, fs, hash);
    }
  }

  lemma PassedRows(t: DigestTable, r: DigestTable, files: seq<FileDigest>, filelist: set<string>,
                   fs: map<string, seq<byte>>, hash: seq<byte> -> seq<byte>)
    requires Extends(t, r, files) && Paths(files) == filelist * fs.Keys
    requires forall i :: 0 <= i < |files| ==> files[i].path in fs && RowOf(files[i]) == RowFor(fs, hash, files[i].path)
    ensures forall p :: p in filelist && p in fs ==> HasRow(r, RowFor(fs, hash, p))
    ensures RowsFromFilelist(t, r, filelist, fs, hash)
  {
    forall p | p in filelist && p in fs
      ensures HasRow(r, RowFor(fs, hash, p))
    {
      assert p in Paths(files);
      var i :| 0 <= i < |files| && files[i].path == p;
      assert RowsFor(r, files);
    }
    forall i | 0 <= i < |files|
      ensures files[i].path in filelist
    {
      assert files[i].path in Paths(files);
    }
    PrefixRowsFromFiles(t, r, files, filelist, fs, hash);
  }

  lemma FailedRows(t: DigestTable, r: DigestTable, files: seq<FileDigest>, flushes: seq<seq<FileDigest>>, filelist: set<string>,
                   fs: map<string, seq<byte>>, hash: seq<byte> -> seq<byte>)
    requires exists k :: 0 <= k < |flushes| && Extends(t, r, Concat(flushes[..k]))
    requires Concat(flushes) == files && Paths(files) == filelist * fs.Keys
    requires forall i :: 0 <= i < |files| ==> files[i].path in fs && RowOf(files[i]) == RowFor(fs, hash, files[i].path)
    ensures RowsFromFilelist(t, r, filelist, fs, hash)
  {
    var k :| 0 <= k < |flushes| && Extends(t, r, Concat(flushes[..k]));
    ConcatSplit(flushes, k);
    var done := Concat(flushes[..k]);
    forall i | 0 <= i < |done|
      ensures done[i].path in fs && RowOf(done[i]) == RowFor(fs, hash, done[i].path) && done[i].path in filelist
    {
      assert done[i] == files[i];
      assert files[i].path in Paths(files);
    }
    PrefixRowsFromFiles(t, r, done, filelist, fs, hash);
  }

  lemma PassesWhenFresh(t: DigestTable, files: seq<FileDigest>, filelist: set<string>, fs: map<string, seq<byte>>)
    requires DistinctPaths(files) && Paths(files) == filelist * fs.Keys
    ensures Fresh(t, files) <==> forall p :: p in filelist && p in fs ==> p !in StoredPaths(t)
  {
    if Fresh(t, files) {
      forall p | p in filelist && p in fs
        ensures p !in StoredPaths(t)
      {
        assert p in Paths(files);
      }
    }
    if forall p :: p in filelist && p in fs ==> p !in StoredPaths(t) {
      forall i | 0 <= i < |files|
        ensures files[i].path !in StoredPaths(t)
      {
        assert files[i].path in Paths(files);
      }
    }
  }

  lemma PrefixRowsFromFiles(t: DigestTable, r: DigestTable, done: seq<FileDigest>, filelist: set<string>,
                            fs: map<string, seq<byte>>, hash: seq<byte> -> seq<byte>)
    requires Extends(t, r, done)
    requires forall i :: 0 <= i < |done| ==> done[i].path in fs && RowOf(done[i]) == RowFor(fs, hash, done[i].path) && done[i].path in filelist
    ensures RowsFromFilelist(t, r, filelist, fs, hash)
  {
    forall id | id in r.rows && id !in t.rows
      ensures r.rows[id].path in filelist && r.rows[id].path in fs && r.rows[id] == RowFor(fs, hash, r.rows[id].path)
    {
      var i :| 0 <= i < |done| && r.rows[id] == RowOf(done[i]);
    }
  }

  /** The concatenation of a prefix of batches is a prefix of the whole. */
  lemma {:induction false} ConcatSplit<T>(ss: seq<seq<T>>, k: nat)
    requires k <= |ss|
    ensures Concat(ss) == Concat(ss[..k]) + Concat(ss[k..])
    decreases |ss|
  {
    if k < |ss| {
      var init, last := ss[..|ss| - 1], ss[|ss| - 1];
      ConcatSplit(init, k);
      assert ss[..k] == init[..k];
      assert ss[k..] == init[k..] + [last];
      ConcatAppend(init[k..], last);
    } else {
      assert ss[..k] == ss;
      assert ss[k..] == [];
    }
  }
}
