/** The `file_digests` table and the operations the rest of the program runs
    against it (src/database.rs). The SQL engine is replaced by a map from row
    id to row; the UNIQUE constraint on `path` becomes the invariant
    `PathsUnique`, which every operation below preserves. */
module Database {
  import opened Base

  /** One file's record as the program passes it around. */
  datatype FileDigest = FileDigest(id: int, path: string, digest: seq<byte>, size: nat)

  /** What a row of `file_digests` stores under its id. */
  datatype Row = Row(path: string, digest: seq<byte>, size: nat)

  datatype DigestTable = DigestTable(rows: map<int, Row>)

  /** The three tables the program keeps in its database file. */
  datatype Store = Store(
    digests: DigestTable,
    histograms: map<int, seq<byte>>,   // video_histograms: id -> histogram
    videoHashes: map<int, seq<byte>>)  // video_hash: id -> histogram

  function RowOf(f: FileDigest): Row {
    Row(f.path, f.digest, f.size)
  }

  function StoredPaths(t: DigestTable): set<string> {
    set id | id in t.rows :: t.rows[id].path
  }

  /** The UNIQUE constraint on `path`: no two rows store the same path. */
  predicate PathsUnique(t: DigestTable) {
    forall a, b :: a in t.rows && b in t.rows && t.rows[a].path == t.rows[b].path ==> a == b
  }

  lemma MaxExists(ids: set<int>)
    requires ids != {}
    ensures exists m :: m in ids && forall i :: i in ids ==> i <= m
    decreases ids
  {
    var x := Pick(ids);
    if ids != {x} {
      MaxExists(ids - {x});
      var m :| m in ids - {x} && forall i :: i in ids - {x} ==> i <= m;
      var top := if x > m then x else m;
      forall i | i in ids
        ensures i <= top
      {
        if i != x {
          assert i in ids - {x};
        }
      }
      assert top in ids;
    } else {
      assert forall i :: i in ids ==> i <= x;
    }
  }

  function MaxId(ids: set<int>): (m: int)
    requires ids != {}
    ensures m in ids && forall i :: i in ids ==> i <= m
  {
    MaxExists(ids);
    var m :| m in ids && forall i :: i in ids ==> i <= m;
    m
  }

  /** The rowid SQLite gives a row inserted without one: one more than the
      largest rowid in the table, or 1 in an empty table. */
  function NextId(t: DigestTable): (id: int)
    ensures id !in t.rows
    ensures forall k :: k in t.rows ==> k < id
  {
    if t.rows.Keys == {} then 1 else MaxId(t.rows.Keys) + 1
  }

  /** Database::new: opening with `reset` drops `file_digests` and
      `video_histograms` (but not `video_hash`); without it every table keeps
      its rows. */
  function Open(s: Store, reset: bool): (r: Store)
    ensures reset ==> r.digests.rows == map[] && r.histograms == map[]
    ensures !reset ==> r == s
    ensures r.videoHashes == s.videoHashes
    ensures PathsUnique(s.digests) ==> PathsUnique(r.digests)
  {
    if reset then Store(DigestTable(map[]), map[], s.videoHashes) else s
  }

  /** `files` lists every row of `t` exactly once. */
  predicate ListsTable(files: seq<FileDigest>, t: DigestTable) {
    && (forall i :: 0 <= i < |files| ==> files[i].id in t.rows && t.rows[files[i].id] == RowOf(files[i]))
    && (forall id :: id in t.rows ==> exists i :: 0 <= i < |files| && files[i].id == id)
    && (forall i, j :: 0 <= i < j < |files| ==> files[i].id != files[j].id)
  }

  lemma ListedPaths(files: seq<FileDigest>, t: DigestTable)
    requires ListsTable(files, t)
    ensures (set i | 0 <= i < |files| :: files[i].path) == StoredPaths(t)
  {
    forall p | p in StoredPaths(t)
      ensures p in (set i | 0 <= i < |files| :: files[i].path)
    {
      var id :| id in t.rows && t.rows[id].path == p;
      var i :| 0 <= i < |files| && files[i].id == id;
      assert files[i].path == p;
    }
  }

  /** get_all_filedigests: every stored row exactly once, in no promised order. */
  method GetAllFileDigests(t: DigestTable) returns (files: seq<FileDigest>)
    ensures ListsTable(files, t)
    ensures |files| == |t.rows|
  {
    var ids := Enumerate(t.rows.Keys);
    files := [];
    for k := 0 to |ids|
      invariant |files| == k
      invariant forall i :: 0 <= i < k ==> files[i] == FileDigest(ids[i], t.rows[ids[i]].path, t.rows[ids[i]].digest, t.rows[ids[i]].size)
    {
      var row := t.rows[ids[k]];
      files := files + [FileDigest(ids[k], row.path, row.digest, row.size)];
    }
    forall id | id in t.rows
      ensures exists i :: 0 <= i < |files| && files[i].id == id
    {
      var i :| 0 <= i < |ids| && ids[i] == id;
      assert files[i].id == id;
    }
    EnumerationSize(ids, t.rows.Keys);
  }

  lemma {:induction false} EnumerationSize<T>(xs: seq<T>, s: set<T>)
    requires Enumerates(xs, s)
    ensures |xs| == |s|
    decreases |xs|
  {
    if |xs| > 0 {
      var last := xs[|xs| - 1];
      var init := xs[..|xs| - 1];
      assert Enumerates(init, s - {last}) by {
        forall x | x in s - {last}
          ensures x in init
        {
          var i :| 0 <= i < |xs| && xs[i] == x;
          assert i != |xs| - 1;
          assert init[i] == x;
        }
      }
      EnumerationSize(init, s - {last});
    } else {
      assert forall x :: x !in s;
      assert s == {};
    }
  }

  /** insert_filedigest: INSERT OR IGNORE of (path, digest, size) under a
      fresh rowid; the caller's `id` field plays no part. Inserting an
      already stored path fails and changes nothing. */
  function InsertFileDigest(t: DigestTable, f: FileDigest): (r: Result<DigestTable>)
    ensures r.Err? <==> f.path in StoredPaths(t)
    ensures r.Err? ==> r.error == PathAlreadyStored(f.path)
    ensures r.Ok? ==> r.value.rows.Keys == t.rows.Keys + {NextId(t)}
    ensures r.Ok? ==> r.value.rows[NextId(t)] == Row(f.path, f.digest, f.size)
    ensures r.Ok? ==> forall id :: id in t.rows ==> r.value.rows[id] == t.rows[id]
    ensures r.Ok? ==> StoredPaths(r.value) == StoredPaths(t) + {f.path}
    ensures r.Ok? && PathsUnique(t) ==> PathsUnique(r.value)
  {
    if f.path in StoredPaths(t) then
      Err(PathAlreadyStored(f.path))
    else
      var t' := DigestTable(t.rows[NextId(t) := RowOf(f)]);
      assert StoredPaths(t') == StoredPaths(t) + {f.path} by {
        forall p | p in StoredPaths(t)
          ensures p in StoredPaths(t')
        {
          var id :| id in t.rows && t.rows[id].path == p;
          assert t'.rows[id].path == p;
        }
        assert t'.rows[NextId(t)].path == f.path;
      }
      Ok(t')
  }

  /** lookup_filedigest: the row stored under `id`, or an error when there is none. */
  function LookupFileDigest(t: DigestTable, id: int): (r: Result<FileDigest>)
    ensures r.Ok? <==> id in t.rows
    ensures r.Ok? ==> r.value.id == id && RowOf(r.value) == t.rows[id]
    ensures r.Err? ==> r.error == NoSuchRow(id)
  {
    if id in t.rows then
      Ok(FileDigest(id, t.rows[id].path, t.rows[id].digest, t.rows[id].size))
    else
      Err(NoSuchRow(id))
  }

  /** delete_filedigest: removes the row stored under `id` and reports how
      many rows went (1 or 0). */
  function DeleteFileDigest(t: DigestTable, id: int): (r: (DigestTable, nat))
    ensures r.1 == (if id in t.rows then 1 else 0)
    ensures r.0.rows.Keys == t.rows.Keys - {id}
    ensures forall k :: k in r.0.rows ==> r.0.rows[k] == t.rows[k]
    ensures PathsUnique(t) ==> PathsUnique(r.0)
  {
    (DigestTable(t.rows - {id}), if id in t.rows then 1 else 0)
  }

  /** Looking up the id a successful insert used returns the inserted row;
      every other lookup answers as before. */
  lemma {:induction false} InsertThenLookup(t: DigestTable, f: FileDigest, id: int)
    requires InsertFileDigest(t, f).Ok?
    ensures LookupFileDigest(InsertFileDigest(t, f).value, NextId(t)) == Ok(FileDigest(NextId(t), f.path, f.digest, f.size))
    ensures id != NextId(t) ==> LookupFileDigest(InsertFileDigest(t, f).value, id) == LookupFileDigest(t, id)
  {
    var t' := InsertFileDigest(t, f).value;
    if id != NextId(t) && id in t.rows {
      assert t'.rows[id] == t.rows[id];
    }
  }

  /** After a delete the id is gone and every other lookup answers as before. */
  lemma DeleteThenLookup(t: DigestTable, id: int, other: int)
    requires other != id
    ensures LookupFileDigest(DeleteFileDigest(t, id).0, id).Err?
    ensures LookupFileDigest(DeleteFileDigest(t, id).0, other) == LookupFileDigest(t, other)
  {
  }

  /** The unit tests of database.rs: three inserts into a freshly reset
      table get rowids 1, 2, 3, so looking up 2 returns the second file; and
      inserting a second file with an already stored path fails. */
  lemma InsertLookupExample(s: Store)
    ensures
      var empty := Open(s, true).digests;
      var f1 := FileDigest(1, "/tmp/abc", [0, 1, 2, 3], 1);
      var f2 := FileDigest(2, "/tmp/abcde", [0, 1, 2, 3], 1);
      var f3 := FileDigest(3, "/tmp/cde", [0, 1, 2, 3], 1);
      var t1 := InsertFileDigest(empty, f1);
      t1.Ok? &&
      var t2 := InsertFileDigest(t1.value, f2);
      t2.Ok? &&
      var t3 := InsertFileDigest(t2.value, f3);
      t3.Ok? && LookupFileDigest(t3.value, 2) == Ok(f2)
    ensures
      var f1 := FileDigest(1, "/tmp/a", [0, 1, 2, 3], 1);
      var f2 := FileDigest(2, "/tmp/a", [0, 1, 2, 4], 1);
      var t1 := InsertFileDigest(Open(s, true).digests, f1);
      t1.Ok? && InsertFileDigest(t1.value, f2).Err?
  {
    var empty := Open(s, true).digests;
    var f1 := FileDigest(1, "/tmp/abc", [0, 1, 2, 3], 1);
    var f2 := FileDigest(2, "/tmp/abcde", [0, 1, 2, 3], 1);
    var f3 := FileDigest(3, "/tmp/cde", [0, 1, 2, 3], 1);
    assert NextId(empty) == 1;
    var t1 := InsertFileDigest(empty, f1).value;
    assert t1.rows.Keys == {1};
    assert NextId(t1) == 2;
    var t2 := InsertFileDigest(t1, f2);
    assert StoredPaths(t1) == {"/tmp/abc"};
    assert t2.value.rows.Keys == {1, 2};
    assert NextId(t2.value) == 3;
    assert StoredPaths(t2.value) == {"/tmp/abc", "/tmp/abcde"};
    var t3 := InsertFileDigest(t2.value, f3);
    assert t3.value.rows[2] == t2.value.rows[2] == RowOf(f2);
  }
}
