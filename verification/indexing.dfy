/** One indexing run of the program (src/main.rs): optionally drop the rows
    of files that were not found any more, keep only the found files that
    the table does not hold yet, and hash and commit those. The directory
    walk is replaced by the set of paths it found. */
module Indexing {
  import opened Base
  import opened Database
  import opened FileHashing

  /** The table without the rows of paths outside `current`. */
  function Restrict(t: DigestTable, current: set<string>): DigestTable {
    DigestTable(map id | id in t.rows && t.rows[id].path in current :: t.rows[id])
  }

  /** Restricting keeps exactly the stored paths that are still current. */
  lemma RestrictPaths(t: DigestTable, current: set<string>)
    ensures StoredPaths(Restrict(t, current)) == StoredPaths(t) * current
  {
    var r := Restrict(t, current);
    forall p | p in StoredPaths(t) * current
      ensures p in StoredPaths(r)
    {
      var id :| id in t.rows && t.rows[id].path == p;
      assert r.rows[id].path == p;
    }
  }

  /** remove_outdated_files: walks the whole table and deletes every row
      whose path is not in `current`. The result is the table restricted to
      the current paths: the rows of current paths stay untouched and no
      other row is left. */
  method RemoveOutdatedFiles(t: DigestTable, current: set<string>) returns (r: DigestTable)
    ensures r == Restrict(t, current)
  {
    var files := GetAllFileDigests(t);
    r := t;
    for k := 0 to |files|
      invariant r.rows.Keys <= t.rows.Keys
      invariant forall id :: id in r.rows ==> r.rows[id] == t.rows[id]
      invariant forall id :: id in t.rows && t.rows[id].path in current ==> id in r.rows
      invariant forall j :: 0 <= j < k && files[j].path !in current ==> files[j].id !in r.rows
    {
      if files[k].path !in current {
        r := DeleteFileDigest(r, files[k].id).0;
      }
    }
    SweptListing(t, current, files, r);
  }

  /** After the sweep over a listing of the whole table, what is left is the
      restriction. */
  lemma SweptListing(t: DigestTable, current: set<string>, files: seq<FileDigest>, r: DigestTable)
    requires ListsTable(files, t)
    requires r.rows.Keys <= t.rows.Keys
    requires forall id :: id in r.rows ==> r.rows[id] == t.rows[id]
    requires forall id :: id in t.rows && t.rows[id].path in current ==> id in r.rows
    requires forall j :: 0 <= j < |files| && files[j].path !in current ==> files[j].id !in r.rows
    ensures r == Restrict(t, current)
  {
    var want := Restrict(t, current);
    forall id | id in r.rows
      ensures id in want.rows && want.rows[id] == r.rows[id]
    {
      var j :| 0 <= j < |files| && files[j].id == id;
      assert t.rows[files[j].id] == RowOf(files[j]);
      assert t.rows[id].path in current;
    }
    forall id | id in want.rows
      ensures id in r.rows
    {
      assert id in t.rows && t.rows[id].path in current;
    }
    assert r.rows == want.rows;
  }

  /** filter_out_files_already_in_database: the paths of `current` that no
      row stores. */
  method FilterOutFilesAlreadyInDatabase(t: DigestTable, current: set<string>) returns (r: set<string>)
    ensures r == current - StoredPaths(t)
  {
    var files := GetAllFileDigests(t);
    var inDatabase := set i | 0 <= i < |files| :: files[i].path;
    ListedPaths(files, t);
    var paths := Enumerate(current);
    r := {};
    for k := 0 to |paths|
      invariant forall p :: p in r <==> p !in inDatabase && exists j :: 0 <= j < k && paths[j] == p
    {
      if paths[k] !in inDatabase {
        r := r + {paths[k]};
      }
    }
  }

  /** update_database: one indexing run over the paths `found` in the
      directory. The run never fails: it only hashes paths the table lacks.
      Afterwards every readable found path is stored, so a second run over
      the same files hashes nothing but unreadable ones. With `clean` the
      rows of paths that were not found are gone; without it every old row
      stays. Old rows of found paths keep their digests, whether or not the
      file changed, and every new row is the digest of a readable found
      path. */
  method UpdateDatabase(t: DigestTable, found: set<string>, fs: map<string, seq<byte>>,
                        hash: seq<byte> -> seq<byte>, batchSize: nat, clean: bool)
    returns (r: DigestTable, outcome: Outcome)
    ensures outcome == Pass
    ensures clean ==> StoredPaths(r) == (StoredPaths(t) * found) + (found * fs.Keys)
    ensures !clean ==> StoredPaths(r) == StoredPaths(t) + (found * fs.Keys)
    ensures clean && found <= fs.Keys ==> StoredPaths(r) == found
    ensures found - StoredPaths(r) <= found - fs.Keys
    ensures forall id :: id in t.rows && (!clean || t.rows[id].path in found) ==> id in r.rows && r.rows[id] == t.rows[id]
    ensures forall id :: id in r.rows && id !in t.rows ==>
              r.rows[id].path in found && r.rows[id].path in fs && r.rows[id] == RowFor(fs, hash, r.rows[id].path)
    ensures PathsUnique(t) ==> PathsUnique(r)
  {
    var kept := t;
    if clean {
      kept := RemoveOutdatedFiles(t, found);
      RestrictPaths(t, found);
    }
    var toHash := FilterOutFilesAlreadyInDatabase(kept, found);
    r, outcome := ProcessFilelist(kept, toHash, fs, hash, batchSize);
    UpdateOutcome(t, kept, found, toHash, fs, hash, clean, r, outcome);
  }

  lemma UpdateOutcome(t: DigestTable, kept: DigestTable, found: set<string>, toHash: set<string>,
                      fs: map<string, seq<byte>>, hash: seq<byte> -> seq<byte>, clean: bool,
                      r: DigestTable, outcome: Outcome)
    requires kept == if clean then Restrict(t, found) else t
    requires StoredPaths(kept) == if clean then StoredPaths(t) * found else StoredPaths(t)
    requires toHash == found - StoredPaths(kept)
    requires outcome.Pass? <==> forall p :: p in toHash && p in fs ==> p !in StoredPaths(kept)
    requires outcome.Pass? ==> StoredPaths(r) == StoredPaths(kept) + (toHash * fs.Keys)
    requires RowsFromFilelist(kept, r, toHash, fs, hash)
    ensures outcome == Pass
    ensures StoredPaths(r) == StoredPaths(kept) + (found * fs.Keys)
    ensures forall id :: id in t.rows && (!clean || t.rows[id].path in found) ==> id in r.rows && r.rows[id] == t.rows[id]
    ensures forall id :: id in r.rows && id !in t.rows ==>
              r.rows[id].path in found && r.rows[id].path in fs && r.rows[id] == RowFor(fs, hash, r.rows[id].path)
    ensures PathsUnique(t) ==> PathsUnique(r)
  {
    forall id | id in r.rows && id !in t.rows
      ensures r.rows[id].path in found && r.rows[id].path in fs && r.rows[id] == RowFor(fs, hash, r.rows[id].path)
    {
      assert id !in kept.rows;
    }
    forall id | id in t.rows && (!clean || t.rows[id].path in found)
      ensures id in r.rows && r.rows[id] == t.rows[id]
    {
      assert id in kept.rows && kept.rows[id] == t.rows[id];
    }
    if clean && PathsUnique(t) {
      assert PathsUnique(kept);
    }
  }

  /** The rows the unit tests of main.rs insert into a freshly reset table:
      five files under rowids 1 to 5. */
  function TestTable(): DigestTable {
    DigestTable(map[
      1 := Row("/tmp/a", [0, 1, 2, 3], 1),
      2 := Row("/tmp/b", [0, 1, 2, 3], 1),
      3 := Row("/tmp/c", [1, 1, 2, 4], 1),
      4 := Row("/tmp/d", [1, 1, 2, 4], 1),
      5 := Row("/tmp/e", [1, 1, 2, 6], 1)])
  }

  /** The filtering test: with the first three files stored, the found files
      a to e leave d and e to hash. */
  lemma FilterOutExample()
    ensures var t := DigestTable(map id | id in TestTable().rows && id <= 3 :: TestTable().rows[id]);
      {"/tmp/a", "/tmp/b", "/tmp/c", "/tmp/d", "/tmp/e"} - StoredPaths(t) == {"/tmp/d", "/tmp/e"}
  {
    var t := DigestTable(map id | id in TestTable().rows && id <= 3 :: TestTable().rows[id]);
    assert t.rows.Keys == {1, 2, 3};
    assert StoredPaths(t) == {"/tmp/a", "/tmp/b", "/tmp/c"} by {
      assert t.rows[1].path == "/tmp/a" && t.rows[2].path == "/tmp/b" && t.rows[3].path == "/tmp/c";
    }
  }

  /** The removal test: with d no longer found, the rows 1, 2, 3 and 5 stay
      as they were and row 4 is gone. */
  lemma RemoveOutdatedExample()
    ensures var r := Restrict(TestTable(), {"/tmp/a", "/tmp/b", "/tmp/c", "/tmp/e"});
      r.rows.Keys == {1, 2, 3, 5} && forall id :: id in r.rows ==> r.rows[id] == TestTable().rows[id]
  {
    var r := Restrict(TestTable(), {"/tmp/a", "/tmp/b", "/tmp/c", "/tmp/e"});
    assert TestTable().rows[4].path == "/tmp/d";
    assert r.rows.Keys == {1, 2, 3, 5};
  }
}
