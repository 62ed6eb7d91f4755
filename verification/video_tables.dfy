/** What the two video passes (src/videohash.rs and src/videohistogram.rs)
    share: picking the stored files that look like videos and have no
    histogram yet, inserting histograms by file id all-or-nothing, and the
    pass that computes and commits them batch by batch. A histogram table
    (`video_hash` or `video_histograms`) is a map from file id to histogram.
    Decoding a video is replaced by a map from the readable videos' paths to
    their decoded frames. */
module VideoTables {
  import opened Base
  import opened Database
  import opened Batching
  import opened ColorHistogram

  /** A file id to histogram table. */
  type HistogramTable = map<int, seq<byte>>

  /** A stored file that is waiting for its histogram: (id, path, size). */
  datatype Candidate = Candidate(id: int, path: string, size: nat)

  /** A computed histogram, as the worker pool sends it back (VideoHash with
      an empty path, or VideoHistogram). The size only feeds a log line. */
  datatype VideoEntry = VideoEntry(id: int, histogram: seq<byte>, size: nat)

  /** SQL lower(): ASCII upper-case letters become lower-case, everything
      else stays. */
  function LowerAscii(c: char): (d: char)
    ensures 'A' <= c <= 'Z' ==> 'a' <= d <= 'z' && d as int - c as int == 32
    ensures !('A' <= c <= 'Z') ==> d == c
  {
    if 'A' <= c <= 'Z' then (c as int + 32) as char else c
  }

  function Lower(s: string): (r: string)
    ensures |r| == |s| && forall i :: 0 <= i < |s| ==> r[i] == LowerAscii(s[i])
  {
    seq(|s|, i requires 0 <= i < |s| => LowerAscii(s[i]))
  }

  /** SQL substr(path, -3): the last three characters, or the whole path
      when it is shorter. */
  function LastThree(path: string): (s: string)
    ensures |path| >= 3 ==> |s| == 3 && path == path[..|path| - 3] + s
    ensures |path| < 3 ==> s == path
  {
    if |path| >= 3 then path[|path| - 3..] else path
  }

  /** The path ends in one of `exts`, ignoring ASCII case. */
  predicate HasExtension(path: string, exts: set<string>) {
    Lower(LastThree(path)) in exts
  }

  /** The row `c` stands for, still without a histogram in `done`, with one
      of the extensions `exts`. */
  predicate Selected(t: DigestTable, done: HistogramTable, exts: set<string>, c: Candidate) {
    && c.id in t.rows
    && c.path == t.rows[c.id].path
    && c.size == t.rows[c.id].size
    && c.id !in done
    && HasExtension(c.path, exts)
  }

  /** The candidates' ids are pairwise different. */
  predicate DistinctIds(files: seq<Candidate>) {
    forall i, j :: 0 <= i < j < |files| ==> files[i].id != files[j].id
  }

  /** get_files_without_videohash / get_files_without_histogram: every
      stored file with a video extension whose id `done` lacks, once. */
  method FilesWithout(t: DigestTable, done: HistogramTable, exts: set<string>) returns (files: seq<Candidate>)
    ensures forall c :: c in files <==> Selected(t, done, exts, c)
    ensures DistinctIds(files)
  {
    var all := GetAllFileDigests(t);
    files := [];
    for k := 0 to |all|
      invariant forall c :: c in files <==> Selected(t, done, exts, c) && exists j :: 0 <= j < k && all[j].id == c.id
      invariant forall c :: c in files ==> exists j :: 0 <= j < k && all[j].id == c.id
      invariant DistinctIds(files)
    {
      var f := all[k];
      var c := Candidate(f.id, f.path, f.size);
      assert t.rows[f.id] == RowOf(f);
      if f.id !in done && HasExtension(f.path, exts) {
        files := files + [c];
      }
    }
  }

  /** The ids of `entries`. */
  function Ids(entries: seq<VideoEntry>): set<int> {
    set i | 0 <= i < |entries| :: entries[i].id
  }

  /** `entries` can all be inserted into `m`: their ids are new and
      pairwise different. */
  predicate FreshIds(m: HistogramTable, entries: seq<VideoEntry>) {
    && (forall i :: 0 <= i < |entries| ==> entries[i].id !in m)
    && (forall i, j :: 0 <= i < j < |entries| ==> entries[i].id != entries[j].id)
  }

  /** `entries[i]` is the first entry whose insert into `m` is ignored: the
      entries before it can all go in, and it cannot follow them. */
  predicate FirstRefusedId(m: HistogramTable, entries: seq<VideoEntry>, i: int) {
    0 <= i < |entries| && FreshIds(m, entries[..i]) && !FreshIds(m, entries[..i + 1])
  }

  /** `m'` is `m` plus the histogram of every entry, and nothing else. */
  predicate Adds(m: HistogramTable, m': HistogramTable, entries: seq<VideoEntry>) {
    && m'.Keys == m.Keys + Ids(entries)
    && (forall id :: id in m ==> m'[id] == m[id])
    && (forall i :: 0 <= i < |entries| ==> entries[i].id in m' && m'[entries[i].id] == entries[i].histogram)
  }

  /** insert_many_videohashes / insert_many_histograms: INSERT OR IGNORE of
      every entry in one transaction. An id that is already stored inserts
      no row, which aborts the transaction: the table stays as it was, and
      the error names the first such id. */
  function InsertManyById(m: HistogramTable, entries: seq<VideoEntry>): (r: Result<HistogramTable>)
    ensures r.Ok? <==> FreshIds(m, entries)
    ensures r.Ok? ==> Adds(m, r.value, entries)
    ensures r.Err? ==> exists i :: FirstRefusedId(m, entries, i) && r.error == IdAlreadyStored(entries[i].id)
    decreases |entries|
  {
    if |entries| == 0 then
      Ok(m)
    else if entries[0].id in m then
      assert entries[..1] == [entries[0]] && entries[..0] == [];
      assert FirstRefusedId(m, entries, 0);
      Err(IdAlreadyStored(entries[0].id))
    else
      var rest := InsertManyById(m[entries[0].id := entries[0].histogram], entries[1..]);
      InsertByIdStep(m, entries, rest);
      rest
  }

  lemma InsertByIdStep(m: HistogramTable, entries: seq<VideoEntry>, rest: Result<HistogramTable>)
    requires |entries| > 0 && entries[0].id !in m
    requires var m1 := m[entries[0].id := entries[0].histogram];
      && (rest.Ok? <==> FreshIds(m1, entries[1..]))
      && (rest.Ok? ==> Adds(m1, rest.value, entries[1..]))
      && (rest.Err? ==> exists i :: FirstRefusedId(m1, entries[1..], i) && rest.error == IdAlreadyStored(entries[1..][i].id))
    ensures rest.Ok? <==> FreshIds(m, entries)
    ensures rest.Ok? ==> Adds(m, rest.value, entries)
    ensures rest.Err? ==> exists i :: FirstRefusedId(m, entries, i) && rest.error == IdAlreadyStored(entries[i].id)
  {
    var tail := entries[1..];
    if rest.Err? {
      var i :| FirstRefusedId(m[entries[0].id := entries[0].histogram], tail, i) && rest.error == IdAlreadyStored(tail[i].id);
      assert entries[i + 1] == tail[i];
      RefusedIdLater(m, entries, i);
    }
    FreshCons(m, entries);
    if rest.Ok? {
      IdsCons(entries);
    }
  }

  /** With the first id new, the entries are fresh exactly when the rest is
      fresh for the table that already holds the first. */
  lemma FreshCons(m: HistogramTable, entries: seq<VideoEntry>)
    requires |entries| > 0 && entries[0].id !in m
    ensures FreshIds(m, entries) <==> FreshIds(m[entries[0].id := entries[0].histogram], entries[1..])
  {
    var m1 := m[entries[0].id := entries[0].histogram];
    var tail := entries[1..];
    assert forall i :: 0 < i < |entries| ==> entries[i] == tail[i - 1];
    if FreshIds(m, entries) {
      assert FreshIds(m1, tail);
    }
    if FreshIds(m1, tail) {
      forall i, j | 0 <= i < j < |entries|
        ensures entries[i].id != entries[j].id
      {
        if i > 0 {
          assert entries[i] == tail[i - 1] && entries[j] == tail[j - 1];
        } else {
          assert entries[j] == tail[j - 1];
        }
      }
    }
  }

  /** After a batch prefix that can go in, an entry is refused exactly when
      its id is already stored or repeats an id earlier in the batch. */
  lemma RefusedIdWhy(m: HistogramTable, entries: seq<VideoEntry>, i: nat)
    requires i < |entries| && FreshIds(m, entries[..i])
    ensures FirstRefusedId(m, entries, i) <==>
              entries[i].id in m || exists j :: 0 <= j < i && entries[j].id == entries[i].id
  {
    var pre, upto := entries[..i], entries[..i + 1];
    assert forall k :: 0 <= k < i ==> upto[k] == pre[k] && pre[k] == entries[k];
    assert upto[i] == entries[i];
  }

  /** The first refusal in the tail, after the head went in, is the first
      refusal in the whole list, one position later. */
  lemma RefusedIdLater(m: HistogramTable, entries: seq<VideoEntry>, i: nat)
    requires |entries| > 0 && entries[0].id !in m
    requires FirstRefusedId(m[entries[0].id := entries[0].histogram], entries[1..], i)
    ensures FirstRefusedId(m, entries, i + 1)
  {
    var short, long := entries[..i + 1], entries[..i + 2];
    assert short[0] == entries[0] && long[0] == entries[0];
    assert short[1..] == entries[1..][..i] && long[1..] == entries[1..][..i + 1];
    FreshCons(m, short);
    FreshCons(m, long);
  }

  lemma IdsCons(entries: seq<VideoEntry>)
    requires |entries| > 0
    ensures Ids(entries) == {entries[0].id} + Ids(entries[1..])
  {
    var tail := entries[1..];
    forall id | id in Ids(entries)
      ensures id in {entries[0].id} + Ids(tail)
    {
      var i :| 0 <= i < |entries| && entries[i].id == id;
      if i > 0 {
        assert tail[i - 1].id == id;
      }
    }
    forall id | id in Ids(tail)
      ensures id in Ids(entries)
    {
      var i :| 0 <= i < |tail| && tail[i].id == id;
      assert entries[i + 1].id == id;
    }
  }

  lemma AddsNothing(m: HistogramTable)
    ensures Adds(m, m, [])
  {
  }

  lemma AddsTrans(m: HistogramTable, m1: HistogramTable, m2: HistogramTable, a: seq<VideoEntry>, b: seq<VideoEntry>)
    requires Adds(m, m1, a) && Adds(m1, m2, b)
    ensures Adds(m, m2, a + b)
  {
    var ab := a + b;
    assert Ids(ab) == Ids(a) + Ids(b) by {
      forall id | id in Ids(ab)
        ensures id in Ids(a) + Ids(b)
      {
        var i :| 0 <= i < |ab| && ab[i].id == id;
        if i >= |a| {
          assert b[i - |a|].id == id;
        }
      }
      forall id | id in Ids(a) + Ids(b)
        ensures id in Ids(ab)
      {
        if id in Ids(a) {
          var i :| 0 <= i < |a| && a[i].id == id;
          assert ab[i].id == id;
        } else {
          var i :| 0 <= i < |b| && b[i].id == id;
          assert ab[|a| + i].id == id;
        }
      }
    }
    forall i | 0 <= i < |ab|
      ensures ab[i].id in m2 && m2[ab[i].id] == ab[i].histogram
    {
      if i < |a| {
        assert ab[i] == a[i];
        assert a[i].id in m1;
      } else {
        assert ab[i] == b[i - |a|];
      }
    }
  }

  /** A concatenation can be inserted exactly when its first part can and
      its second part can then be inserted into the result. */
  lemma FreshIdsSplit(m: HistogramTable, m1: HistogramTable, a: seq<VideoEntry>, b: seq<VideoEntry>)
    requires FreshIds(m, a) ==> Adds(m, m1, a)
    requires !FreshIds(m, a) ==> m1 == m
    ensures FreshIds(m, a + b) <==> FreshIds(m, a) && FreshIds(m1, b)
  {
    var ab := a + b;
    if FreshIds(m, ab) {
      assert FreshIds(m, a) by {
        forall i, j | 0 <= i < j < |a|
          ensures a[i].id != a[j].id
        {
          assert ab[i] == a[i] && ab[j] == a[j];
        }
        forall i | 0 <= i < |a|
          ensures a[i].id !in m
        {
          assert ab[i] == a[i];
        }
      }
      forall i | 0 <= i < |b|
        ensures b[i].id !in m1
      {
        assert ab[|a| + i] == b[i];
        forall k | 0 <= k < |a|
          ensures a[k].id != b[i].id
        {
          assert ab[k] == a[k];
        }
      }
      forall i, j | 0 <= i < j < |b|
        ensures b[i].id != b[j].id
      {
        assert ab[|a| + i] == b[i] && ab[|a| + j] == b[j];
      }
    }
    if FreshIds(m, a) && FreshIds(m1, b) {
      forall i | 0 <= i < |ab|
        ensures ab[i].id !in m
      {
        if i >= |a| {
          assert ab[i] == b[i - |a|];
        }
      }
      forall i, j | 0 <= i < j < |ab|
        ensures ab[i].id != ab[j].id
      {
        if j < |a| {
          assert ab[i] == a[i] && ab[j] == a[j];
        } else if i < |a| {
          assert ab[i] == a[i] && ab[j] == b[j - |a|];
          assert a[i].id in Ids(a);
        } else {
          assert ab[i] == b[i - |a|] && ab[j] == b[j - |a|];
        }
      }
    }
  }

  /** Inserting the flushed batches one transaction after the other. The
      pass succeeds exactly when all their entries can be inserted, and then
      adds every one of them. A failing batch stops the pass: the batches
      before it stay committed and it leaves no trace. */
  function CommitIdBatches(m: HistogramTable, flushes: seq<seq<VideoEntry>>): (r: (HistogramTable, Outcome))
    ensures r.1.Pass? <==> FreshIds(m, Concat(flushes))
    ensures r.1.Pass? ==> Adds(m, r.0, Concat(flushes))
    ensures r.1.Fail? ==> exists k :: 0 <= k < |flushes| && Adds(m, r.0, Concat(flushes[..k]))
                                      && InsertManyById(r.0, flushes[k]) == Err(r.1.error)
    decreases |flushes|
  {
    if |flushes| == 0 then
      AddsNothing(m);
      (m, Pass)
    else
      ConcatCons(flushes[0], flushes[1..]);
      assert [flushes[0]] + flushes[1..] == flushes;
      match InsertManyById(m, flushes[0])
      case Err(e) =>
        AddsNothing(m);
        assert flushes[..0] == [];
        FreshIdsSplit(m, m, flushes[0], Concat(flushes[1..]));
        (m, Fail(e))
      case Ok(m1) =>
        FreshIdsSplit(m, m1, flushes[0], Concat(flushes[1..]));
        var r := CommitIdBatches(m1, flushes[1..]);
        if r.1.Pass? then
          AddsTrans(m, m1, r.0, flushes[0], Concat(flushes[1..]));
          r
        else
          CommittedBefore(m, m1, r.0, flushes, r.1.error);
          r
  }

  lemma CommittedBefore(m: HistogramTable, m1: HistogramTable, r: HistogramTable, flushes: seq<seq<VideoEntry>>, e: Error)
    requires |flushes| > 0 && Adds(m, m1, flushes[0]) && FreshIds(m, flushes[0])
    requires exists k :: 0 <= k < |flushes[1..]| && Adds(m1, r, Concat(flushes[1..][..k]))
                         && InsertManyById(r, flushes[1..][k]) == Err(e)
    ensures exists k :: 0 <= k < |flushes| && Adds(m, r, Concat(flushes[..k]))
                        && InsertManyById(r, flushes[k]) == Err(e)
  {
    var rest := flushes[1..];
    var k :| 0 <= k < |rest| && Adds(m1, r, Concat(rest[..k])) && InsertManyById(r, rest[k]) == Err(e);
    ConcatPrefix(flushes, k);
    AddsTrans(m, m1, r, flushes[0], Concat(rest[..k]));
    assert rest[k] == flushes[k + 1];
  }

  /** Every frame sequence the decoder can produce is a whole number of
      pictures. */
  predicate Decodable(videos: map<string, seq<seq<byte>>>) {
    forall p :: p in videos ==> WellSized(videos[p])
  }

  /** What the worker for one candidate sends back: its histogram, or the
      error of a file that cannot be opened or decoded. */
  function EntryFor(counter: Counter, videos: map<string, seq<seq<byte>>>, c: Candidate): (r: Result<VideoEntry>)
    requires Decodable(videos)
    ensures r.Ok? <==> c.path in videos
    ensures r.Ok? ==> r.value == VideoEntry(c.id, HistogramOf(counter, videos[c.path]), c.size)
    ensures r.Err? ==> r.error == Unreadable(c.path)
  {
    if c.path in videos then Ok(VideoEntry(c.id, HistogramOf(counter, videos[c.path]), c.size))
    else Err(Unreadable(c.path))
  }

  /** The candidates whose video can be decoded, in order. */
  function Readable(videos: map<string, seq<seq<byte>>>, files: seq<Candidate>): (r: seq<Candidate>)
    ensures forall c :: c in r <==> c in files && c.path in videos
    decreases |files|
  {
    if |files| == 0 then []
    else
      var init := files[..|files| - 1];
      var last := files[|files| - 1];
      assert files == init + [last];
      Readable(videos, init) + (if last.path in videos then [last] else [])
  }

  /** Dropping candidates keeps the ids apart. */
  lemma {:induction false} ReadableDistinct(videos: map<string, seq<seq<byte>>>, files: seq<Candidate>)
    requires DistinctIds(files)
    ensures DistinctIds(Readable(videos, files))
    decreases |files|
  {
    if |files| > 0 {
      var init := files[..|files| - 1];
      var last := files[|files| - 1];
      ReadableDistinct(videos, init);
      var front := Readable(videos, init);
      forall i | 0 <= i < |front|
        ensures front[i].id != last.id
      {
        assert front[i] in init;
        var j :| 0 <= j < |init| && init[j] == front[i];
        assert files[j] == init[j];
      }
    }
  }

  /** The entries that reach the batching loop: one per readable candidate,
      in order. */
  function Ready(counter: Counter, videos: map<string, seq<seq<byte>>>, files: seq<Candidate>): (r: seq<VideoEntry>)
    requires Decodable(videos)
    ensures |r| == |Readable(videos, files)|
  {
    var rs := Readable(videos, files);
    seq(|rs|, i requires 0 <= i < |rs| => VideoEntry(rs[i].id, HistogramOf(counter, videos[rs[i].path]), rs[i].size))
  }

  /** Dropping the failed results of the workers leaves the ready entries. */
  lemma {:induction false} OksReady(counter: Counter, videos: map<string, seq<seq<byte>>>, files: seq<Candidate>, received: seq<Result<VideoEntry>>)
    requires Decodable(videos)
    requires |received| == |files| && forall i :: 0 <= i < |files| ==> received[i] == EntryFor(counter, videos, files[i])
    ensures Oks(received) == Ready(counter, videos, files)
    decreases |files|
  {
    if |files| > 0 {
      var n := |files| - 1;
      var init, rinit := files[..n], received[..n];
      forall i | 0 <= i < n
        ensures rinit[i] == EntryFor(counter, videos, init[i])
      {
        assert rinit[i] == received[i] && init[i] == files[i];
      }
      OksReady(counter, videos, init, rinit);
      ReadyStep(counter, videos, files);
      assert Oks(received) == Oks(rinit) + OkPart(received[n]);
      assert received[n] == EntryFor(counter, videos, files[n]);
    }
  }

  /** A candidate at the end adds its entry exactly when it can be decoded. */
  lemma ReadyStep(counter: Counter, videos: map<string, seq<seq<byte>>>, files: seq<Candidate>)
    requires Decodable(videos) && |files| > 0
    ensures var n, c := |files| - 1, files[|files| - 1];
      Ready(counter, videos, files) == Ready(counter, videos, files[..n]) +
        (if c.path in videos then [VideoEntry(c.id, HistogramOf(counter, videos[c.path]), c.size)] else [])
  {
    var n, c := |files| - 1, files[|files| - 1];
    var rs, front := Readable(videos, files), Readable(videos, files[..n]);
    assert rs == front + (if c.path in videos then [c] else []);
  }

  /** One pass of update_hashes / update_histograms over the files that
      `exts` selects, with the pass's pixel counter width. It cannot fail: it only computes histograms for ids
      the table lacks, each once. Afterwards the table holds exactly the
      old entries, unchanged, plus the histogram of every selected file
      whose video can be decoded; an undecodable one is skipped. */
  method UpdateTable(counter: Counter, t: DigestTable, done: HistogramTable, exts: set<string>,
                     videos: map<string, seq<seq<byte>>>, batchSize: nat)
    returns (r: HistogramTable, outcome: Outcome)
    requires Decodable(videos)
    ensures outcome == Pass
    ensures forall id :: id in r <==> id in done || (id in t.rows && HasExtension(t.rows[id].path, exts) && t.rows[id].path in videos)
    ensures forall id :: id in done ==> r[id] == done[id]
    ensures forall id :: id in r && id !in done ==> r[id] == HistogramOf(counter, videos[t.rows[id].path])
  {
    var files := FilesWithout(t, done, exts);
    var received := ComputeEntries(counter, videos, files);
    var flushes := Batches(received, batchSize);
    var committed := CommitIdBatches(done, flushes);
    r, outcome := committed.0, committed.1;
    OksReady(counter, videos, files, received);
    UpdateOutcome(counter, t, done, exts, videos, files, Concat(flushes), r, outcome);
  }

  /** The workers' results, one per candidate in order (the parallel
      workers and the channel deliver them in some order; the order does
      not change which ids end up stored). */
  method ComputeEntries(counter: Counter, videos: map<string, seq<seq<byte>>>, files: seq<Candidate>)
    returns (received: seq<Result<VideoEntry>>)
    requires Decodable(videos)
    ensures |received| == |files|
    ensures forall j :: 0 <= j < |files| ==> received[j] == EntryFor(counter, videos, files[j])
  {
    received := [];
    for i := 0 to |files|
      invariant |received| == i
      invariant forall j :: 0 <= j < i ==> received[j] == EntryFor(counter, videos, files[j])
    {
      var c := files[i];
      var e: Result<VideoEntry>;
      if c.path in videos {
        var h;
        if counter == U64 {
          h := CalculateColorHistogram(videos[c.path]);
        } else {
          h := CalculateHistogram(videos[c.path]);
        }
        e := Ok(VideoEntry(c.id, h, c.size));
      } else {
        e := Err(Unreadable(c.path));
      }
      assert e == EntryFor(counter, videos, c);
      received := received + [e];
    }
  }

  lemma UpdateOutcome(counter: Counter, t: DigestTable, done: HistogramTable, exts: set<string>,
                      videos: map<string, seq<seq<byte>>>, files: seq<Candidate>,
                      entries: seq<VideoEntry>, r: HistogramTable, outcome: Outcome)
    requires Decodable(videos)
    requires forall c :: c in files <==> Selected(t, done, exts, c)
    requires DistinctIds(files)
    requires entries == Ready(counter, videos, files)
    requires outcome.Pass? <==> FreshIds(done, entries)
    requires outcome.Pass? ==> Adds(done, r, entries)
    ensures outcome == Pass
    ensures forall id :: id in r <==> id in done || (id in t.rows && HasExtension(t.rows[id].path, exts) && t.rows[id].path in videos)
    ensures forall id :: id in done ==> r[id] == done[id]
    ensures forall id :: id in r && id !in done ==> r[id] == HistogramOf(counter, videos[t.rows[id].path])
  {
    forall i | 0 <= i < |entries|
      ensures entries[i].id !in done
    {
      ReadyEntry(counter, t, done, exts, videos, files, i);
    }
    ReadableDistinct(videos, files);
    assert FreshIds(done, entries);
    forall id | id in t.rows && HasExtension(t.rows[id].path, exts) && t.rows[id].path in videos && id !in done
      ensures id in Ids(entries)
    {
      ReadyCovers(counter, t, done, exts, videos, files, id);
    }
    forall id | id in r && id !in done
      ensures id in t.rows && t.rows[id].path in videos && HasExtension(t.rows[id].path, exts)
      ensures r[id] == HistogramOf(counter, videos[t.rows[id].path])
    {
      var i :| 0 <= i < |entries| && entries[i].id == id;
      ReadyEntry(counter, t, done, exts, videos, files, i);
    }
  }

  /** Every ready entry belongs to a selected, decodable row and holds the
      histogram of that row's video. */
  lemma ReadyEntry(counter: Counter, t: DigestTable, done: HistogramTable, exts: set<string>,
                   videos: map<string, seq<seq<byte>>>, files: seq<Candidate>, i: nat)
    requires Decodable(videos)
    requires forall c :: c in files <==> Selected(t, done, exts, c)
    requires i < |Ready(counter, videos, files)|
    ensures var e := Ready(counter, videos, files)[i];
      && e.id in t.rows && e.id !in done && HasExtension(t.rows[e.id].path, exts)
      && t.rows[e.id].path in videos && e.histogram == HistogramOf(counter, videos[t.rows[e.id].path])
  {
    var rs := Readable(videos, files);
    assert rs[i] in rs;
  }

  /** Every selected, decodable row has a ready entry. */
  lemma ReadyCovers(counter: Counter, t: DigestTable, done: HistogramTable, exts: set<string>,
                    videos: map<string, seq<seq<byte>>>, files: seq<Candidate>, id: int)
    requires Decodable(videos)
    requires forall c :: c in files <==> Selected(t, done, exts, c)
    requires id in t.rows && HasExtension(t.rows[id].path, exts) && t.rows[id].path in videos && id !in done
    ensures id in Ids(Ready(counter, videos, files))
  {
    var rs := Readable(videos, files);
    var c := Candidate(id, t.rows[id].path, t.rows[id].size);
    assert Selected(t, done, exts, c);
    assert c in rs;
    var i :| 0 <= i < |rs| && rs[i] == c;
    assert Ready(counter, videos, files)[i].id == id;
  }
}
