/** The commit batching loop that every hashing pass shares
    (src/filehashing.rs, src/main.rs, src/videohash.rs, src/videohistogram.rs):
    results arrive one by one from the worker pool, successes are buffered,
    and the buffer is handed to a batch insert whenever it holds at least
    `batchSize` entries, plus once more at the end if anything is left.
    Failed results are logged and dropped. */
module Batching {
  import opened Base

  /** The successful values among `rs`, in arrival order. */
  function Oks<T>(rs: seq<Result<T>>): seq<T>
    decreases |rs|
  {
    if |rs| == 0 then [] else Oks(rs[..|rs| - 1]) + OkPart(rs[|rs| - 1])
  }

  /** A single result's contribution to the buffer. */
  function OkPart<T>(r: Result<T>): seq<T> {
    if r.Ok? then [r.value] else []
  }

  /** With a positive batch size: every batch holds exactly `b` values except
      the last, which holds between 1 and `b`. */
  predicate CutInto<T>(flushes: seq<seq<T>>, b: nat) {
    && (forall i :: 0 <= i < |flushes| - 1 ==> |flushes[i]| == b)
    && (|flushes| > 0 ==> 0 < |flushes[|flushes| - 1]| <= b)
  }

  /** Every batch holds exactly `b` values. */
  predicate AllFull<T>(flushes: seq<seq<T>>, b: nat) {
    forall i :: 0 <= i < |flushes| ==> |flushes[i]| == b
  }

  /** One batch per received result, holding that result's value if any. */
  ghost predicate OnePerResult<T>(flushes: seq<seq<T>>, rs: seq<Result<T>>) {
    |flushes| == |rs| && forall i :: 0 <= i < |rs| ==> flushes[i] == OkPart(rs[i])
  }

  /** What holds after the first `i` results: the batches flushed so far and
      the buffer together are the successes among them, and the batches are
      cut as the batch size demands. */
  ghost predicate Progress<T>(flushes: seq<seq<T>>, buffer: seq<T>, received: seq<Result<T>>, i: nat, b: nat) {
    && i <= |received|
    && Concat(flushes) + buffer == Oks(received[..i])
    && (b > 0 ==> |buffer| < b && AllFull(flushes, b))
    && (b == 0 ==> buffer == [] && OnePerResult(flushes, received[..i]))
  }

  /** The loop as the source writes it. A batch size of 0 flushes after every
      received result, an empty batch when that result failed. */
  method Batches<T>(received: seq<Result<T>>, batchSize: nat) returns (flushes: seq<seq<T>>)
    ensures Concat(flushes) == Oks(received)
    ensures batchSize > 0 ==> CutInto(flushes, batchSize)
    ensures batchSize == 0 ==> OnePerResult(flushes, received)
  {
    flushes := [];
    var buffer: seq<T> := [];
    for i := 0 to |received|
      invariant Progress(flushes, buffer, received, i, batchSize)
    {
      Step(flushes, buffer, received, i, batchSize);
      flushes, buffer := Feed(flushes, buffer, received[i], batchSize).0, Feed(flushes, buffer, received[i], batchSize).1;
    }
    Finish(flushes, buffer, received, batchSize);
    if |buffer| > 0 {
      flushes := flushes + [buffer];
    }
  }

  /** One pass of the loop body: the result's value, if any, joins the
      buffer, and a buffer that has reached the batch size is flushed. */
  function Feed<T>(flushes: seq<seq<T>>, buffer: seq<T>, r: Result<T>, b: nat): (seq<seq<T>>, seq<T>) {
    var next := buffer + OkPart(r);
    if |next| < b then (flushes, next) else (flushes + [next], [])
  }

  lemma Step<T>(flushes: seq<seq<T>>, buffer: seq<T>, received: seq<Result<T>>, i: nat, b: nat)
    requires i < |received| && Progress(flushes, buffer, received, i, b)
    ensures Progress(Feed(flushes, buffer, received[i], b).0, Feed(flushes, buffer, received[i], b).1, received, i + 1, b)
  {
    OksStep(received, i);
    if |buffer + OkPart(received[i])| < b {
      Buffered(flushes, buffer, received, i, b);
    } else if b > 0 {
      FlushFull(flushes, buffer, received, i, b);
    } else {
      FlushEach(flushes, received, i);
    }
  }

  /** One received result joins the buffer, which stays below the batch size. */
  lemma Buffered<T>(flushes: seq<seq<T>>, buffer: seq<T>, received: seq<Result<T>>, i: nat, b: nat)
    requires i < |received| && Progress(flushes, buffer, received, i, b)
    requires |buffer + OkPart(received[i])| < b
    requires Oks(received[..i + 1]) == Oks(received[..i]) + OkPart(received[i])
    ensures Progress(flushes, buffer + OkPart(received[i]), received, i + 1, b)
  {
    assert Concat(flushes) + (buffer + OkPart(received[i])) == (Concat(flushes) + buffer) + OkPart(received[i]);
  }

  /** A buffer that reaches the batch size is flushed as one full batch. */
  lemma FlushFull<T>(flushes: seq<seq<T>>, buffer: seq<T>, received: seq<Result<T>>, i: nat, b: nat)
    requires i < |received| && b > 0 && Progress(flushes, buffer, received, i, b)
    requires |buffer + OkPart(received[i])| >= b
    requires Oks(received[..i + 1]) == Oks(received[..i]) + OkPart(received[i])
    ensures Progress(flushes + [buffer + OkPart(received[i])], [], received, i + 1, b)
  {
    var buf := buffer + OkPart(received[i]);
    ConcatAppend(flushes, buf);
    assert |buf| == b;
    assert AllFull(flushes + [buf], b);
  }

  /** With a batch size of 0 every result is flushed on its own. */
  lemma FlushEach<T>(flushes: seq<seq<T>>, received: seq<Result<T>>, i: nat)
    requires i < |received| && Progress(flushes, [], received, i, 0)
    requires Oks(received[..i + 1]) == Oks(received[..i]) + OkPart(received[i])
    ensures Progress(flushes + [OkPart(received[i])], [], received, i + 1, 0)
  {
    ConcatAppend(flushes, OkPart(received[i]));
    OnePerResultStep(flushes, received, i);
  }

  /** After the last result a non-empty buffer is flushed once more. */
  lemma Finish<T>(flushes: seq<seq<T>>, buffer: seq<T>, received: seq<Result<T>>, b: nat)
    requires Progress(flushes, buffer, received, |received|, b)
    ensures var out := if |buffer| > 0 then flushes + [buffer] else flushes;
      && Concat(out) == Oks(received)
      && (b > 0 ==> CutInto(out, b))
      && (b == 0 ==> OnePerResult(out, received))
  {
    assert received[..|received|] == received;
    if |buffer| > 0 {
      ConcatAppend(flushes, buffer);
    }
  }

  lemma OnePerResultStep<T>(flushes: seq<seq<T>>, rs: seq<Result<T>>, i: nat)
    requires i < |rs| && OnePerResult(flushes, rs[..i])
    ensures OnePerResult(flushes + [OkPart(rs[i])], rs[..i + 1])
  {
  }

  lemma OksStep<T>(rs: seq<Result<T>>, i: nat)
    requires i < |rs|
    ensures Oks(rs[..i + 1]) == Oks(rs[..i]) + OkPart(rs[i])
  {
    assert rs[..i + 1][..i] == rs[..i];
  }

  /** The number of batches is the number of successes divided by the batch
      size, rounded up: `n` batches carry more than `n - 1` full batches' worth
      and at most `n` full batches' worth. */
  lemma {:induction false} BatchCount<T>(flushes: seq<seq<T>>, b: nat)
    requires b > 0 && CutInto(flushes, b)
    ensures |Concat(flushes)| <= |flushes| * b < |Concat(flushes)| + b
  {
    if |flushes| > 0 {
      var n := |flushes|;
      var init := flushes[..n - 1];
      assert flushes == init + [flushes[n - 1]];
      ConcatAppend(init, flushes[n - 1]);
      FullBatches(init, b);
      assert n * b == (n - 1) * b + b;
    }
  }

  lemma {:induction false} FullBatches<T>(flushes: seq<seq<T>>, b: nat)
    requires AllFull(flushes, b)
    ensures |Concat(flushes)| == |flushes| * b
    decreases |flushes|
  {
    if |flushes| > 0 {
      FullBatches(flushes[..|flushes| - 1], b);
    }
  }
}
