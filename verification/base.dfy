/** Value types shared by every part of the duplicate finder: bytes, the error
    and result types its operations report through, and a few facts about
    sequences and sets that the other modules lean on. */
module Base {

  /** An unsigned 8-bit value (Rust's u8). */
  newtype byte = x: int | 0 <= x < 256

  /** Why an operation failed. */
  datatype Error =
    | PathAlreadyStored(path: string)   // an INSERT OR IGNORE on a path that is already stored
    | IdAlreadyStored(id: int)          // an INSERT OR IGNORE on an id that is already stored
    | NoSuchRow(id: int)                // a point query that matched no row
    | Unreadable(path: string)          // opening or stat-ing a file failed

  /** The value-or-error result of a fallible operation. */
  datatype Result<+T> = Ok(value: T) | Err(error: Error)

  /** The result of a fallible operation that produces no value. */
  datatype Outcome = Pass | Fail(error: Error)

  /** The elements of `s` are pairwise different. */
  predicate Distinct<T(==)>(s: seq<T>) {
    forall i, j :: 0 <= i < j < |s| ==> s[i] != s[j]
  }

  /** `xs` lists every element of `s` exactly once, in some order. */
  predicate Enumerates<T(==)>(xs: seq<T>, s: set<T>) {
    && (forall x :: x in xs ==> x in s)
    && (forall x :: x in s ==> x in xs)
    && Distinct(xs)
  }

  /** Lists a finite set in an unspecified order, as iterating a hash set does. */
  method Enumerate<T(==)>(s: set<T>) returns (xs: seq<T>)
    ensures Enumerates(xs, s)
  {
    xs := [];
    var rest := s;
    while rest != {}
      invariant rest <= s
      invariant forall x :: x in xs ==> x in s && x !in rest
      invariant forall x :: x in s ==> x in xs || x in rest
      invariant Distinct(xs)
      decreases rest
    {
      var x :| x in rest;
      xs := xs + [x];
      rest := rest - {x};
    }
  }

  /** A value occurs at most once in a sequence without repeats. */
  lemma {:induction false} DistinctCount<T>(s: seq<T>, x: T)
    requires Distinct(s)
    ensures multiset(s)[x] <= 1
    decreases |s|
  {
    if |s| > 0 {
      var init, last := s[..|s| - 1], s[|s| - 1];
      assert s == init + [last];
      assert Distinct(init) by {
        forall i, j | 0 <= i < j < |init| ensures init[i] != init[j] {
          assert init[i] == s[i] && init[j] == s[j];
        }
      }
      DistinctCount(init, x);
      if x == last {
        forall k | 0 <= k < |init| ensures init[k] != x {
          assert init[k] == s[k];
        }
        assert x !in init;
      }
    }
  }

  /** Two equal positions make a value occur at least twice. */
  lemma RepeatCount<T>(s: seq<T>, i: nat, j: nat)
    requires i < j < |s|
    ensures s[i] == s[j] ==> multiset(s)[s[i]] >= 2
  {
    var front := s[..j];
    assert s == front + [s[j]] + s[j + 1..];
    assert front[i] == s[i];
    assert s[i] in multiset(front);
  }

  /** A rearrangement of a sequence without repeats has none either. */
  lemma SameMultisetDistinct<T>(a: seq<T>, b: seq<T>)
    requires multiset(a) == multiset(b) && Distinct(b)
    ensures Distinct(a)
  {
    forall i, j | 0 <= i < j < |a|
      ensures a[i] != a[j]
    {
      RepeatCount(a, i, j);
      DistinctCount(b, a[i]);
    }
  }

  /** Some element of a non-empty set. */
  lemma Pick<T>(s: set<T>) returns (x: T)
    requires s != {}
    ensures x in s
  {
    x :| x in s;
  }

  /** The concatenation of a sequence of sequences. */
  function Concat<T>(ss: seq<seq<T>>): seq<T>
    decreases |ss|
  {
    if |ss| == 0 then [] else Concat(ss[..|ss| - 1]) + ss[|ss| - 1]
  }

  lemma ConcatAppend<T>(ss: seq<seq<T>>, s: seq<T>)
    ensures Concat(ss + [s]) == Concat(ss) + s
  {
    assert (ss + [s])[..|ss|] == ss;
  }

  lemma {:induction false} ConcatCons<T>(s: seq<T>, ss: seq<seq<T>>)
    ensures Concat([s] + ss) == s + Concat(ss)
    decreases |ss|
  {
    if |ss| == 0 {
      assert [s] + ss == [] + [s];
      ConcatAppend([], s);
    } else {
      var init := ss[..|ss| - 1];
      var last := ss[|ss| - 1];
      assert ss == init + [last];
      assert [s] + ss == ([s] + init) + [last];
      ConcatAppend([s] + init, last);
      ConcatCons(s, init);
      ConcatAppend(init, last);
    }
  }

  /** The first k + 1 parts are the first part followed by the next k. */
  lemma ConcatPrefix<T>(xs: seq<seq<T>>, k: nat)
    requires k < |xs|
    ensures Concat(xs[..k + 1]) == xs[0] + Concat(xs[1..][..k])
  {
    assert xs[..k + 1] == [xs[0]] + xs[1..][..k];
    ConcatCons(xs[0], xs[1..][..k]);
  }

  /** The sum of a sequence of counts. */
  function Sum(s: seq<nat>): nat
    decreases |s|
  {
    if |s| == 0 then 0 else Sum(s[..|s| - 1]) + s[|s| - 1]
  }

  /** Incrementing one count increments the sum by one. */
  lemma {:induction false} SumIncrement(s: seq<nat>, k: nat)
    requires k < |s|
    ensures Sum(s[k := s[k] + 1]) == Sum(s) + 1
    decreases |s|
  {
    var t := s[k := s[k] + 1];
    assert t[..|t| - 1] == if k == |s| - 1 then s[..|s| - 1] else s[..|s| - 1][k := s[k] + 1];
    if k < |s| - 1 {
      SumIncrement(s[..|s| - 1], k);
    }
  }

  /** A sequence of `n` zero counts sums to zero. */
  lemma {:induction false} SumZeros(n: nat)
    ensures Sum(seq(n, _ => 0)) == 0
  {
    if n > 0 {
      assert seq(n, _ => 0)[..n - 1] == seq(n - 1, _ => 0);
      SumZeros(n - 1);
    }
  }
}
