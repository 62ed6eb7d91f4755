/** Undirected reachability over a set of edges: the reference against which
    the union-find of find_similar_files (src/videohash.rs) is checked. */
module Connectivity {

  /** `a` and `b` are joined by an edge, in either direction. */
  ghost predicate Linked(edges: set<(nat, nat)>, a: nat, b: nat) {
    (a, b) in edges || (b, a) in edges
  }

  /** A non-empty walk whose consecutive elements are linked. */
  ghost predicate IsWalk(edges: set<(nat, nat)>, w: seq<nat>) {
    |w| > 0 && forall k :: 0 <= k < |w| - 1 ==> Linked(edges, w[k], w[k + 1])
  }

  ghost predicate Connected(edges: set<(nat, nat)>, a: nat, b: nat) {
    exists w :: IsWalk(edges, w) && w[0] == a && w[|w| - 1] == b
  }

  lemma ConnectedRefl(edges: set<(nat, nat)>, a: nat)
    ensures Connected(edges, a, a)
  {
    assert IsWalk(edges, [a]);
  }

  lemma EdgeConnected(edges: set<(nat, nat)>, a: nat, b: nat)
    requires Linked(edges, a, b)
    ensures Connected(edges, a, b)
  {
    assert IsWalk(edges, [a, b]);
  }

  lemma ConnectedSym(edges: set<(nat, nat)>, a: nat, b: nat)
    requires Connected(edges, a, b)
    ensures Connected(edges, b, a)
  {
    var w :| IsWalk(edges, w) && w[0] == a && w[|w| - 1] == b;
    var r := seq(|w|, k requires 0 <= k < |w| => w[|w| - 1 - k]);
    forall k | 0 <= k < |r| - 1
      ensures Linked(edges, r[k], r[k + 1])
    {
      assert Linked(edges, w[|w| - 2 - k], w[|w| - 1 - k]);
    }
    assert IsWalk(edges, r);
  }

  lemma ConnectedTrans(edges: set<(nat, nat)>, a: nat, b: nat, c: nat)
    requires Connected(edges, a, b) && Connected(edges, b, c)
    ensures Connected(edges, a, c)
  {
    var w1 :| IsWalk(edges, w1) && w1[0] == a && w1[|w1| - 1] == b;
    var w2 :| IsWalk(edges, w2) && w2[0] == b && w2[|w2| - 1] == c;
    var w := w1 + w2[1..];
    forall k | 0 <= k < |w| - 1
      ensures Linked(edges, w[k], w[k + 1])
    {
      if k < |w1| - 1 {
        assert w[k] == w1[k] && w[k + 1] == w1[k + 1];
      } else if k == |w1| - 1 {
        assert w[k] == w2[0] && w[k + 1] == w2[1];
      } else {
        assert w[k] == w2[k - |w1| + 1] && w[k + 1] == w2[k - |w1| + 2];
      }
    }
    assert IsWalk(edges, w);
  }

  /** Without edges nothing but an element itself is reachable. */
  lemma NoEdges(a: nat, b: nat)
    ensures Connected({}, a, b) <==> a == b
  {
    if a != b {
      Separated({}, {a}, a, b);
    } else {
      ConnectedRefl({}, a);
    }
  }

  /** What adding the edge (x, y) connects: what was connected before, and
      what reaches x from one side and y from the other. */
  ghost predicate ViaEdge(edges: set<(nat, nat)>, x: nat, y: nat, a: nat, b: nat) {
    || Connected(edges, a, b)
    || (Connected(edges, a, x) && Connected(edges, y, b))
    || (Connected(edges, a, y) && Connected(edges, x, b))
  }

  /** A walk that may use the new edge splits at its uses of it. */
  lemma {:induction false} WalkViaEdge(edges: set<(nat, nat)>, x: nat, y: nat, w: seq<nat>)
    requires IsWalk(edges + {(x, y)}, w)
    ensures ViaEdge(edges, x, y, w[0], w[|w| - 1])
    decreases |w|
  {
    var a, b := w[0], w[|w| - 1];
    if |w| == 1 {
      ConnectedRefl(edges, a);
    } else {
      var init := w[..|w| - 1];
      var c := init[|init| - 1];
      assert IsWalk(edges + {(x, y)}, init) by {
        forall k | 0 <= k < |init| - 1
          ensures Linked(edges + {(x, y)}, init[k], init[k + 1])
        {
          assert init[k] == w[k] && init[k + 1] == w[k + 1];
        }
      }
      WalkViaEdge(edges, x, y, init);
      assert Linked(edges + {(x, y)}, c, b);
      if Linked(edges, c, b) {
        EdgeConnected(edges, c, b);
        StepInOld(edges, x, y, a, c, b);
      } else {
        assert (c == x && b == y) || (c == y && b == x);
        StepOnNew(edges, x, y, a, c, b);
      }
    }
  }

  lemma StepInOld(edges: set<(nat, nat)>, x: nat, y: nat, a: nat, c: nat, b: nat)
    requires ViaEdge(edges, x, y, a, c) && Connected(edges, c, b)
    ensures ViaEdge(edges, x, y, a, b)
  {
    if Connected(edges, a, c) {
      ConnectedTrans(edges, a, c, b);
    } else if Connected(edges, a, x) && Connected(edges, y, c) {
      ConnectedTrans(edges, y, c, b);
    } else {
      ConnectedTrans(edges, x, c, b);
    }
  }

  lemma StepOnNew(edges: set<(nat, nat)>, x: nat, y: nat, a: nat, c: nat, b: nat)
    requires ViaEdge(edges, x, y, a, c)
    requires (c == x && b == y) || (c == y && b == x)
    ensures ViaEdge(edges, x, y, a, b)
  {
    ConnectedRefl(edges, b);
    if c == x && b == y {
      if Connected(edges, a, y) && Connected(edges, x, c) {
        assert Connected(edges, a, b);
      } else if Connected(edges, a, x) && Connected(edges, y, c) {
        assert Connected(edges, a, x) && Connected(edges, y, b);
      } else {
        assert Connected(edges, a, x) && Connected(edges, y, b);
      }
    } else {
      if Connected(edges, a, x) && Connected(edges, y, c) {
        assert Connected(edges, a, b);
      } else if Connected(edges, a, y) && Connected(edges, x, c) {
        assert Connected(edges, a, y) && Connected(edges, x, b);
      } else {
        assert Connected(edges, a, y) && Connected(edges, x, b);
      }
    }
  }

  lemma Widen(edges: set<(nat, nat)>, more: set<(nat, nat)>, a: nat, b: nat)
    requires edges <= more && Connected(edges, a, b)
    ensures Connected(more, a, b)
  {
    var w :| IsWalk(edges, w) && w[0] == a && w[|w| - 1] == b;
    assert IsWalk(more, w);
  }

  /** Adding the edge (x, y) connects exactly what ViaEdge says. */
  lemma AddEdge(edges: set<(nat, nat)>, x: nat, y: nat, a: nat, b: nat)
    ensures Connected(edges + {(x, y)}, a, b) <==> ViaEdge(edges, x, y, a, b)
  {
    var more := edges + {(x, y)};
    if Connected(more, a, b) {
      var w :| IsWalk(more, w) && w[0] == a && w[|w| - 1] == b;
      WalkViaEdge(edges, x, y, w);
    }
    if ViaEdge(edges, x, y, a, b) {
      EdgeConnected(more, x, y);
      ConnectedSym(more, x, y);
      if Connected(edges, a, b) {
        Widen(edges, more, a, b);
      } else if Connected(edges, a, x) && Connected(edges, y, b) {
        Widen(edges, more, a, x);
        Widen(edges, more, y, b);
        ConnectedTrans(more, a, x, y);
        ConnectedTrans(more, a, y, b);
      } else {
        Widen(edges, more, a, y);
        Widen(edges, more, x, b);
        ConnectedTrans(more, a, y, x);
        ConnectedTrans(more, a, x, b);
      }
    }
  }

  /** A set that no edge leaves holds everything reachable from inside it. */
  lemma {:induction false} Closed(edges: set<(nat, nat)>, s: set<nat>, w: seq<nat>)
    requires forall e :: e in edges ==> (e.0 in s <==> e.1 in s)
    requires IsWalk(edges, w) && w[0] in s
    ensures w[|w| - 1] in s
    decreases |w|
  {
    if |w| > 1 {
      var init := w[..|w| - 1];
      assert IsWalk(edges, init) by {
        forall k | 0 <= k < |init| - 1
          ensures Linked(edges, init[k], init[k + 1])
        {
          assert init[k] == w[k] && init[k + 1] == w[k + 1];
        }
      }
      Closed(edges, s, init);
      assert Linked(edges, w[|w| - 2], w[|w| - 1]);
    }
  }

  lemma Separated(edges: set<(nat, nat)>, s: set<nat>, a: nat, b: nat)
    requires forall e :: e in edges ==> (e.0 in s <==> e.1 in s)
    requires a in s && b !in s
    ensures !Connected(edges, a, b)
  {
    if Connected(edges, a, b) {
      var w :| IsWalk(edges, w) && w[0] == a && w[|w| - 1] == b;
      Closed(edges, s, w);
    }
  }
}
