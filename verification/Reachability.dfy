/** Paths in a directed graph given by its outgoing edges. */
module Reachability {
  type Adj = map<string, seq<string>>

  /** The targets of the edges of `n`, in insertion order, repeated for multi-edges. */
  function Succ(adj: Adj, n: string): seq<string> {
    if n in adj then adj[n] else []
  }

  predicate EdgeIn(adj: Adj, a: string, b: string) {
    b in Succ(adj, a)
  }

  ghost predicate IsWalk(adj: Adj, p: seq<string>) {
    |p| > 0 && forall i :: 0 <= i < |p| - 1 ==> EdgeIn(adj, p[i], p[i + 1])
  }

  ghost predicate WalkFromTo(adj: Adj, p: seq<string>, a: string, b: string) {
    IsWalk(adj, p) && p[0] == a && p[|p| - 1] == b
  }

  /** `b` can be reached from `a` by zero or more edges. */
  ghost predicate Reaches(adj: Adj, a: string, b: string) {
    exists p :: WalkFromTo(adj, p, a, b)
  }

  /** Some node reaches itself by a non-empty path. */
  ghost predicate OnCycle(adj: Adj, n: string) {
    exists m :: EdgeIn(adj, n, m) && Reaches(adj, m, n)
  }

  ghost predicate Acyclic(adj: Adj) {
    forall n :: !OnCycle(adj, n)
  }

  lemma ReachesSelf(adj: Adj, a: string)
    ensures Reaches(adj, a, a)
  {
    assert WalkFromTo(adj, [a], a, a);
  }

  lemma ReachesStep(adj: Adj, a: string, b: string, c: string)
    requires Reaches(adj, a, b) && EdgeIn(adj, b, c)
    ensures Reaches(adj, a, c)
  {
    var p :| WalkFromTo(adj, p, a, b);
    assert WalkFromTo(adj, p + [c], a, c);
  }

  lemma ReachesTrans(adj: Adj, a: string, b: string, c: string)
    requires Reaches(adj, a, b) && Reaches(adj, b, c)
    ensures Reaches(adj, a, c)
  {
    var p :| WalkFromTo(adj, p, a, b);
    var q :| WalkFromTo(adj, q, b, c);
    assert WalkFromTo(adj, p + q[1..], a, c);
  }

  lemma EdgeReaches(adj: Adj, a: string, b: string)
    requires EdgeIn(adj, a, b)
    ensures Reaches(adj, a, b)
  {
    ReachesSelf(adj, a);
    ReachesStep(adj, a, a, b);
  }

  /** A set closed under the edges holds everything its members reach. */
  lemma {:induction false} ClosedHoldsWalk(adj: Adj, s: set<string>, p: seq<string>)
    requires IsWalk(adj, p) && p[0] in s
    requires forall a, b :: a in s && EdgeIn(adj, a, b) ==> b in s
    ensures p[|p| - 1] in s
    decreases |p|
  {
    if |p| > 1 {
      assert EdgeIn(adj, p[0], p[1]);
      assert IsWalk(adj, p[1..]) by {
        forall i | 0 <= i < |p| - 2 ensures EdgeIn(adj, p[1..][i], p[1..][i + 1]) {
          assert EdgeIn(adj, p[i + 1], p[i + 2]);
        }
      }
      ClosedHoldsWalk(adj, s, p[1..]);
    }
  }

  // -------------------------------------------------------------- one more edge

  function WithEdge(adj: Adj, a: string, b: string): Adj {
    adj[a := Succ(adj, a) + [b]]
  }

  lemma EdgeOfMore(adj: Adj, from: string, to: string, a: string, b: string)
    ensures EdgeIn(WithEdge(adj, from, to), a, b) <==> EdgeIn(adj, a, b) || (a == from && b == to)
  {
  }

  /** A walk that may use the new edge is an old one, or goes to its start and on from
      its end. */
  lemma {:induction false} WalkWithEdge(adj: Adj, from: string, to: string, p: seq<string>)
    requires IsWalk(WithEdge(adj, from, to), p)
    ensures Reaches(adj, p[0], p[|p| - 1])
            || (Reaches(adj, p[0], from) && Reaches(adj, to, p[|p| - 1]))
    decreases |p|
  {
    if |p| == 1 {
      ReachesSelf(adj, p[0]);
    } else {
      var more := WithEdge(adj, from, to);
      var q := p[1..];
      assert EdgeIn(more, p[0], p[1]);
      assert IsWalk(more, q) by {
        forall i | 0 <= i < |q| - 1 ensures EdgeIn(more, q[i], q[i + 1]) {
          assert EdgeIn(more, p[i + 1], p[i + 2]);
        }
      }
      WalkWithEdge(adj, from, to, q);
      EdgeOfMore(adj, from, to, p[0], p[1]);
      var last := p[|p| - 1];
      if EdgeIn(adj, p[0], p[1]) {
        EdgeReaches(adj, p[0], p[1]);
        if Reaches(adj, p[1], last) {
          ReachesTrans(adj, p[0], p[1], last);
        } else {
          ReachesTrans(adj, p[0], p[1], from);
        }
      } else {
        ReachesSelf(adj, from);
      }
    }
  }

  lemma OldWalksStay(adj: Adj, from: string, to: string, a: string, b: string)
    requires Reaches(adj, a, b)
    ensures Reaches(WithEdge(adj, from, to), a, b)
  {
    var p :| WalkFromTo(adj, p, a, b);
    var more := WithEdge(adj, from, to);
    forall i | 0 <= i < |p| - 1 ensures EdgeIn(more, p[i], p[i + 1]) {
      assert EdgeIn(adj, p[i], p[i + 1]);
      EdgeOfMore(adj, from, to, p[i], p[i + 1]);
    }
    assert WalkFromTo(more, p, a, b);
  }

  /** Adding an edge to an acyclic graph keeps it acyclic exactly when the edge's end
      does not already reach its start. */
  lemma NewEdgeAndCycles(adj: Adj, from: string, to: string)
    requires Acyclic(adj)
    ensures Acyclic(WithEdge(adj, from, to)) <==> !Reaches(adj, to, from)
  {
    var more := WithEdge(adj, from, to);
    if Reaches(adj, to, from) {
      OldWalksStay(adj, from, to, to, from);
      EdgeOfMore(adj, from, to, from, to);
      assert OnCycle(more, from);
    } else {
      forall n ensures !OnCycle(more, n) {
        if OnCycle(more, n) { CycleNeedsPath(adj, from, to, n); }
      }
    }
  }

  lemma CycleNeedsPath(adj: Adj, from: string, to: string, n: string)
    requires Acyclic(adj) && OnCycle(WithEdge(adj, from, to), n)
    ensures Reaches(adj, to, from)
  {
    var more := WithEdge(adj, from, to);
    var m :| EdgeIn(more, n, m) && Reaches(more, m, n);
    var p :| WalkFromTo(more, p, m, n);
    WalkWithEdge(adj, from, to, p);
    EdgeOfMore(adj, from, to, n, m);
    if EdgeIn(adj, n, m) {
      assert !OnCycle(adj, n);
      EdgeReaches(adj, n, m);
      ReachesTrans(adj, to, n, m);
      ReachesTrans(adj, to, m, from);
    }
  }
}
