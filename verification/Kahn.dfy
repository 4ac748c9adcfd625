/** Why Kahn's algorithm decides acyclicity. */
module Kahn {
  import opened Reachability

  /** How many of the edges leaving `sources` end in `n`, multi-edges counted each. */
  ghost function InDegree(adj: Adj, sources: set<string>, n: string): nat {
    if sources == {} then 0
    else
      var x :| x in sources;
      multiset(Succ(adj, x))[n] + InDegree(adj, sources - {x}, n)
  }

  lemma {:induction false} InDegreeWithout(adj: Adj, sources: set<string>, x: string, n: string)
    requires x in sources
    ensures InDegree(adj, sources, n) == multiset(Succ(adj, x))[n] + InDegree(adj, sources - {x}, n)
    decreases sources
  {
    var y :| y in sources
      && InDegree(adj, sources, n) == multiset(Succ(adj, y))[n] + InDegree(adj, sources - {y}, n);
    if x != y {
      InDegreeWithout(adj, sources - {y}, x, n);
      InDegreeWithout(adj, sources - {x}, y, n);
      assert sources - {y} - {x} == sources - {x} - {y};
    }
  }

  lemma {:induction false} InDegreeZero(adj: Adj, sources: set<string>, n: string)
    ensures InDegree(adj, sources, n) == 0 <==> forall x :: x in sources ==> !EdgeIn(adj, x, n)
    decreases sources
  {
    if sources != {} {
      var x :| x in sources;
      InDegreeWithout(adj, sources, x, n);
      InDegreeZero(adj, sources - {x}, n);
      assert EdgeIn(adj, x, n) <==> n in multiset(Succ(adj, x));
      assert forall y :: y in sources <==> y == x || y in sources - {x};
    }
  }

  /** Every edge into a settled node comes from a node settled before it. */
  ghost predicate Ranked(adj: Adj, rank: map<string, nat>) {
    forall x, n :: n in rank && EdgeIn(adj, x, n) ==> x in rank && rank[x] < rank[n]
  }

  lemma {:induction false} WalkIntoRanked(adj: Adj, rank: map<string, nat>, p: seq<string>)
    requires Ranked(adj, rank) && IsWalk(adj, p) && p[|p| - 1] in rank
    ensures p[0] in rank && rank[p[0]] <= rank[p[|p| - 1]]
    decreases |p|
  {
    if |p| > 1 {
      var q := p[1..];
      assert IsWalk(adj, q) by {
        forall i | 0 <= i < |q| - 1 ensures EdgeIn(adj, q[i], q[i + 1]) {
          assert EdgeIn(adj, p[i + 1], p[i + 2]);
        }
      }
      WalkIntoRanked(adj, rank, q);
      assert EdgeIn(adj, p[0], p[1]);
    }
  }

  /** If every node with an incoming edge is ranked, there is no cycle. */
  lemma RankedIsAcyclic(adj: Adj, rank: map<string, nat>)
    requires Ranked(adj, rank) && forall a, b :: EdgeIn(adj, a, b) ==> b in rank
    ensures Acyclic(adj)
  {
    forall n ensures !OnCycle(adj, n) {
      if OnCycle(adj, n) {
        var m :| EdgeIn(adj, n, m) && Reaches(adj, m, n);
        var p :| WalkFromTo(adj, p, m, n);
        assert EdgeIn(adj, n, m);
        if |p| == 1 {
          assert false;
        } else {
          LastEdge(adj, p);
          WalkIntoRanked(adj, rank, p);
          assert false;
        }
      }
    }
  }

  lemma LastEdge(adj: Adj, p: seq<string>)
    requires IsWalk(adj, p) && |p| > 1
    ensures EdgeIn(adj, p[|p| - 2], p[|p| - 1])
  {
    var i := |p| - 2;
    assert EdgeIn(adj, p[i], p[i + 1]);
  }

  // ------------------------------------------------------- stuck means a cycle

  ghost predicate HasPredecessor(adj: Adj, rest: set<string>, n: string) {
    exists x :: x in rest && EdgeIn(adj, x, n)
  }

  /** Every member has a predecessor that is a member. */
  ghost predicate Stuck(adj: Adj, rest: set<string>) {
    forall n {:trigger HasPredecessor(adj, rest, n)} :: n in rest ==> HasPredecessor(adj, rest, n)
  }

  ghost predicate WalkWithin(adj: Adj, rest: set<string>, p: seq<string>) {
    IsWalk(adj, p) && forall i :: 0 <= i < |p| ==> p[i] in rest
  }

  lemma WalkCons(adj: Adj, rest: set<string>, x: string, q: seq<string>)
    requires WalkWithin(adj, rest, q) && x in rest && EdgeIn(adj, x, q[0])
    ensures WalkWithin(adj, rest, [x] + q)
  {
    var p := [x] + q;
    forall i | 0 <= i < |p| - 1 ensures EdgeIn(adj, p[i], p[i + 1]) {
      if i > 0 { assert EdgeIn(adj, q[i - 1], q[i - 1 + 1]); }
    }
  }

  lemma {:induction false} LongWalk(adj: Adj, rest: set<string>, k: nat) returns (p: seq<string>)
    requires Stuck(adj, rest) && rest != {}
    ensures |p| == k + 1 && WalkWithin(adj, rest, p)
  {
    if k == 0 {
      var n :| n in rest;
      p := [n];
    } else {
      var q := LongWalk(adj, rest, k - 1);
      assert HasPredecessor(adj, rest, q[0]);
      var x :| x in rest && EdgeIn(adj, x, q[0]);
      WalkCons(adj, rest, x, q);
      p := [x] + q;
    }
  }

  /** A sequence longer than the set it draws from repeats an element. */
  lemma {:induction false} Pigeonhole(p: seq<string>, s: set<string>)
    requires |p| > |s| && forall i :: 0 <= i < |p| ==> p[i] in s
    ensures exists i, j :: 0 <= i < j < |p| && p[i] == p[j]
    decreases |p|
  {
    var last := |p| - 1;
    if exists i :: 0 <= i < last && p[i] == p[last] {
      var i :| 0 <= i < last && p[i] == p[last];
    } else {
      Pigeonhole(p[..last], s - {p[last]});
      var i, j :| 0 <= i < j < last && p[..last][i] == p[..last][j];
      assert p[i] == p[j];
    }
  }

  lemma LoopIsCycle(adj: Adj, p: seq<string>, i: nat, j: nat)
    requires IsWalk(adj, p) && i < j < |p| && p[i] == p[j]
    ensures OnCycle(adj, p[i])
  {
    var q := p[i + 1..j + 1];
    forall k | 0 <= k < |q| - 1 ensures EdgeIn(adj, q[k], q[k + 1]) {
      var m := i + 1 + k;
      assert EdgeIn(adj, p[m], p[m + 1]);
    }
    assert EdgeIn(adj, p[i], p[i + 1]);
    assert WalkFromTo(adj, q, p[i + 1], p[i]);
  }

  lemma StuckHasCycle(adj: Adj, rest: set<string>)
    requires Stuck(adj, rest) && rest != {}
    ensures !Acyclic(adj)
  {
    var p := LongWalk(adj, rest, |rest|);
    Pigeonhole(p, rest);
    var i, j :| 0 <= i < j < |p| && p[i] == p[j];
    LoopIsCycle(adj, p, i, j);
  }

  // ------------------------------------------------- the state of the algorithm

  /** The state between two nodes: counters count the edges from unsettled nodes, and
      the nodes at zero are those ready or settled. */
  ghost predicate KahnState(adj: Adj, nodes: set<string>, degree: map<string, nat>, ready: seq<string>,
                            rank: map<string, nat>)
  {
    && rank.Keys <= nodes
    && Counts(adj, nodes, degree, adj.Keys - rank.Keys)
    && ReadyAtZero(nodes, degree, ready, rank.Keys)
    && GoodRanks(adj, rank)
  }

  ghost predicate GoodRanks(adj: Adj, rank: map<string, nat>) {
    Ranked(adj, rank) && forall n :: n in rank ==> rank[n] < |rank|
  }

  /** Each node's degree counts the edges that leave `sources`, and those of `node`. */
  ghost predicate Owes(adj: Adj, nodes: set<string>, degree: map<string, nat>, sources: set<string>, node: string) {
    degree.Keys == nodes && forall n :: n in nodes ==> degree[n] == InDegree(adj, sources, n) + multiset(Succ(adj, node))[n]
  }

  /** `less` is `degree` without some ends of edges. */
  ghost predicate WithoutEnds(nodes: set<string>, degree: map<string, nat>, less: map<string, nat>, ends: seq<string>) {
    && degree.Keys == less.Keys == nodes
    && forall n :: n in nodes ==> less[n] + multiset(ends)[n] == degree[n]
  }

  lemma Repaid(adj: Adj, nodes: set<string>, degree: map<string, nat>, less: map<string, nat>, sources: set<string>,
               node: string)
    requires Owes(adj, nodes, degree, sources, node) && WithoutEnds(nodes, degree, less, Succ(adj, node))
    ensures Counts(adj, nodes, less, sources)
  {
  }

  /** Each node's degree counts the edges that leave `sources`. */
  ghost predicate Counts(adj: Adj, nodes: set<string>, degree: map<string, nat>, sources: set<string>) {
    degree.Keys == nodes && forall n :: n in nodes ==> degree[n] == InDegree(adj, sources, n)
  }

  lemma CountsMore(adj: Adj, nodes: set<string>, degree: map<string, nat>, degree': map<string, nat>,
                   sources: set<string>, x: string)
    requires Counts(adj, nodes, degree, sources) && degree'.Keys == nodes && x !in sources
    requires forall n :: n in nodes ==> degree'[n] == degree[n] + multiset(Succ(adj, x))[n]
    ensures Counts(adj, nodes, degree', sources + {x})
  {
    forall n | n in nodes ensures degree'[n] == InDegree(adj, sources + {x}, n) {
      InDegreeWithout(adj, sources + {x}, x, n);
      assert sources + {x} - {x} == sources;
    }
  }

  /** Before anything is settled. */
  lemma NothingSettled(adj: Adj, nodes: set<string>, degree: map<string, nat>, ready: seq<string>)
    requires Counts(adj, nodes, degree, adj.Keys) && ReadyAtZero(nodes, degree, ready, {})
    ensures KahnState(adj, nodes, degree, ready, map[])
  {
    var rank: map<string, nat> := map[];
    assert rank.Keys == {} && adj.Keys - rank.Keys == adj.Keys;
  }

  ghost predicate ReadyAtZero(nodes: set<string>, degree: map<string, nat>, ready: seq<string>, settled: set<string>)
  {
    && degree.Keys == nodes
    && (forall i, j :: 0 <= i < j < |ready| ==> ready[i] != ready[j])
    && (forall n :: n in ready ==> n in nodes && n !in settled)
    && (forall n :: n in nodes ==> (degree[n] == 0 <==> n in ready || n in settled))
  }

  /** A ready node has all its predecessors settled. */
  lemma ReadyIsFed(adj: Adj, settled: set<string>, node: string, x: string)
    requires InDegree(adj, adj.Keys - settled, node) == 0 && EdgeIn(adj, x, node)
    ensures x in settled
  {
    InDegreeZero(adj, adj.Keys - settled, node);
    assert x in adj.Keys;
  }

  /** So it can be ranked next. */
  lemma RankNext(adj: Adj, rank: map<string, nat>, node: string, rank': map<string, nat>)
    requires GoodRanks(adj, rank) && node !in rank && rank' == rank[node := |rank|]
    requires forall x :: EdgeIn(adj, x, node) ==> x in rank
    ensures Ranked(adj, rank')
  {
    forall x, n | n in rank' && EdgeIn(adj, x, n) ensures x in rank' && rank'[x] < rank'[n] {
      if n != node {
        assert x in rank && rank[x] < rank[n];
      }
    }
  }

  lemma SettleRank(adj: Adj, rank: map<string, nat>, node: string)
    requires GoodRanks(adj, rank) && node !in rank && InDegree(adj, adj.Keys - rank.Keys, node) == 0
    ensures |rank[node := |rank|]| == |rank| + 1 && GoodRanks(adj, rank[node := |rank|])
  {
    forall x | EdgeIn(adj, x, node) ensures x in rank {
      ReadyIsFed(adj, rank.Keys, node, x);
    }
    var rank' := rank[node := |rank|];
    RankNext(adj, rank, node, rank');
    assert rank'.Keys == rank.Keys + {node};
  }

  /** Its own edges are still counted. */
  lemma SettleDegree(adj: Adj, settled: set<string>, node: string, n: string)
    requires node !in settled
    ensures InDegree(adj, adj.Keys - settled, n)
              == InDegree(adj, adj.Keys - (settled + {node}), n) + multiset(Succ(adj, node))[n]
  {
    if node in adj {
      InDegreeWithout(adj, adj.Keys - settled, node, n);
      assert adj.Keys - settled - {node} == adj.Keys - (settled + {node});
    } else {
      assert adj.Keys - settled == adj.Keys - (settled + {node});
    }
  }

  lemma SettleReady(nodes: set<string>, degree: map<string, nat>, ready: seq<string>, settled: set<string>)
    requires degree.Keys == nodes && ready != [] && ReadyAtZero(nodes, degree, ready, settled)
    ensures ReadyAtZero(nodes, degree, ready[..|ready| - 1], settled + {ready[|ready| - 1]})
  {
    var node, rest := ready[|ready| - 1], ready[..|ready| - 1];
    assert forall n :: n in ready <==> n == node || n in rest;
    assert forall n :: n in rest ==> n != node;
  }

  lemma SettledOwes(adj: Adj, nodes: set<string>, degree: map<string, nat>, settled: set<string>, node: string)
    requires Counts(adj, nodes, degree, adj.Keys - settled) && node !in settled
    ensures Owes(adj, nodes, degree, adj.Keys - (settled + {node}), node)
  {
    forall n | n in nodes
      ensures degree[n] == InDegree(adj, adj.Keys - (settled + {node}), n) + multiset(Succ(adj, node))[n]
    {
      SettleDegree(adj, settled, node, n);
    }
  }

  lemma LastIsReady(nodes: set<string>, degree: map<string, nat>, ready: seq<string>, settled: set<string>)
    requires ready != [] && ReadyAtZero(nodes, degree, ready, settled)
    ensures var node := ready[|ready| - 1];
            node in nodes && node !in settled && degree[node] == 0
  {
    assert ready[|ready| - 1] in ready;
  }

  /** Settling the last ready node. */
  lemma Settle(adj: Adj, nodes: set<string>, degree: map<string, nat>, ready: seq<string>, rank: map<string, nat>,
               rank': map<string, nat>)
    requires KahnState(adj, nodes, degree, ready, rank) && ready != [] && rank' == rank[ready[|ready| - 1] := |rank|]
    ensures var node := ready[|ready| - 1];
            && node !in rank && node in nodes
            && |rank'| == |rank| + 1 && rank'.Keys == rank.Keys + {node} && rank'.Keys <= nodes
            && GoodRanks(adj, rank')
            && ReadyAtZero(nodes, degree, ready[..|ready| - 1], rank'.Keys)
            && Owes(adj, nodes, degree, adj.Keys - rank'.Keys, node)
  {
    LastIsReady(nodes, degree, ready, rank.Keys);
    var node := ready[|ready| - 1];
    assert rank'.Keys == rank.Keys + {node};
    SettleRank(adj, rank, node);
    SettleReady(nodes, degree, ready, rank.Keys);
    SettledOwes(adj, nodes, degree, rank.Keys, node);
  }

  /** When nothing is ready, everything is settled exactly if there is no cycle. */
  lemma Finished(adj: Adj, nodes: set<string>, degree: map<string, nat>, rank: map<string, nat>)
    requires adj.Keys <= nodes && KahnState(adj, nodes, degree, [], rank)
    requires forall a, b :: EdgeIn(adj, a, b) ==> b in nodes
    ensures |rank| == |nodes| <==> Acyclic(adj)
  {
    var rest := nodes - rank.Keys;
    assert nodes == rank.Keys + rest;
    assert |nodes| == |rank.Keys| + |rest|;
    if rest == {} {
      RankedIsAcyclic(adj, rank);
    } else {
      UnsettledIsStuck(adj, nodes, degree, rank);
      StuckHasCycle(adj, rest);
    }
  }

  lemma UnsettledIsStuck(adj: Adj, nodes: set<string>, degree: map<string, nat>, rank: map<string, nat>)
    requires adj.Keys <= nodes && KahnState(adj, nodes, degree, [], rank)
    ensures Stuck(adj, nodes - rank.Keys)
  {
    var rest := nodes - rank.Keys;
    forall n | n in rest ensures HasPredecessor(adj, rest, n) {
      assert degree[n] != 0;
      InDegreeZero(adj, adj.Keys - rank.Keys, n);
      var x :| x in adj.Keys - rank.Keys && EdgeIn(adj, x, n);
      assert x in rest;
    }
  }
}
