/** The deterministic handoff graph: edges with conditions, cycle prevention and
    routing. */
module HandoffGraph {
  import opened Wrappers
  import opened Condition
  import opened ConditionGrammar
  import opened ConditionLexer
  import opened ConditionMeaning
  import opened PartialState
  import opened Reachability
  import opened Kahn

  datatype Edge = Edge(to: string, whenSrc: Option<string>, cond: Option<Expr>)

  datatype AddError =
    | InvalidCondition(error: TextError)
    | WouldCreateCycle

  function Ends(edges: seq<Edge>): (r: seq<string>)
    ensures |r| == |edges| && forall i :: 0 <= i < |r| ==> r[i] == edges[i].to
  {
    seq(|edges|, i requires 0 <= i < |edges| => edges[i].to)
  }

  /** The plain graph underneath. */
  function Plain(adj: map<string, seq<Edge>>): Adj {
    map n | n in adj :: Ends(adj[n])
  }

  /** The first edge whose condition holds; an edge without one always matches. */
  function FirstMatch(sem: Semantics, edges: seq<Edge>, state: Value): Option<string> {
    if edges == [] then None
    else if edges[0].cond.None? || Holds(sem, edges[0].cond.value, state) then Some(edges[0].to)
    else FirstMatch(sem, edges[1..], state)
  }

  /** The edge's condition is what its text says. */
  predicate Compiled(chars: Chars, e: Edge) {
    match e.whenSrc
    case None => e.cond == None
    case Some(text) => ReadText(chars, text).Ok? && e.cond == Some(AstOr(ReadText(chars, text).value))
  }

  /** An edge matches if it has no condition, or the condition, as it was written, holds. */
  predicate Matches(chars: Chars, sem: Semantics, e: Edge, state: Value)
    requires Compiled(chars, e)
  {
    e.whenSrc.None? || OrHolds(sem, ReadText(chars, e.whenSrc.value).value, state)
  }

  ghost predicate AllCompiled(chars: Chars, edges: seq<Edge>) {
    forall i :: 0 <= i < |edges| ==> Compiled(chars, edges[i])
  }

  /** Edge `i` matches and no earlier one does. */
  ghost predicate MatchesFirst(chars: Chars, sem: Semantics, edges: seq<Edge>, state: Value, i: int)
    requires AllCompiled(chars, edges)
  {
    && 0 <= i < |edges| && Matches(chars, sem, edges[i], state)
    && forall j :: 0 <= j < i ==> !Matches(chars, sem, edges[j], state)
  }

  /** The end of the first edge that matches, or none if none does. */
  ghost predicate RoutesTo(chars: Chars, sem: Semantics, edges: seq<Edge>, state: Value, r: Option<string>)
    requires AllCompiled(chars, edges)
  {
    match r
    case None => forall i :: 0 <= i < |edges| ==> !Matches(chars, sem, edges[i], state)
    case Some(to) => exists i :: MatchesFirst(chars, sem, edges, state, i) && edges[i].to == to
  }

  lemma {:induction false} FirstMatchRoutes(chars: Chars, sem: Semantics, edges: seq<Edge>, state: Value)
    requires AllCompiled(chars, edges)
    ensures RoutesTo(chars, sem, edges, state, FirstMatch(sem, edges, state))
  {
    if edges != [] {
      var e, rest := edges[0], edges[1..];
      CompiledMatches(chars, sem, e, state);
      if Matches(chars, sem, e, state) {
        assert MatchesFirst(chars, sem, edges, state, 0);
      } else {
        FirstMatchRoutes(chars, sem, rest, state);
        OneEdgeMore(chars, sem, edges, state, FirstMatch(sem, rest, state));
      }
    }
  }

  lemma CompiledPaths(chars: Chars, edges: seq<Edge>)
    requires AllCompiled(chars, edges)
    ensures forall e :: e in edges && e.cond.Some? ==> [] !in PathsOf(e.cond.value)
  {
    forall e | e in edges && e.cond.Some? ensures [] !in PathsOf(e.cond.value) {
      assert Compiled(chars, e);
      OrPaths(ReadText(chars, e.whenSrc.value).value);
    }
  }

  lemma CompiledMatches(chars: Chars, sem: Semantics, e: Edge, state: Value)
    requires Compiled(chars, e)
    ensures Matches(chars, sem, e, state) <==> e.cond.None? || Holds(sem, e.cond.value, state)
  {
    if e.whenSrc.Some? { OrMeans(sem, ReadText(chars, e.whenSrc.value).value, state); }
  }

  lemma OneEdgeMore(chars: Chars, sem: Semantics, edges: seq<Edge>, state: Value, r: Option<string>)
    requires edges != [] && AllCompiled(chars, edges) && !Matches(chars, sem, edges[0], state)
    requires RoutesTo(chars, sem, edges[1..], state, r)
    ensures RoutesTo(chars, sem, edges, state, r)
  {
    if r.Some? {
      var i :| MatchesFirst(chars, sem, edges[1..], state, i) && edges[1..][i].to == r.value;
      forall j | 0 <= j < i + 1 ensures !Matches(chars, sem, edges[j], state) {
        if j > 0 { assert edges[j] == edges[1..][j - 1]; }
      }
      assert edges[i + 1] == edges[1..][i];
      assert MatchesFirst(chars, sem, edges, state, i + 1);
    } else {
      forall j | 0 <= j < |edges| ensures !Matches(chars, sem, edges[j], state) {
        if j > 0 { assert edges[j] == edges[1..][j - 1]; }
      }
    }
  }

  /** The paths kept for a node: prefix-free, not empty, and covering what its
      conditions read. */
  ghost predicate PathsOk(edges: seq<Edge>, paths: seq<Path>) {
    && PrefixFree(paths)
    && (forall p :: p in paths ==> p != [])
    && (forall e :: e in edges && e.cond.Some? ==> Covers(paths, e.cond.value))
  }

  lemma {:induction false} SameMatch(sem: Semantics, edges: seq<Edge>, paths: seq<Path>, a: Value, b: Value)
    requires forall e :: e in edges && e.cond.Some? ==> Covers(paths, e.cond.value)
    requires forall p :: p in paths ==> Lookup(a, p) == Lookup(b, p)
    ensures FirstMatch(sem, edges, a) == FirstMatch(sem, edges, b)
  {
    if edges != [] {
      var e := edges[0];
      assert e in edges;
      if e.cond.Some? { CoveredEval(sem, e.cond.value, paths, a, b); }
      SameMatch(sem, edges[1..], paths, a, b);
    }
  }

  ghost predicate EndsKnown(adj: map<string, seq<Edge>>, nodes: set<string>) {
    adj.Keys <= nodes && forall n, e :: n in adj && e in adj[n] ==> e.to in nodes
  }

  ghost predicate CompiledIn(chars: Chars, adj: map<string, seq<Edge>>) {
    forall n :: n in adj ==> AllCompiled(chars, adj[n])
  }

  ghost predicate PathsKept(adj: map<string, seq<Edge>>, nodePaths: map<string, seq<Path>>) {
    nodePaths.Keys == adj.Keys && forall n :: n in adj ==> PathsOk(adj[n], nodePaths[n])
  }

  lemma OneEndMore(adj: map<string, seq<Edge>>, nodes: set<string>, from: string, had: seq<Edge>, edge: Edge)
    requires EndsKnown(adj, nodes) && had == if from in adj then adj[from] else []
    ensures EndsKnown(adj[from := had + [edge]], nodes + {from} + {edge.to})
  {
  }

  lemma OneCompiledMore(chars: Chars, adj: map<string, seq<Edge>>, from: string, had: seq<Edge>, edge: Edge)
    requires CompiledIn(chars, adj) && Compiled(chars, edge) && had == if from in adj then adj[from] else []
    ensures AllCompiled(chars, had + [edge]) && CompiledIn(chars, adj[from := had + [edge]])
  {
    var edges := had + [edge];
    forall i | 0 <= i < |edges| ensures Compiled(chars, edges[i]) {
      if i < |had| { assert AllCompiled(chars, adj[from]); }
    }
  }

  lemma OnePathsMore(adj: map<string, seq<Edge>>, nodePaths: map<string, seq<Path>>, from: string, edges: seq<Edge>,
                     paths: seq<Path>)
    requires PathsKept(adj, nodePaths) && PathsOk(edges, paths)
    ensures PathsKept(adj[from := edges], nodePaths[from := paths])
  {
  }

  class HandoffGraph {
    var adj: map<string, seq<Edge>>
    var nodes: set<string>
    const errorOnCycle: bool
    const chars: Chars
    var nodePaths: map<string, seq<Path>>

    ghost predicate Valid()
      reads this
    {
      && EndsKnown(adj, nodes)
      && CompiledIn(chars, adj)
      && PathsKept(adj, nodePaths)
      && (errorOnCycle ==> Acyclic(Plain(adj)))
    }

    constructor (errorOnCycle: bool, chars: Chars)
      ensures Valid() && adj == map[] && nodes == {} && this.errorOnCycle == errorOnCycle && this.chars == chars
    {
      adj, nodes, nodePaths := map[], {}, map[];
      this.errorOnCycle, this.chars := errorOnCycle, chars;
      new;
      forall n ensures !OnCycle(Plain(adj), n) {}
    }

    /** `add_node`. */
    method AddNode(name: string)
      requires Valid()
      modifies this`nodes
      ensures Valid() && nodes == old(nodes) + {name}
    {
      nodes := nodes + {name};
    }

    /** The depth-first search of `would_create_cycle`: whether `to` reaches `from`. */
    method WouldCycle(from: string, to: string) returns (r: bool)
      requires Valid()
      ensures r <==> Reaches(Plain(adj), to, from)
    {
      ghost var g := Plain(adj);
      ReachesSelf(g, to);
      if from == to { return true; }
      var stack := [to];
      var seen: set<string> := {};
      while stack != []
        invariant Searching(g, from, to, stack, seen)
        invariant seen <= nodes + {to} && forall x :: x in stack ==> x in nodes + {to}
        decreases nodes + {to} - seen, |stack|
      {
        var n := stack[|stack| - 1];
        assert n in stack;
        if n == from { return true; }
        Popped(g, from, to, stack, seen, Succ(g, n));
        stack := stack[..|stack| - 1];
        if n !in seen {
          seen := seen + {n};
          var edges := if n in adj then adj[n] else [];
          assert Ends(edges) == Succ(g, n);
          stack := stack + Ends(edges);
          forall x | x in Ends(edges) ensures x in nodes {
            var i :| 0 <= i < |edges| && edges[i].to == x;
            assert edges[i] in adj[n];
          }
        }
      }
      NotFound(g, from, to, seen);
      return false;
    }

    /** What the search knows: everything on the stack is reachable, nothing seen is the
        node looked for, and the edges of what was seen lead to the seen or the stacked. */
    static ghost predicate Searching(g: Adj, from: string, to: string, stack: seq<string>, seen: set<string>) {
      && (forall x :: x in stack ==> Reaches(g, to, x))
      && (forall x :: x in seen ==> Reaches(g, to, x))
      && from !in seen
      && (to in stack || to in seen)
      && (forall x, y :: x in seen && EdgeIn(g, x, y) ==> y in seen || y in stack)
    }

    static lemma Popped(g: Adj, from: string, to: string, stack: seq<string>, seen: set<string>, next: seq<string>)
      requires stack != [] && Searching(g, from, to, stack, seen)
      requires next == Succ(g, stack[|stack| - 1]) && stack[|stack| - 1] != from
      ensures var n := stack[|stack| - 1];
              if n in seen then Searching(g, from, to, stack[..|stack| - 1], seen)
              else Searching(g, from, to, stack[..|stack| - 1] + next, seen + {n})
    {
      var n := stack[|stack| - 1];
      var rest := stack[..|stack| - 1];
      assert forall x :: x in stack <==> x in rest || x == n;
      forall x | x in next ensures Reaches(g, to, x) {
        assert n in stack;
        ReachesStep(g, to, n, x);
      }
    }

    static lemma NotFound(g: Adj, from: string, to: string, seen: set<string>)
      requires Searching(g, from, to, [], seen)
      ensures !Reaches(g, to, from)
    {
      forall p | WalkFromTo(g, p, to, from) ensures false {
        ClosedHoldsWalk(g, seen, p);
      }
    }

    /** `refresh_paths`, for the edges of one node. */
    method PathsFor(edges: seq<Edge>) returns (paths: seq<Path>)
      requires forall e :: e in edges && e.cond.Some? ==> [] !in PathsOf(e.cond.value)
      ensures PathsOk(edges, paths)
    {
      var collected: seq<Path> := [];
      for i := 0 to |edges|
        invariant NoDuplicates(collected) && [] !in collected
        invariant forall j, q :: 0 <= j < i && edges[j].cond.Some? && q in PathsOf(edges[j].cond.value) ==> q in collected
      {
        assert edges[i] in edges;
        if edges[i].cond.Some? {
          collected := CollectPaths(edges[i].cond.value, collected);
        }
      }
      paths := DropCoveredPaths(collected);
    }

    /** The checks of `add_edge`, in order: the condition, then the cycle. */
    method CheckEdge(from: string, to: string, when: Option<string>) returns (r: Result<Option<Expr>, AddError>)
      requires Valid()
      ensures r == CheckedEdge(chars, adj, errorOnCycle, from, to, when)
      ensures r.Ok? && r.value.Some? ==> [] !in PathsOf(r.value.value)
    {
      var cond: Option<Expr> := None;
      if when.Some? {
        var parsed := ParseText(chars, when.value);
        if parsed.Err? { return Err(InvalidCondition(parsed.error)); }
        cond := Some(parsed.value);
      }
      if errorOnCycle {
        var cycle := WouldCycle(from, to);
        if cycle { return Err(WouldCreateCycle); }
      }
      return Ok(cond);
    }

    /** An edge is rejected for its condition, or for closing a cycle, and for nothing
        else. */
    static ghost function CheckedEdge(chars: Chars, adj: map<string, seq<Edge>>, errorOnCycle: bool, from: string,
                                      to: string, when: Option<string>): Result<Option<Expr>, AddError>
    {
      if when.Some? && ReadText(chars, when.value).Err? then Err(InvalidCondition(ReadText(chars, when.value).error))
      else if errorOnCycle && Reaches(Plain(adj), to, from) then Err(WouldCreateCycle)
      else Ok(if when.Some? then Some(AstOr(ReadText(chars, when.value).value)) else None)
    }

    static function EdgesOf(adj: map<string, seq<Edge>>, n: string): seq<Edge> {
      if n in adj then adj[n] else []
    }

    /** `add_edge`. A rejected edge leaves the graph as it was. */
    method AddEdge(from: string, to: string, when: Option<string>) returns (r: Result<(), AddError>)
      requires Valid()
      modifies this
      ensures Valid()
      ensures match CheckedEdge(chars, old(adj), errorOnCycle, from, to, when)
              case Err(e) => r == Err(e) && adj == old(adj) && nodes == old(nodes) && nodePaths == old(nodePaths)
              case Ok(cond) =>
                && r == Ok(())
                && nodes == old(nodes) + {from, to}
                && adj == old(adj)[from := EdgesOf(old(adj), from) + [Edge(to, when, cond)]]
    {
      var checked := CheckEdge(from, to, when);
      if checked.Err? { return Err(checked.error); }
      InsertEdge(from, Edge(to, when, checked.value));
      return Ok(());
    }

    /** The rest of `add_edge`, for an edge that passed the checks. */
    method InsertEdge(from: string, edge: Edge)
      requires Valid()
      requires Compiled(chars, edge)
      requires errorOnCycle ==> !Reaches(Plain(adj), edge.to, from)
      modifies this
      ensures Valid()
      ensures adj == old(adj)[from := EdgesOf(old(adj), from) + [edge]] && nodes == old(nodes) + {from, edge.to}
    {
      var edges := EdgesOf(adj, from) + [edge];
      OneCompiledMore(chars, adj, from, EdgesOf(adj, from), edge);
      CompiledPaths(chars, edges);
      var paths := PathsFor(edges);
      InsertedIsOk(chars, errorOnCycle, adj, nodes, nodePaths, from, edge, paths);
      nodes := nodes + {from} + {edge.to};
      adj := adj[from := edges];
      nodePaths := nodePaths[from := paths];
    }

    static lemma InsertedIsOk(chars: Chars, errorOnCycle: bool, adj: map<string, seq<Edge>>, nodes: set<string>,
                              nodePaths: map<string, seq<Path>>, from: string, edge: Edge, paths: seq<Path>)
      requires EndsKnown(adj, nodes) && CompiledIn(chars, adj) && PathsKept(adj, nodePaths)
      requires errorOnCycle ==> Acyclic(Plain(adj)) && !Reaches(Plain(adj), edge.to, from)
      requires Compiled(chars, edge) && PathsOk(EdgesOf(adj, from) + [edge], paths)
      ensures var adj' := adj[from := EdgesOf(adj, from) + [edge]];
              && EndsKnown(adj', nodes + {from} + {edge.to}) && CompiledIn(chars, adj')
              && PathsKept(adj', nodePaths[from := paths])
              && (errorOnCycle ==> Acyclic(Plain(adj')))
    {
      var edges := EdgesOf(adj, from) + [edge];
      OneEndMore(adj, nodes, from, EdgesOf(adj, from), edge);
      OneCompiledMore(chars, adj, from, EdgesOf(adj, from), edge);
      OnePathsMore(adj, nodePaths, from, edges, paths);
      PlainWithEdge(adj, from, edges, edge.to);
      if errorOnCycle { NewEdgeAndCycles(Plain(adj), from, edge.to); }
    }

    static lemma PlainWithEdge(adj: map<string, seq<Edge>>, from: string, edges: seq<Edge>, to: string)
      requires edges != [] && edges[|edges| - 1].to == to
      requires edges[..|edges| - 1] == if from in adj then adj[from] else []
      ensures Plain(adj[from := edges]) == WithEdge(Plain(adj), from, to)
    {
      assert Ends(edges) == Ends(edges[..|edges| - 1]) + [to];
    }

    /** `route`: on the partial state, the same edge as on the whole state. */
    method Route(sem: Semantics, node: string, state: Option<Value>) returns (r: Option<string>)
      requires Valid()
      ensures var whole := if state.Some? then state.value else Map([]);
              r == if node in adj then FirstMatch(sem, adj[node], whole) else None
      ensures var whole := if state.Some? then state.value else Map([]);
              if node in adj then RoutesTo(chars, sem, adj[node], whole, r) else r == None
    {
      var partial := Map([]);
      if state.Some? {
        partial := BuildPartial(if node in nodePaths then nodePaths[node] else [], state.value);
      }
      if node !in adj { return None; }
      ghost var whole := if state.Some? then state.value else Map([]);
      RoutedOnParts(chars, sem, adj[node], nodePaths[node], partial, whole);
      r := FirstEdge(sem, adj[node], partial);
    }

    /** The loop of `route` over a node's edges. */
    static method FirstEdge(sem: Semantics, edges: seq<Edge>, state: Value) returns (r: Option<string>)
      ensures r == FirstMatch(sem, edges, state)
    {
      for i := 0 to |edges|
        invariant FirstMatch(sem, edges, state) == FirstMatch(sem, edges[i..], state)
      {
        if edges[i].cond.None? || Holds(sem, edges[i].cond.value, state) {
          return Some(edges[i].to);
        }
        assert edges[i..][1..] == edges[i + 1..];
      }
      return None;
    }

    static lemma RoutedOnParts(chars: Chars, sem: Semantics, edges: seq<Edge>, paths: seq<Path>, partial: Value,
                               whole: Value)
      requires AllCompiled(chars, edges) && PathsOk(edges, paths)
      requires forall p :: p in paths ==> Lookup(partial, p) == Lookup(whole, p)
      ensures FirstMatch(sem, edges, partial) == FirstMatch(sem, edges, whole)
      ensures RoutesTo(chars, sem, edges, whole, FirstMatch(sem, edges, partial))
    {
      SameMatch(sem, edges, paths, partial, whole);
      FirstMatchRoutes(chars, sem, edges, whole);
    }

    // ----------------------------------------------------------------- is_dag

    /** How many edges enter each node. */
    method CountIncoming() returns (degree: map<string, nat>)
      requires Valid()
      ensures Counts(Plain(adj), nodes, degree, adj.Keys)
    {
      ghost var g := Plain(adj);
      degree := map n | n in nodes :: 0;
      var todo := adj.Keys;
      ghost var counted: set<string> := {};
      while todo != {}
        modifies {}
        invariant todo !! counted && todo + counted == adj.Keys
        invariant Counts(g, nodes, degree, counted)
        decreases todo
      {
        var x :| x in todo;
        var more := AddEnds(Ends(adj[x]), degree);
        assert Succ(g, x) == Ends(adj[x]);
        CountsMore(g, nodes, degree, more, counted, x);
        degree, todo, counted := more, todo - {x}, counted + {x};
      }
      assert counted == adj.Keys;
    }

    /** One node's edges, counted. */
    static method AddEnds(ends: seq<string>, degree: map<string, nat>) returns (r: map<string, nat>)
      requires forall e :: e in ends ==> e in degree
      ensures r.Keys == degree.Keys
      ensures forall n :: n in degree ==> r[n] == degree[n] + multiset(ends)[n]
    {
      r := degree;
      for i := 0 to |ends|
        invariant r.Keys == degree.Keys
        invariant forall n :: n in degree ==> r[n] == degree[n] + multiset(ends[..i])[n]
      {
        assert ends[i] in ends;
        assert ends[..i + 1] == ends[..i] + [ends[i]];
        r := r[ends[i] := if ends[i] in r then r[ends[i]] + 1 else 1];
      }
      assert ends[..|ends|] == ends;
    }

    /** The nodes that nothing enters, in some order. */
    static method CollectReady(degree: map<string, nat>) returns (ready: seq<string>)
      ensures ReadyAtZero(degree.Keys, degree, ready, {})
    {
      ready := [];
      var todo := degree.Keys;
      while todo != {}
        invariant todo <= degree.Keys
        invariant forall i, j :: 0 <= i < j < |ready| ==> ready[i] != ready[j]
        invariant forall n :: n in ready <==> n in degree.Keys - todo && degree[n] == 0
        decreases todo
      {
        var n :| n in todo;
        todo := todo - {n};
        if degree[n] == 0 {
          ready := ready + [n];
        }
      }
    }

    /** The edges of a settled node, no longer counted. */
    static method RemoveEnds(ghost nodes: set<string>, ends: seq<string>, degree: map<string, nat>, ready: seq<string>,
                             ghost settled: set<string>)
        returns (r: map<string, nat>, ready': seq<string>)
      requires ReadyAtZero(nodes, degree, ready, settled)
      requires forall n :: n in nodes ==> degree[n] >= multiset(ends)[n]
      requires forall e :: e in ends ==> e in nodes
      ensures ReadyAtZero(nodes, r, ready', settled) && WithoutEnds(nodes, degree, r, ends)
    {
      r, ready' := degree, ready;
      for i := 0 to |ends|
        invariant ReadyAtZero(nodes, r, ready', settled) && WithoutEnds(nodes, degree, r, ends[..i])
      {
        var e := ends[i];
        assert e in ends;
        CountSplit(ends, i, e);
        assert ends[..i + 1] == ends[..i] + [e];
        if e in r {
          r := r[e := r[e] - 1];
          if r[e] == 0 {
            ready' := ready' + [e];
          }
        }
      }
      assert ends[..|ends|] == ends;
    }

    static lemma CountSplit(ends: seq<string>, i: nat, e: string)
      requires i < |ends| && ends[i] == e
      ensures multiset(ends)[e] >= multiset(ends[..i])[e] + 1
    {
      assert ends == ends[..i] + [e] + ends[i + 1..];
    }

    /** One ready node settled: its edges are no longer counted. */
    static method SettleNode(ghost g: Adj, ghost nodes: set<string>, ends: seq<string>, degree: map<string, nat>,
                             ready: seq<string>, ghost rank: map<string, nat>, ghost rank': map<string, nat>)
        returns (degree': map<string, nat>, ready': seq<string>)
      requires KahnState(g, nodes, degree, ready, rank) && ready != [] && rank' == rank[ready[|ready| - 1] := |rank|]
      requires ends == Succ(g, ready[|ready| - 1]) && forall e :: e in ends ==> e in nodes
      ensures KahnState(g, nodes, degree', ready', rank')
      ensures |rank'| == |rank| + 1 && nodes - rank'.Keys < nodes - rank.Keys
    {
      ghost var node := ready[|ready| - 1];
      Settle(g, nodes, degree, ready, rank, rank');
      assert node in nodes - rank.Keys && node !in nodes - rank'.Keys;
      degree', ready' := RemoveEnds(nodes, ends, degree, ready[..|ready| - 1], rank'.Keys);
      Repaid(g, nodes, degree, degree', g.Keys - rank'.Keys, node);
    }

    /** `is_dag`. */
    method IsDag() returns (r: bool)
      requires Valid()
      ensures r <==> Acyclic(Plain(adj))
    {
      ghost var g := Plain(adj);
      assert g.Keys == adj.Keys;
      var degree := CountIncoming();
      var ready := CollectReady(degree);
      ghost var rank: map<string, nat> := map[];
      NothingSettled(g, nodes, degree, ready);
      var settled := 0;
      while ready != []
        modifies {}
        invariant KahnState(g, nodes, degree, ready, rank)
        invariant settled == |rank|
        decreases nodes - rank.Keys
      {
        var node := ready[|ready| - 1];
        var ends := if node in adj then Ends(adj[node]) else [];
        EndsOfNode(node);
        ghost var rank' := rank[node := |rank|];
        degree, ready := SettleNode(g, nodes, ends, degree, ready, rank, rank');
        rank := rank';
        settled := settled + 1;
      }
      EndsAreNodes();
      Finished(g, nodes, degree, rank);
      r := settled == |degree|;
      assert degree.Keys == nodes;
    }

    lemma EndsOfNode(node: string)
      requires Valid()
      ensures Succ(Plain(adj), node) == if node in adj then Ends(adj[node]) else []
      ensures forall e :: e in Succ(Plain(adj), node) ==> e in nodes
    {
      EndsAreNodes();
      forall e | e in Succ(Plain(adj), node) ensures e in nodes {
        assert EdgeIn(Plain(adj), node, e);
      }
    }

    lemma EndsAreNodes()
      requires Valid()
      ensures forall a, b :: EdgeIn(Plain(adj), a, b) ==> b in nodes
    {
      forall a, b | EdgeIn(Plain(adj), a, b) ensures b in nodes {
        var i :| 0 <= i < |adj[a]| && adj[a][i].to == b;
        assert adj[a][i] in adj[a];
      }
    }
  }
}
