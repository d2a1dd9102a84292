/**
 * The work-list data flow analysis of the JavaScript checker. A concrete
 * analysis supplies the empty lattice, the transfer function, the join of the
 * out states of several predecessors and the equality of states; the work
 * list algorithm records an out state for every node value it processes, and
 * processes the targets of a node's edges again whenever the node's out state
 * changed.
 */
module DataFlow {
  import opened Wrappers
  import opened ControlFlow

  /**
   * The hooks a concrete analysis supplies: `createEmptyLattice`,
   * `transfer`, `joinBranches` and `areStatesEqual`.
   */
  datatype Analysis<!L> = Analysis(empty: L, transfer: (Value, L) -> L, join: (L, seq<L>, Value) -> L,
                                  equal: (L, L) -> bool)

  /** The state of `analyse`'s loop: the work list, its first node next, and the out state of each node value. */
  datatype Progress<L> = Progress(workList: seq<Node>, outSets: map<Value, L>)

  /** The out states recorded for the sources of `edges`, in the order of the edges, skipping those without one. */
  function OutValues<L>(edges: seq<Edge>, outSets: map<Value, L>): seq<L>
  {
    if |edges| == 0 then []
    else
      var last := edges[|edges| - 1];
      OutValues(edges[..|edges| - 1], outSets) + (if last.src.value in outSets then [outSets[last.src.value]] else [])
  }

  /**
   * `_joinInStatesFromPredecessors`: the empty lattice when no predecessor
   * has an out state, the one out state when one has, and otherwise the join
   * of the first with the others.
   */
  function InState<L>(a: Analysis<L>, predecessors: seq<Edge>, value: Value, outSets: map<Value, L>): L
  {
    var outs := OutValues(predecessors, outSets);
    if |outs| == 0 then a.empty
    else if |outs| == 1 then outs[0]
    else a.join(outs[0], outs[1..], value)
  }

  /** The loop of `_joinInStatesFromPredecessors`, which collects the out states before joining them. */
  method JoinInStatesFromPredecessors<L>(a: Analysis<L>, node: Node, outSets: map<Value, L>) returns (inState: L)
    ensures inState == InState(a, node.predecessors, node.value, outSets)
  {
    var outValues: seq<L> := [];
    for i := 0 to |node.predecessors|
      invariant outValues == OutValues(node.predecessors[..i], outSets)
    {
      var predecessorEdge := node.predecessors[i];
      assert node.predecessors[..i + 1][..i] == node.predecessors[..i];
      if predecessorEdge.src.value in outSets {
        outValues := outValues + [outSets[predecessorEdge.src.value]];
      }
    }
    assert node.predecessors[..|node.predecessors|] == node.predecessors;
    if |outValues| == 0 {
      return a.empty;
    }
    var head, tail := outValues[0], outValues[1..];
    if |tail| == 0 {
      return head;
    }
    return a.join(head, tail, node.value);
  }

  /** `Set.add` of each node in turn: a node the work list lacks is appended, one it holds keeps its place. */
  function AddAll(workList: seq<Node>, nodes: seq<Node>): seq<Node>
  {
    if |nodes| == 0 then workList
    else
      var before := AddAll(workList, nodes[..|nodes| - 1]);
      var last := nodes[|nodes| - 1];
      if last in before then before else before + [last]
  }

  /** The targets of `edges`, in order. */
  function Targets(edges: seq<Edge>): (r: seq<Node>)
    ensures |r| == |edges| && forall k | 0 <= k < |edges| :: r[k] == edges[k].to
  {
    seq(|edges|, k requires 0 <= k < |edges| => edges[k].to)
  }

  /** The loop of `analyse` that adds the target of each edge leaving `node` to the work list. */
  method AddSuccessors(workList: seq<Node>, node: Node) returns (r: seq<Node>)
    ensures r == AddAll(workList, Targets(node.successors))
  {
    var targets := Targets(node.successors);
    r := workList;
    for i := 0 to |node.successors|
      invariant r == AddAll(workList, targets[..i])
    {
      var successor := node.successors[i];
      assert targets[..i + 1][..i] == targets[..i] && targets[..i + 1][i] == successor.to;
      if successor.to !in r {
        r := r + [successor.to];
      }
    }
    assert targets[..|node.successors|] == targets;
  }

  /**
   * One turn of `analyse`'s loop: the first node leaves the work list, its
   * in state is joined from its predecessors and its out state recorded;
   * when that differs from the one recorded before (the empty lattice if
   * none), the targets of its edges join the work list.
   */
  function Step<L>(a: Analysis<L>, p: Progress<L>): Progress<L>
    requires |p.workList| > 0
    reads p.workList[0]
  {
    var node := p.workList[0];
    var outSets := p.outSets[node.value := OutState(a, node, p.outSets)];
    if Changes(a, p) then Progress(AddAll(p.workList[1..], Targets(node.successors)), outSets)
    else Progress(p.workList[1..], outSets)
  }

  /** The out state `transfer` gives `node` from its in state. */
  function OutState<L>(a: Analysis<L>, node: Node, outSets: map<Value, L>): L
    reads node
  {
    a.transfer(node.value, InState(a, node.predecessors, node.value, outSets))
  }

  /** The out state recorded for `value`, or the empty lattice if none is. */
  function OutBefore<L>(a: Analysis<L>, outSets: map<Value, L>, value: Value): L {
    if value in outSets then outSets[value] else a.empty
  }

  /** The first node's out state differs, by `areStatesEqual`, from the one recorded before. */
  predicate Changes<L>(a: Analysis<L>, p: Progress<L>)
    requires |p.workList| > 0
    reads p.workList[0]
  {
    var node := p.workList[0];
    !a.equal(OutBefore(a, p.outSets, node.value), OutState(a, node, p.outSets))
  }

  /**
   * `analyse`'s loop, turn by turn until the work list is empty: the out
   * states then recorded, or `None` when `fuel` runs out first.
   */
  function Iterate<L>(a: Analysis<L>, universe: set<Node>, p: Progress<L>, fuel: nat): Option<map<Value, L>>
    requires Closed(universe) && Within(p.workList, universe)
    reads universe
    decreases fuel
  {
    if |p.workList| == 0 then Some(p.outSets)
    else if fuel == 0 then None
    else
      StepWithin(a, universe, p);
      Iterate(a, universe, Step(a, p), fuel - 1)
  }

  /** What `analyse` may start from: a node, a value, or nothing. */
  function StartNodes(cfg: ControlFlowGraph, start: Option<Endpoint>, ghost universe: set<Node>): seq<Node>
    requires cfg.Valid() && Closed(universe) && forall v | v in cfg.nodes :: cfg.nodes[v] in universe
    requires start.Some? && start.value.OfNode? ==> start.value.node in universe
    reads cfg, universe
  {
    if start.None? || start == Some(OfValue(Null)) then cfg.GetNodes() else cfg.NodesToExit(start.value, universe)
  }

  /**
   * The first work list of `analyse`: every node of the graph when no start
   * is given or the start is the null value, otherwise the nodes
   * `getNodesToExit` yields from the start; the `Set` built from them keeps
   * each node once.
   */
  function InitialWorkList(cfg: ControlFlowGraph, start: Option<Endpoint>, ghost universe: set<Node>): (r: seq<Node>)
    requires cfg.Valid() && Closed(universe) && forall v | v in cfg.nodes :: cfg.nodes[v] in universe
    requires start.Some? && start.value.OfNode? ==> start.value.node in universe
    reads cfg, universe
    ensures Within(r, universe)
  {
    InitialWithin(cfg, start, universe);
    AddAll([], StartNodes(cfg, start, universe))
  }

  /**
   * `analyse`: the out state of every node value, once the work list is
   * empty; `None` when `fuel` turns of the loop do not empty it.
   */
  method Analyse<L>(a: Analysis<L>, cfg: ControlFlowGraph, start: Option<Endpoint>, ghost universe: set<Node>, fuel: nat)
    returns (result: Option<map<Value, L>>)
    requires cfg.Valid() && Closed(universe) && forall v | v in cfg.nodes :: cfg.nodes[v] in universe
    requires start.Some? && start.value.OfNode? ==> start.value.node in universe
    ensures result == Iterate(a, universe, Progress(InitialWorkList(cfg, start, universe), map[]), fuel)
  {
    var workList := InitialWorkList(cfg, start, universe);
    result := RunWorkList(a, universe, workList, map[], fuel);
  }

  /** `analyse`'s loop, from a given work list and out states, for at most `fuel` turns. */
  method RunWorkList<L>(a: Analysis<L>, ghost universe: set<Node>, workList: seq<Node>, outSets: map<Value, L>, fuel: nat)
    returns (result: Option<map<Value, L>>)
    requires Closed(universe) && Within(workList, universe)
    ensures result == Iterate(a, universe, Progress(workList, outSets), fuel)
  {
    var workList, outSets := workList, outSets;
    ghost var target := Iterate(a, universe, Progress(workList, outSets), fuel);
    var remaining := fuel;
    while |workList| > 0
      invariant Closed(universe) && Within(workList, universe)
      invariant Iterate(a, universe, Progress(workList, outSets), remaining) == target
      decreases remaining
    {
      if remaining == 0 {
        IterateStops(a, universe, Progress(workList, outSets), remaining);
        return None;
      }
      workList, outSets, remaining := Advance(a, universe, workList, outSets, remaining, target);
    }
    IterateStops(a, universe, Progress(workList, outSets), remaining);
    return Some(outSets);
  }

  /** The body of `analyse`'s loop. */
  method Turn<L>(a: Analysis<L>, workList: seq<Node>, outSets: map<Value, L>)
    returns (nextWorkList: seq<Node>, nextOutSets: map<Value, L>)
    requires |workList| > 0
    ensures Progress(nextWorkList, nextOutSets) == Step(a, Progress(workList, outSets))
  {
    var node := workList[0];
    nextWorkList := workList[1..];
    var inState := JoinInStatesFromPredecessors(a, node, outSets);
    var outBefore := OutBefore(a, outSets, node.value);
    var outState := a.transfer(node.value, inState);
    nextOutSets := outSets[node.value := outState];
    if !a.equal(outBefore, outState) {
      nextWorkList := AddSuccessors(nextWorkList, node);
    }
  }

  /** One turn of the loop takes one unit of fuel off the iteration still to come, and keeps its outcome. */
  method Advance<L>(a: Analysis<L>, ghost universe: set<Node>, workList: seq<Node>, outSets: map<Value, L>,
                    fuel: nat, ghost target: Option<map<Value, L>>)
    returns (nextWorkList: seq<Node>, nextOutSets: map<Value, L>, nextFuel: nat)
    requires Closed(universe) && Within(workList, universe) && |workList| > 0 && fuel > 0
    requires Iterate(a, universe, Progress(workList, outSets), fuel) == target
    ensures nextFuel < fuel
    ensures Closed(universe) && Within(nextWorkList, universe)
    ensures Iterate(a, universe, Progress(nextWorkList, nextOutSets), nextFuel) == target
  {
    StepWithin(a, universe, Progress(workList, outSets));
    nextWorkList, nextOutSets := Turn(a, workList, outSets);
    nextFuel := fuel - 1;
  }

  // ----- lemmas -----

  /**
   * Adding nodes keeps the work list in front, in order, and adds exactly
   * the nodes it lacked; a work list without repeats stays without repeats.
   */
  lemma {:induction false} AddAllAdds(workList: seq<Node>, nodes: seq<Node>)
    ensures var r := AddAll(workList, nodes);
      |workList| <= |r| && r[..|workList|] == workList &&
      (forall n | n in r :: n in workList || n in nodes) &&
      (forall n | n in nodes :: n in r) &&
      (Distinct(workList) ==> Distinct(r))
    decreases |nodes|
  {
    if |nodes| > 0 {
      var front := nodes[..|nodes| - 1];
      AddAllAdds(workList, front);
      assert nodes == front + [nodes[|nodes| - 1]];
    }
  }

  /** The iteration ends at once when the work list is empty or no fuel is left. */
  lemma IterateStops<L>(a: Analysis<L>, universe: set<Node>, p: Progress<L>, fuel: nat)
    requires Closed(universe) && Within(p.workList, universe) && (|p.workList| == 0 || fuel == 0)
    ensures Iterate(a, universe, p, fuel) == if |p.workList| == 0 then Some(p.outSets) else None
  {
  }

  /** The step keeps the work list within a closed part of the heap. */
  lemma StepWithin<L>(a: Analysis<L>, universe: set<Node>, p: Progress<L>)
    requires Closed(universe) && Within(p.workList, universe) && |p.workList| > 0
    ensures Within(Step(a, p).workList, universe)
  {
    var node := p.workList[0];
    var rest := p.workList[1..];
    AddAllAdds(rest, Targets(node.successors));
    var r := Step(a, p).workList;
    forall k | 0 <= k < |r|
      ensures r[k] in universe
    {
      assert r[k] in r;
      if r[k] !in rest {
        var j :| 0 <= j < |node.successors| && Targets(node.successors)[j] == r[k];
      }
    }
  }

  /** The first work list lies within the part of the heap the walk may go through. */
  lemma InitialWithin(cfg: ControlFlowGraph, start: Option<Endpoint>, universe: set<Node>)
    requires cfg.Valid() && Closed(universe) && forall v | v in cfg.nodes :: cfg.nodes[v] in universe
    requires start.Some? && start.value.OfNode? ==> start.value.node in universe
    ensures Within(AddAll([], StartNodes(cfg, start, universe)), universe)
  {
    var nodes := StartNodes(cfg, start, universe);
    AddAllAdds([], nodes);
    if !(start.None? || start == Some(OfValue(Null))) {
      match cfg.StartOf(start.value)
      case None =>
      case Some(first) =>
        VisitNodeStaysIn(universe, first, {}, universe);
    }
    var r := AddAll([], nodes);
    forall k | 0 <= k < |r|
      ensures r[k] in universe
    {
      assert r[k] in r;
    }
  }

  /** A list without repeats is its own `Set`: adding its nodes to a work list without them appends them in order. */
  lemma {:induction false} AddAllFresh(workList: seq<Node>, nodes: seq<Node>)
    requires Distinct(nodes) && forall n | n in nodes :: n !in workList
    ensures AddAll(workList, nodes) == workList + nodes
    decreases |nodes|
  {
    if |nodes| > 0 {
      var front := nodes[..|nodes| - 1];
      assert forall n | n in front :: n in nodes;
      AddAllFresh(workList, front);
      assert nodes == front + [nodes[|nodes| - 1]];
      assert nodes[|nodes| - 1] !in front;
    }
  }

  /**
   * The first work list is exactly the nodes the start selects, in their
   * order: every node of the graph in creation order when no start is given
   * or the start is the null value, otherwise the nodes the walk from the
   * start yields.
   */
  lemma InitialWorkListIsStartNodes(cfg: ControlFlowGraph, start: Option<Endpoint>, universe: set<Node>)
    requires cfg.Valid() && Closed(universe) && forall v | v in cfg.nodes :: cfg.nodes[v] in universe
    requires start.Some? && start.value.OfNode? ==> start.value.node in universe
    ensures InitialWorkList(cfg, start, universe) == StartNodes(cfg, start, universe)
    ensures start.None? || start == Some(OfValue(Null)) ==> InitialWorkList(cfg, start, universe) == cfg.GetNodes()
    ensures start.Some? && start.value.OfNode? ==>
      InitialWorkList(cfg, start, universe) == VisitNode(universe, start.value.node, {}).nodes
  {
    var nodes := StartNodes(cfg, start, universe);
    StartNodesDistinct(cfg, start, universe);
    AddAllFresh([], nodes);
    assert [] + nodes == nodes;
  }

  /** The nodes a start selects repeat no node. */
  lemma StartNodesDistinct(cfg: ControlFlowGraph, start: Option<Endpoint>, universe: set<Node>)
    requires cfg.Valid() && Closed(universe) && forall v | v in cfg.nodes :: cfg.nodes[v] in universe
    requires start.Some? && start.value.OfNode? ==> start.value.node in universe
    ensures Distinct(StartNodes(cfg, start, universe))
  {
    if start.None? || start == Some(OfValue(Null)) {
      assert StartNodes(cfg, start, universe) == cfg.GetNodes();
    } else {
      assert StartNodes(cfg, start, universe) == cfg.NodesToExit(start.value, universe);
    }
  }

  /**
   * A turn records the first node's out state, computed from its in state,
   * under its value and changes no other; the node leaves the work list
   * unless its out state changed and an edge leads from it to itself. A work
   * list without repeats stays without repeats.
   */
  lemma StepRecordsOutState<L>(a: Analysis<L>, p: Progress<L>)
    requires |p.workList| > 0 && Distinct(p.workList)
    ensures var node := p.workList[0];
      Step(a, p).outSets == p.outSets[node.value := a.transfer(node.value, InState(a, node.predecessors, node.value, p.outSets))]
    ensures var node := p.workList[0];
      node in Step(a, p).workList ==> Changes(a, p) && exists k | 0 <= k < |node.successors| :: node.successors[k].to == node
    ensures Distinct(Step(a, p).workList)
  {
    var node := p.workList[0];
    var rest := p.workList[1..];
    AddAllAdds(rest, Targets(node.successors));
    assert node !in rest;
    if node in Step(a, p).workList {
      var k :| 0 <= k < |node.successors| && Targets(node.successors)[k] == node;
    }
  }

  /**
   * The targets of the first node's edges join the work list only when its
   * out state changed: otherwise the rest of the work list is left as it
   * is; if so, each target is added behind the rest unless it is waiting
   * already, and nothing else is added.
   */
  lemma StepRequeuesOnlyOnChange<L>(a: Analysis<L>, p: Progress<L>)
    requires |p.workList| > 0
    ensures !Changes(a, p) ==> Step(a, p).workList == p.workList[1..]
    ensures var node := p.workList[0]; var r := Step(a, p).workList;
      Changes(a, p) ==>
        |p.workList| - 1 <= |r| && r[..|p.workList| - 1] == p.workList[1..] &&
        (forall k | 0 <= k < |node.successors| :: node.successors[k].to in r) &&
        (forall n | n in r :: n in p.workList[1..] || exists k | 0 <= k < |node.successors| :: node.successors[k].to == n)
  {
    var node := p.workList[0];
    var targets := Targets(node.successors);
    AddAllAdds(p.workList[1..], targets);
    if Changes(a, p) {
      var r := Step(a, p).workList;
      assert forall k | 0 <= k < |node.successors| :: node.successors[k].to == targets[k] && targets[k] in targets;
      forall n | n in r
        ensures n in p.workList[1..] || exists k | 0 <= k < |node.successors| :: node.successors[k].to == n
      {
        if n !in p.workList[1..] {
          var k :| 0 <= k < |targets| && targets[k] == n;
        }
      }
    }
  }

  /** No out state is collected exactly when no predecessor's source has one. */
  lemma {:induction false} OutValuesEmpty<L>(edges: seq<Edge>, outSets: map<Value, L>)
    ensures OutValues(edges, outSets) == [] <==> forall k | 0 <= k < |edges| :: edges[k].src.value !in outSets
    decreases |edges|
  {
    if |edges| > 0 {
      var front := edges[..|edges| - 1];
      OutValuesEmpty(front, outSets);
      assert forall k | 0 <= k < |front| :: front[k] == edges[k];
    }
  }

  /** When only the source of the predecessor at `k` has an out state, that one state is collected. */
  lemma {:induction false} OutValuesSingle<L>(edges: seq<Edge>, outSets: map<Value, L>, k: nat)
    requires k < |edges| && edges[k].src.value in outSets
    requires forall j | 0 <= j < |edges| && j != k :: edges[j].src.value !in outSets
    ensures OutValues(edges, outSets) == [outSets[edges[k].src.value]]
    decreases |edges|
  {
    var front := edges[..|edges| - 1];
    assert forall j | 0 <= j < |front| :: front[j] == edges[j];
    if k == |edges| - 1 {
      OutValuesEmpty(front, outSets);
    } else {
      OutValuesSingle(front, outSets, k);
    }
  }

  /**
   * When the sources of the predecessors at `j` and `k` both have out
   * states, and `j` is the first that has one, at least two states are
   * collected and the first is `j`'s.
   */
  lemma {:induction false} OutValuesFirst<L>(edges: seq<Edge>, outSets: map<Value, L>, j: nat, k: nat)
    requires j < k < |edges| && edges[j].src.value in outSets && edges[k].src.value in outSets
    requires forall i | 0 <= i < j :: edges[i].src.value !in outSets
    ensures |OutValues(edges, outSets)| >= 2
    ensures OutValues(edges, outSets)[0] == outSets[edges[j].src.value]
    decreases |edges|
  {
    var front := edges[..|edges| - 1];
    assert forall i | 0 <= i < |front| :: front[i] == edges[i];
    if k < |edges| - 1 {
      OutValuesFirst(front, outSets, j, k);
    } else {
      OutValuesLeading(front, outSets, j);
    }
  }

  /** When `j` is the first predecessor whose source has an out state, that state comes first. */
  lemma {:induction false} OutValuesLeading<L>(edges: seq<Edge>, outSets: map<Value, L>, j: nat)
    requires j < |edges| && edges[j].src.value in outSets
    requires forall i | 0 <= i < j :: edges[i].src.value !in outSets
    ensures |OutValues(edges, outSets)| >= 1
    ensures OutValues(edges, outSets)[0] == outSets[edges[j].src.value]
    decreases |edges|
  {
    var front := edges[..|edges| - 1];
    assert forall i | 0 <= i < |front| :: front[i] == edges[i];
    if j < |edges| - 1 {
      OutValuesLeading(front, outSets, j);
    } else {
      OutValuesEmpty(front, outSets);
    }
  }

  /**
   * The in state of a node: the empty lattice when no predecessor has an out
   * state; the one out state when a single predecessor has one; otherwise
   * `joinBranches` of the first predecessor's out state with the others.
   */
  lemma InStateWithoutOuts<L>(a: Analysis<L>, predecessors: seq<Edge>, value: Value, outSets: map<Value, L>)
    requires forall k | 0 <= k < |predecessors| :: predecessors[k].src.value !in outSets
    ensures InState(a, predecessors, value, outSets) == a.empty
  {
    OutValuesEmpty(predecessors, outSets);
  }

  /** With a single predecessor that has an out state, the in state is that out state. */
  lemma InStateOfOneOut<L>(a: Analysis<L>, predecessors: seq<Edge>, value: Value, outSets: map<Value, L>, k: nat)
    requires k < |predecessors| && predecessors[k].src.value in outSets
    requires forall j | 0 <= j < |predecessors| && j != k :: predecessors[j].src.value !in outSets
    ensures InState(a, predecessors, value, outSets) == outSets[predecessors[k].src.value]
  {
    OutValuesSingle(predecessors, outSets, k);
  }

  /** With two predecessors that have out states, the in state joins the first one's with the rest. */
  lemma InStateJoins<L>(a: Analysis<L>, predecessors: seq<Edge>, value: Value, outSets: map<Value, L>, j: nat, k: nat)
    requires j < k < |predecessors| && predecessors[j].src.value in outSets && predecessors[k].src.value in outSets
    requires forall i | 0 <= i < j :: predecessors[i].src.value !in outSets
    ensures var outs := OutValues(predecessors, outSets);
      |outs| >= 2 &&
      InState(a, predecessors, value, outSets) == a.join(outSets[predecessors[j].src.value], outs[1..], value)
  {
    OutValuesFirst(predecessors, outSets, j, k);
  }

  /**
   * When the loop ends, every node that was waiting has its value's out
   * state recorded, and every value recorded before keeps one.
   */
  lemma {:induction false} IterateRecordsEveryNode<L>(a: Analysis<L>, universe: set<Node>, p: Progress<L>, fuel: nat)
    requires Closed(universe) && Within(p.workList, universe)
    ensures var r := Iterate(a, universe, p, fuel);
      r.Some? ==> (forall k | 0 <= k < |p.workList| :: p.workList[k].value in r.value) &&
                  (forall v | v in p.outSets :: v in r.value)
    decreases fuel
  {
    if |p.workList| > 0 && fuel > 0 {
      StepWithin(a, universe, p);
      var q := Step(a, p);
      IterateRecordsEveryNode(a, universe, q, fuel - 1);
      StepRequeuesOnlyOnChange(a, p);
      forall k | 1 <= k < |p.workList|
        ensures p.workList[k] in q.workList
      {
        assert p.workList[k] == p.workList[1..][k - 1];
        if Changes(a, p) {
          assert p.workList[k] == q.workList[..|p.workList| - 1][k - 1];
        }
      }
    }
  }

  /**
   * When `analyse` ends within its fuel, the map it returns holds an out
   * state for the value of every node of its first work list.
   */
  lemma AnalyseRecordsEveryStartNode<L>(a: Analysis<L>, cfg: ControlFlowGraph, start: Option<Endpoint>,
                                        universe: set<Node>, fuel: nat)
    requires cfg.Valid() && Closed(universe) && forall v | v in cfg.nodes :: cfg.nodes[v] in universe
    requires start.Some? && start.value.OfNode? ==> start.value.node in universe
    ensures var r := Iterate(a, universe, Progress(InitialWorkList(cfg, start, universe), map[]), fuel);
      r.Some? ==> forall n | n in StartNodes(cfg, start, universe) :: n.value in r.value
  {
    InitialWorkListIsStartNodes(cfg, start, universe);
    IterateRecordsEveryNode(a, universe, Progress(InitialWorkList(cfg, start, universe), map[]), fuel);
  }
}
