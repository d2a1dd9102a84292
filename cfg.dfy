/**
 * The control flow graph of the JavaScript checker. A node wraps a value (an
 * AST node, or null for the exit node) and keeps the edges leaving it and the
 * edges entering it, in the order they were added; an edge records its
 * source, an optional branch label and its target. The graph maps each value
 * to its node.
 */
module ControlFlow {
  import opened Wrappers
  import opened Symbols

  /** `BRANCHES`: the labels of an edge. */
  datatype Branch = True | False | Unconditional | Exception

  /** The value a node wraps: an AST node, identified by a number, or null. */
  datatype Value = Null | AstNode(id: nat)

  /** An edge from `src` to `to`; an edge built without a label has none. */
  datatype Edge = Edge(src: Node, branch: Option<Branch>, to: Node)

  /** What the graph's operations accept for an end point: a node itself, or a value. */
  datatype Endpoint = OfNode(node: Node) | OfValue(value: Value)

  /**
   * `new Edge(from, branch, to)`: both end points must be nodes, `to`
   * checked first.
   */
  function NewEdge(from: Node?, branch: Option<Branch>, to: Node?): (r: Result<Edge, AssertionError>)
  {
    if to == null then Err(AssertionError("branch cannot be null or undefined"))
    else if from == null then Err(AssertionError("from and to need to be an instance of Node"))
    else Ok(Edge(from, branch, to))
  }

  class Node {
    const value: Value
    /** The edges leaving this node, in the order they were added. */
    var successors: seq<Edge>
    /** The edges entering this node, in the order they were added. */
    var predecessors: seq<Edge>
    /** An annotation a data flow analysis may attach; here an opaque number. */
    var annotation: Option<nat>

    /** `new Node(value)`: no edges and no annotation. */
    constructor (value: Value)
      ensures this.value == value
      ensures successors == [] && predecessors == [] && annotation == None
    {
      this.value := value;
      successors := [];
      predecessors := [];
      annotation := None;
    }

    /** `isSuccessorOf`: a search through the edges leaving `node` for one into this node. */
    method IsSuccessorOf(node: Node, branch: Option<Branch>) returns (r: bool)
      ensures r <==> SuccessorOf(this, node, branch)
    {
      var i := 0;
      while i < |node.successors|
        invariant i <= |node.successors|
        invariant forall k | 0 <= k < i :: !Matches(node.successors[k], this, branch)
      {
        var edge := node.successors[i];
        if edge.to == this && (branch.None? || branch == edge.branch) {
          return true;
        }
        i := i + 1;
      }
      return false;
    }
  }

  /** The edge goes into `to`, and carries `branch` when one is asked for. */
  predicate Matches(edge: Edge, to: Node, branch: Option<Branch>) {
    edge.to == to && (branch.None? || branch == edge.branch)
  }

  /** Some edge leaving `from` matches: `to` is a successor of `from` along `branch`. */
  predicate SuccessorOf(to: Node, from: Node, branch: Option<Branch>)
    reads from
  {
    exists k | 0 <= k < |from.successors| :: Matches(from.successors[k], to, branch)
  }

  /** The checks of the edge constructor: both end points must be nodes; the fields are stored as given. */
  lemma NewEdgeChecksEndpoints(from: Node?, branch: Option<Branch>, to: Node?)
    ensures NewEdge(from, branch, to).Ok? <==> from != null && to != null
    ensures NewEdge(from, branch, to).Ok? ==> NewEdge(from, branch, to).value == Edge(from, branch, to)
    ensures to == null ==> NewEdge(from, branch, to) == Err(AssertionError("branch cannot be null or undefined"))
  {
  }

  /** `getNodes` lists the node of every value the graph holds. */
  lemma GetNodesListsEveryNode(graph: ControlFlowGraph, value: Value)
    requires graph.Valid() && value in graph.nodes
    ensures graph.nodes[value] in graph.GetNodes()
  {
    var k :| 0 <= k < |graph.values| && graph.values[k] == value;
    assert graph.GetNodes()[k] == graph.nodes[value];
  }

  /** Asking without a branch matches an edge of any label. */
  lemma WithoutBranchMatchesAny(to: Node, from: Node, branch: Option<Branch>)
    ensures SuccessorOf(to, from, branch) ==> SuccessorOf(to, from, None)
  {
    if SuccessorOf(to, from, branch) {
      var k :| 0 <= k < |from.successors| && Matches(from.successors[k], to, branch);
      assert Matches(from.successors[k], to, None);
    }
  }

  /**
   * An edge counts in its own direction only: with one edge from `from` to
   * `to` and none leaving `to`, `to` is a successor of `from` along the
   * edge's label or along none, and `from` is no successor of `to`.
   */
  lemma OneEdgeIsDirectional(from: Node, to: Node, edgeBranch: Option<Branch>, branch: Option<Branch>)
    requires from.successors == [Edge(from, edgeBranch, to)] && to.successors == []
    ensures SuccessorOf(to, from, branch) <==> branch.None? || branch == edgeBranch
    ensures !SuccessorOf(from, to, branch)
  {
    assert Matches(from.successors[0], to, branch) <==> branch.None? || branch == edgeBranch;
  }

  class ControlFlowGraph {
    /** The node of each value. */
    var nodes: map<Value, Node>
    /** The values of the nodes, in the order the nodes were created. */
    var values: seq<Value>

    /** Each node is stored under its own value, and `values` lists each value once. */
    ghost predicate Valid()
      reads this
    {
      (forall v | v in nodes :: nodes[v].value == v) &&
      Distinct(values) && (forall v | v in values :: v in nodes) && (forall v | v in nodes :: v in values)
    }

    /** `new ControlFlowGraph()`: no nodes. */
    constructor ()
      ensures nodes == map[] && values == [] && Valid()
    {
      nodes := map[];
      values := [];
    }

    /** The nodes of the values `vs`, in that order. */
    function NodesOf(vs: seq<Value>): (r: seq<Node>)
      requires forall v | v in vs :: v in nodes
      reads this
      ensures |r| == |vs| && forall k | 0 <= k < |vs| :: r[k] == nodes[vs[k]]
    {
      if |vs| == 0 then [] else NodesOf(vs[..|vs| - 1]) + [nodes[vs[|vs| - 1]]]
    }

    /** `getNodes`: the nodes, each once, in the order they were created. */
    function GetNodes(): (r: seq<Node>)
      requires Valid()
      reads this
      ensures |r| == |values| && Distinct(r)
      ensures forall k | 0 <= k < |r| :: r[k].value == values[k] && values[k] in nodes
    {
      NodesOf(values)
    }

    /** `getNode`: the node of `value`, if the graph has one. */
    function GetNode(value: Value): (r: Option<Node>)
      reads this
      ensures r.Some? <==> value in nodes
      ensures r.Some? ==> r.value == nodes[value]
    {
      if value in nodes then Some(nodes[value]) else None
    }

    /** `createNode`: the node of `value`, created and stored when there is none. */
    method CreateNode(value: Value) returns (node: Node)
      modifies this
      ensures value in old(nodes) ==> node == old(nodes)[value] && nodes == old(nodes) && values == old(values)
      ensures value !in old(nodes) ==> fresh(node) && nodes == old(nodes)[value := node] && values == old(values) + [value]
      ensures value !in old(nodes) ==> node.successors == [] && node.predecessors == [] && node.annotation == None
      ensures node.value == value || value in old(nodes)
      ensures Valid() <== old(Valid())
    {
      var existing := GetNode(value);
      if existing.Some? {
        return existing.value;
      }
      node := new Node(value);
      nodes := nodes[value := node];
      values := values + [value];
    }

    /** The node an end point stands for, once the graph has a node for a value. */
    function Resolve(endpoint: Endpoint): Node
      reads this
      requires endpoint.OfValue? ==> endpoint.value in nodes
    {
      match endpoint
      case OfNode(n) => n
      case OfValue(v) => nodes[v]
    }

    /** `_getNodeFromValueOrNode`: a node is taken as it is, a value gets its node, created on demand. */
    method NodeOf(endpoint: Endpoint) returns (node: Node)
      modifies this
      ensures endpoint.OfNode? ==> nodes == old(nodes)
      ensures endpoint.OfValue? ==> endpoint.value in nodes
      ensures endpoint.OfValue? && endpoint.value in old(nodes) ==> nodes == old(nodes)
      ensures endpoint.OfValue? && endpoint.value !in old(nodes) ==>
        fresh(node) && nodes == old(nodes)[endpoint.value := node] && node.successors == [] && node.predecessors == []
      ensures node == Resolve(endpoint)
      ensures Valid() <== old(Valid())
    {
      match endpoint
      case OfNode(n) => node := n;
      case OfValue(v) => node := CreateNode(v);
    }

    /** `isConnected`: an edge leads from `from` to `to`, with `branch` if one is given. */
    method IsConnected(from: Endpoint, to: Endpoint, branch: Option<Branch>) returns (r: bool)
      modifies this
      ensures from.OfValue? ==> from.value in nodes
      ensures to.OfValue? ==> to.value in nodes
      ensures nodes.Keys == old(nodes.Keys) + (if from.OfValue? then {from.value} else {}) + (if to.OfValue? then {to.value} else {})
      ensures forall v | v in old(nodes) :: nodes[v] == old(nodes)[v]
      ensures r <==> SuccessorOf(Resolve(to), Resolve(from), branch)
      ensures Valid() <== old(Valid())
    {
      var fromNode := NodeOf(from);
      var toNode := NodeOf(to);
      r := toNode.IsSuccessorOf(fromNode, branch);
    }

    /**
     * The edge-adding part of `connectIfNotFound`: unless `to` is already a
     * successor of `from` along `branch`, one edge is added to the edges
     * leaving `from` and to those entering `to`.
     */
    method Connect(from: Node, branch: Option<Branch>, to: Node)
      modifies from, to
      ensures SuccessorOf(to, from, branch)
      ensures old(SuccessorOf(to, from, branch)) ==>
        from.successors == old(from.successors) && to.predecessors == old(to.predecessors)
      ensures !old(SuccessorOf(to, from, branch)) ==>
        from.successors == old(from.successors) + [Edge(from, branch, to)] &&
        to.predecessors == old(to.predecessors) + [Edge(from, branch, to)]
      ensures from != to ==> from.predecessors == old(from.predecessors) && to.successors == old(to.successors)
      ensures Distinct(old(from.successors)) ==> Distinct(from.successors)
      ensures (forall k | 0 <= k < |old(from.successors)| :: old(from.successors)[k].src == from) ==>
        forall k | 0 <= k < |from.successors| :: from.successors[k].src == from
    {
      var connected := to.IsSuccessorOf(from, branch);
      if !connected {
        var edge := Edge(from, branch, to);
        from.successors := from.successors + [edge];
        to.predecessors := to.predecessors + [edge];
        assert Matches(from.successors[|from.successors| - 1], to, branch);
      }
    }

    /**
     * `connectIfNotFound`: the end points get their nodes, created on demand,
     * and are connected unless they already are. A node created here starts
     * with no edges; one edge is appended to the edges leaving `from` and to
     * those entering `to` exactly when no edge leaving `from` already matches;
     * nothing else about the graph changes.
     */
    method ConnectIfNotFound(from: Endpoint, branch: Option<Branch>, to: Endpoint)
      modifies this, nodes.Values, (if from.OfNode? then {from.node} else {}), (if to.OfNode? then {to.node} else {})
      ensures from.OfValue? ==> from.value in nodes
      ensures to.OfValue? ==> to.value in nodes
      ensures nodes.Keys == old(nodes.Keys) + (if from.OfValue? then {from.value} else {}) + (if to.OfValue? then {to.value} else {})
      ensures forall v | v in old(nodes) :: nodes[v] == old(nodes)[v]
      ensures SuccessorOf(Resolve(to), Resolve(from), branch)
      ensures var f, t := Resolve(from), Resolve(to);
        var leaving := if fresh(f) then [] else old(f.successors);
        var entering := if fresh(t) then [] else old(t.predecessors);
        if exists k | 0 <= k < |leaving| :: Matches(leaving[k], t, branch) then
          f.successors == leaving && t.predecessors == entering
        else
          f.successors == leaving + [Edge(f, branch, t)] && t.predecessors == entering + [Edge(f, branch, t)]
      ensures var f, t := Resolve(from), Resolve(to);
        f != t ==> (fresh(f) || f.predecessors == old(f.predecessors)) && (fresh(t) || t.successors == old(t.successors))
      ensures forall n | n in old(nodes.Values) && n != Resolve(from) && n != Resolve(to) :: unchanged(n)
      ensures Valid() <== old(Valid())
    {
      var fromNode, toNode := EndpointNodes(from, to);
      Connect(fromNode, branch, toNode);
    }

    /** Both end points of `connectIfNotFound` get their nodes; a node created here has no edges yet. */
    method EndpointNodes(from: Endpoint, to: Endpoint) returns (fromNode: Node, toNode: Node)
      modifies this
      ensures from.OfValue? ==> from.value in nodes
      ensures to.OfValue? ==> to.value in nodes
      ensures nodes.Keys == old(nodes.Keys) + (if from.OfValue? then {from.value} else {}) + (if to.OfValue? then {to.value} else {})
      ensures forall v | v in old(nodes) :: nodes[v] == old(nodes)[v]
      ensures fromNode == Resolve(from) && toNode == Resolve(to)
      ensures fresh(fromNode) ==> fromNode.successors == [] && fromNode.predecessors == []
      ensures fresh(toNode) ==> toNode.successors == [] && toNode.predecessors == []
      ensures from.OfNode? ==> fromNode == from.node
      ensures to.OfNode? ==> toNode == to.node
      ensures fresh(fromNode) || fromNode in old(nodes.Values) || from.OfNode?
      ensures fresh(toNode) || toNode in old(nodes.Values) || to.OfNode?
      ensures Valid() <== old(Valid())
    {
      fromNode := NodeOf(from);
      toNode := NodeOf(to);
    }

    /**
     * `getExitEdges`, corrected to take a node that the work list holds twice
     * only once: the edges into the exit found from `node`. `universe` is a
     * part of the heap the edges do not lead out of.
     */
    method GetExitEdges(node: Node, ghost universe: set<Node>) returns (exits: seq<Edge>)
      requires Closed(universe) && node in universe
      ensures exits == ExitSearch(universe, [node], {}, []).found
    {
      var queue := [node];
      var processed: set<Node> := {};
      exits := [];
      while |queue| > 0
        invariant Within(queue, universe)
        invariant ExitSearch(universe, queue, processed, exits) == ExitSearch(universe, [node], {}, [])
        decreases |universe - processed|, |queue|
      {
        var current := queue[|queue| - 1];
        queue := queue[..|queue| - 1];
        if current !in processed {
          ExpandExitsWithin(universe, current.successors, processed + {current}, Frontier(queue, exits));
          SmallerRemainder(universe, processed, current);
          processed := processed + {current};
          queue, exits := VisitSuccessors(current.successors, processed, queue, exits);
        }
      }
    }

    /**
     * `getNodesToExit`: the nodes the depth-first walk yields from the start
     * node, `from` itself or the node of the value `from`; none when the
     * graph has no node for that value.
     */
    function NodesToExit(from: Endpoint, ghost universe: set<Node>): (r: seq<Node>)
      requires Closed(universe)
      requires from.OfNode? ==> from.node in universe
      requires forall v | v in nodes :: nodes[v] in universe
      reads this, universe
    {
      match StartOf(from)
      case None => []
      case Some(start) => VisitNode(universe, start, {}).nodes
    }

    /** The node `getNodesToExit` starts from, looked up without being created. */
    function StartOf(from: Endpoint): (r: Option<Node>)
      reads this
      ensures from.OfNode? ==> r == Some(from.node)
      ensures from.OfValue? ==> r == GetNode(from.value)
    {
      match from
      case OfNode(n) => Some(n)
      case OfValue(v) => GetNode(v)
    }
  }

  // ----- the searches over the edges -----

  /** No edge leaving a node of `universe` leads outside it: the part of the heap a search may walk. */
  ghost predicate Closed(universe: set<Node>)
    reads universe
  {
    forall n | n in universe :: forall k | 0 <= k < |n.successors| :: n.successors[k].to in universe
  }

  /** Every edge a node keeps leaves that node and none is kept twice, as `connectIfNotFound` builds them. */
  ghost predicate WellLinked(universe: set<Node>)
    reads universe
  {
    forall n | n in universe :: Distinct(n.successors) && forall k | 0 <= k < |n.successors| :: n.successors[k].src == n
  }

  /** No element occurs twice. */
  predicate Distinct<T(==)>(s: seq<T>) {
    forall i, j | 0 <= i < j < |s| :: s[i] != s[j]
  }

  /** Every element of `queue` lies in `universe`. */
  predicate Within(queue: seq<Node>, universe: set<Node>) {
    forall k | 0 <= k < |queue| :: queue[k] in universe
  }

  /** Taking one more node of `universe` out leaves fewer. */
  lemma SmallerRemainder(universe: set<Node>, done: set<Node>, n: Node)
    requires n in universe && n !in done
    ensures |universe - (done + {n})| < |universe - done|
  {
    assert universe - done == (universe - (done + {n})) + {n};
  }

  /** Taking more nodes of `universe` out leaves no more. */
  lemma RemainderShrinks(universe: set<Node>, done: set<Node>, more: set<Node>)
    requires done <= more
    ensures |universe - more| <= |universe - done|
  {
    SubsetNoLarger(universe - more, universe - done);
  }

  /** A subset is no larger than the set. */
  lemma {:induction false} SubsetNoLarger<T>(small: set<T>, large: set<T>)
    requires small <= large
    ensures |small| <= |large|
    decreases small
  {
    if small != {} {
      var x :| x in small;
      SubsetNoLarger(small - {x}, large - {x});
    }
  }

  /** The work list of `getExitEdges`, whose next node is its last, and the edges into the exit found so far. */
  datatype Frontier = Frontier(queue: seq<Node>, found: seq<Edge>)

  /** What the exit-edge search ends with: the edges found, in order, and the nodes it processed. */
  datatype Exits = Exits(found: seq<Edge>, processed: set<Node>)

  /**
   * One turn of the loop over a node's successors: an edge into the node of
   * the null value is yielded; otherwise an unprocessed target is put at the
   * front of the work list.
   */
  function ExitStep(edge: Edge, processed: set<Node>, f: Frontier): Frontier {
    if edge.to.value == Null then Frontier(f.queue, f.found + [edge])
    else if edge.to !in processed then Frontier([edge.to] + f.queue, f.found)
    else f
  }

  /** The loop over a node's successors, from the edge at `i` on. */
  function ExpandExits(edges: seq<Edge>, i: nat, processed: set<Node>, f: Frontier): Frontier
    requires i <= |edges|
    decreases |edges| - i
  {
    if i == |edges| then f
    else ExpandExits(edges, i + 1, processed, ExitStep(edges[i], processed, f))
  }

  /**
   * The loop keeps the work list it started from at the back and the edges
   * found before it at the front; what it adds to the work list are targets
   * of the edges outside the exit, and what it adds to the found edges are
   * edges into the exit.
   */
  lemma ExpandExitsAdds(edges: seq<Edge>, i: nat, processed: set<Node>, f: Frontier)
    requires i <= |edges|
    ensures var r := ExpandExits(edges, i, processed, f);
      |f.queue| <= |r.queue| && r.queue[|r.queue| - |f.queue|..] == f.queue &&
      |f.found| <= |r.found| && r.found[..|f.found|] == f.found
    ensures var r := ExpandExits(edges, i, processed, f);
      forall x | x in r.queue :: x in f.queue || exists j | i <= j < |edges| :: edges[j].to == x && x.value != Null
    ensures var r := ExpandExits(edges, i, processed, f);
      forall e | e in r.found :: e in f.found || (e in edges[i..] && e.to.value == Null)
  {
    ExpandExitsKeepsEnds(edges, i, processed, f);
    ExpandExitsQueues(edges, i, processed, f);
    ExpandExitsFinds(edges, i, processed, f);
  }

  /** The loop keeps the work list at the back and the found edges at the front. */
  lemma {:induction false} ExpandExitsKeepsEnds(edges: seq<Edge>, i: nat, processed: set<Node>, f: Frontier)
    requires i <= |edges|
    ensures var r := ExpandExits(edges, i, processed, f);
      |f.queue| <= |r.queue| && r.queue[|r.queue| - |f.queue|..] == f.queue &&
      |f.found| <= |r.found| && r.found[..|f.found|] == f.found
    decreases |edges| - i
  {
    if i < |edges| {
      var g := ExitStep(edges[i], processed, f);
      var r := ExpandExits(edges, i + 1, processed, g);
      ExitStepAdds(edges[i], processed, f);
      ExpandExitsKeepsEnds(edges, i + 1, processed, g);
      SuffixOfSuffix(r.queue, g.queue, f.queue);
      PrefixOfPrefix(r.found, g.found, f.found);
    }
  }

  /** What the loop adds to the work list are targets, outside the exit, of the edges it visits. */
  lemma {:induction false} ExpandExitsQueues(edges: seq<Edge>, i: nat, processed: set<Node>, f: Frontier)
    requires i <= |edges|
    ensures var r := ExpandExits(edges, i, processed, f);
      forall x | x in r.queue :: x in f.queue || exists j | i <= j < |edges| :: edges[j].to == x && x.value != Null
    decreases |edges| - i
  {
    if i < |edges| {
      var g := ExitStep(edges[i], processed, f);
      ExpandExitsQueues(edges, i + 1, processed, g);
      var r := ExpandExits(edges, i + 1, processed, g);
      forall x | x in r.queue
        ensures x in f.queue || exists j | i <= j < |edges| :: edges[j].to == x && x.value != Null
      {
        if x !in g.queue {
          var j :| i + 1 <= j < |edges| && edges[j].to == x && x.value != Null;
        } else if x !in f.queue {
          assert edges[i].to == x && x.value != Null;
        }
      }
    }
  }

  /** What the loop adds to the found edges are edges it visits into the exit. */
  lemma {:induction false} ExpandExitsFinds(edges: seq<Edge>, i: nat, processed: set<Node>, f: Frontier)
    requires i <= |edges|
    ensures var r := ExpandExits(edges, i, processed, f);
      forall e | e in r.found :: e in f.found || (e in edges[i..] && e.to.value == Null)
    decreases |edges| - i
  {
    if i < |edges| {
      var g := ExitStep(edges[i], processed, f);
      ExpandExitsFinds(edges, i + 1, processed, g);
      assert edges[i..] == [edges[i]] + edges[i + 1..];
    }
  }

  /** A suffix of a suffix is a suffix. */
  lemma SuffixOfSuffix<T>(a: seq<T>, b: seq<T>, c: seq<T>)
    requires |b| <= |a| && a[|a| - |b|..] == b && |c| <= |b| && b[|b| - |c|..] == c
    ensures |c| <= |a| && a[|a| - |c|..] == c
  {
    assert a[|a| - |c|..] == a[|a| - |b|..][|b| - |c|..];
  }

  /** A prefix of a prefix is a prefix. */
  lemma PrefixOfPrefix<T>(a: seq<T>, b: seq<T>, c: seq<T>)
    requires |b| <= |a| && a[..|b|] == b && |c| <= |b| && b[..|c|] == c
    ensures |c| <= |a| && a[..|c|] == c
  {
    assert a[..|c|] == a[..|b|][..|c|];
  }

  /** One turn over an edge keeps the work list at the back and the found edges at the front. */
  lemma ExitStepAdds(edge: Edge, processed: set<Node>, f: Frontier)
    ensures var g := ExitStep(edge, processed, f);
      |f.queue| <= |g.queue| && g.queue[|g.queue| - |f.queue|..] == f.queue &&
      |f.found| <= |g.found| && g.found[..|f.found|] == f.found
  {
    assert f.queue[0..] == f.queue && f.found[..|f.found|] == f.found;
    if edge.to.value == Null {
      assert (f.found + [edge])[..|f.found|] == f.found;
    } else if edge.to !in processed {
      assert ([edge.to] + f.queue)[1..] == f.queue;
    }
  }

  /** A work list within `universe` stays within it, the edges leading into it. */
  lemma ExpandExitsWithin(universe: set<Node>, edges: seq<Edge>, processed: set<Node>, f: Frontier)
    requires Within(f.queue, universe)
    requires forall k | 0 <= k < |edges| :: edges[k].to in universe
    ensures Within(ExpandExits(edges, 0, processed, f).queue, universe)
  {
    ExpandExitsAdds(edges, 0, processed, f);
    var r := ExpandExits(edges, 0, processed, f);
    forall k | 0 <= k < |r.queue|
      ensures r.queue[k] in universe
    {
      assert r.queue[k] in r.queue;
    }
  }

  /**
   * After the loop every edge it went through is accounted for: an edge into
   * the exit is among the found edges, the target of any other edge is
   * processed or waiting in the work list.
   */
  lemma {:induction false} ExpandExitsCovers(edges: seq<Edge>, i: nat, processed: set<Node>, f: Frontier)
    requires i <= |edges|
    ensures var r := ExpandExits(edges, i, processed, f);
      forall j | i <= j < |edges| ::
        (edges[j].to.value == Null ==> edges[j] in r.found) &&
        (edges[j].to.value != Null ==> edges[j].to in processed || edges[j].to in r.queue)
    decreases |edges| - i
  {
    if i < |edges| {
      var g := ExitStep(edges[i], processed, f);
      ExpandExitsCovers(edges, i + 1, processed, g);
      ExpandExitsAdds(edges, i + 1, processed, g);
      var r := ExpandExits(edges, i + 1, processed, g);
      if edges[i].to.value == Null {
        assert edges[i] == g.found[|g.found| - 1];
        assert r.found[..|g.found|] == g.found;
        assert edges[i] in r.found[..|g.found|];
      } else if edges[i].to !in processed {
        assert edges[i].to == g.queue[0];
        assert r.queue[|r.queue| - |g.queue|..] == g.queue;
        assert edges[i].to in r.queue[|r.queue| - |g.queue|..];
      }
    }
  }

  /**
   * `getExitEdges` with its flaw corrected: a node that the work list holds
   * more than once is processed only the first time it is taken. The node
   * taken next is the last of the work list; processing adds it to
   * `processed` before its successors are gone through.
   */
  function ExitSearch(universe: set<Node>, queue: seq<Node>, processed: set<Node>, found: seq<Edge>): (r: Exits)
    requires Closed(universe) && Within(queue, universe)
    reads universe
    ensures processed <= r.processed
    ensures |found| <= |r.found| && r.found[..|found|] == found
    decreases |universe - processed|, |queue|
  {
    if |queue| == 0 then Exits(found, processed)
    else
      var current := queue[|queue| - 1];
      var rest := queue[..|queue| - 1];
      if current in processed then ExitSearch(universe, rest, processed, found)
      else
        var f := ExpandExits(current.successors, 0, processed + {current}, Frontier(rest, found));
        ExpandExitsWithin(universe, current.successors, processed + {current}, Frontier(rest, found));
        ExpandExitsAdds(current.successors, 0, processed + {current}, Frontier(rest, found));
        SmallerRemainder(universe, processed, current);
        ExitSearch(universe, f.queue, processed + {current}, f.found)
  }

  /**
   * `getExitEdges` as written: a node is processed each time it is taken
   * from the work list, even when it was processed before. `None` when
   * `fuel` runs out first.
   */
  function ExitSearchAsWritten(universe: set<Node>, queue: seq<Node>, processed: set<Node>, found: seq<Edge>,
                               fuel: nat): (r: Option<seq<Edge>>)
    requires Closed(universe) && Within(queue, universe)
    reads universe
    ensures r.Some? ==> |found| <= |r.value| && r.value[..|found|] == found
    decreases fuel
  {
    if |queue| == 0 then Some(found)
    else if fuel == 0 then None
    else
      var current := queue[|queue| - 1];
      var rest := queue[..|queue| - 1];
      var f := ExpandExits(current.successors, 0, processed + {current}, Frontier(rest, found));
      ExpandExitsWithin(universe, current.successors, processed + {current}, Frontier(rest, found));
      ExpandExitsAdds(current.successors, 0, processed + {current}, Frontier(rest, found));
      ExitSearchAsWritten(universe, f.queue, processed + {current}, f.found, fuel - 1)
  }

  /**
   * Edges already found are not among the edges still to go through, and
   * those are distinct: then no edge is found twice.
   */
  lemma {:induction false} ExpandExitsDistinct(edges: seq<Edge>, i: nat, processed: set<Node>, f: Frontier)
    requires i <= |edges| && Distinct(edges) && Distinct(f.found)
    requires forall e, j | e in f.found && i <= j < |edges| :: e != edges[j]
    ensures Distinct(ExpandExits(edges, i, processed, f).found)
    decreases |edges| - i
  {
    if i < |edges| {
      var g := ExitStep(edges[i], processed, f);
      if edges[i].to.value == Null {
        assert g.found == f.found + [edges[i]];
        forall k | 0 <= k < |f.found|
          ensures g.found[k] == f.found[k] && f.found[k] != edges[i]
        {
          assert f.found[k] in f.found;
        }
      }
      ExpandExitsDistinct(edges, i + 1, processed, g);
    }
  }

  /**
   * Every processed node has its edges accounted for: those into the exit
   * are found, the targets of the others are processed or waiting.
   */
  ghost predicate Covered(processed: set<Node>, queue: seq<Node>, found: seq<Edge>)
    reads processed
  {
    forall p, k | p in processed && 0 <= k < |p.successors| ::
      (p.successors[k].to.value == Null ==> p.successors[k] in found) &&
      (p.successors[k].to.value != Null ==> p.successors[k].to in processed || p.successors[k].to in queue)
  }

  /** The successors of each node of `nodes` that are not the exit lie in `nodes`. */
  ghost predicate ClosedBeforeExit(nodes: set<Node>)
    reads nodes
  {
    forall p, k | p in nodes && 0 <= k < |p.successors| ::
      p.successors[k].to.value != Null ==> p.successors[k].to in nodes
  }

  /** The search keeps what it was given: processed nodes, found edges, and every node waiting gets processed. */
  lemma {:induction false} ExitSearchKeeps(universe: set<Node>, queue: seq<Node>, processed: set<Node>, found: seq<Edge>)
    requires Closed(universe) && Within(queue, universe)
    ensures var r := ExitSearch(universe, queue, processed, found);
      processed <= r.processed <= processed + universe &&
      |found| <= |r.found| && r.found[..|found|] == found &&
      forall k | 0 <= k < |queue| :: queue[k] in r.processed
    decreases |universe - processed|, |queue|
  {
    if |queue| > 0 {
      var current := queue[|queue| - 1];
      var rest := queue[..|queue| - 1];
      assert forall k | 0 <= k < |rest| :: rest[k] == queue[k];
      if current in processed {
        ExitSearchKeeps(universe, rest, processed, found);
      } else {
        var f := ExpandExits(current.successors, 0, processed + {current}, Frontier(rest, found));
        ExitSearchExpands(universe, queue, processed, found);
        SmallerRemainder(universe, processed, current);
        ExitSearchKeeps(universe, f.queue, processed + {current}, f.found);
      }
    }
  }

  /** Processing a new node: the search goes on from its expanded frontier, which keeps the rest of the queue and the edges found. */
  lemma ExitSearchExpands(universe: set<Node>, queue: seq<Node>, processed: set<Node>, found: seq<Edge>)
    requires Closed(universe) && Within(queue, universe) && |queue| > 0 && queue[|queue| - 1] !in processed
    ensures var current := queue[|queue| - 1];
      var f := ExpandExits(current.successors, 0, processed + {current}, Frontier(queue[..|queue| - 1], found));
      current in universe && Within(f.queue, universe) &&
      ExitSearch(universe, queue, processed, found) == ExitSearch(universe, f.queue, processed + {current}, f.found) &&
      |found| <= |f.found| && f.found[..|found|] == found &&
      forall k | 0 <= k < |queue| - 1 :: queue[k] in f.queue
  {
    var current := queue[|queue| - 1];
    var rest := queue[..|queue| - 1];
    var f := ExpandExits(current.successors, 0, processed + {current}, Frontier(rest, found));
    ExpandExitsWithin(universe, current.successors, processed + {current}, Frontier(rest, found));
    ExpandExitsAdds(current.successors, 0, processed + {current}, Frontier(rest, found));
    forall k | 0 <= k < |rest|
      ensures queue[k] in f.queue
    {
      assert rest[k] == queue[k];
      assert rest[k] in f.queue[|f.queue| - |rest|..];
    }
  }

  /** The search keeps every processed node's edges accounted for, and ends with its work list empty. */
  lemma {:induction false} ExitSearchCovers(universe: set<Node>, queue: seq<Node>, processed: set<Node>, found: seq<Edge>)
    requires Closed(universe) && Within(queue, universe)
    requires Covered(processed, queue, found)
    ensures var r := ExitSearch(universe, queue, processed, found);
      Covered(r.processed, [], r.found)
    decreases |universe - processed|, |queue|
  {
    if |queue| > 0 {
      var current := queue[|queue| - 1];
      var rest := queue[..|queue| - 1];
      assert queue == rest + [current];
      if current in processed {
        ExitSearchCovers(universe, rest, processed, found);
      } else {
        var done := processed + {current};
        var f := ExpandExits(current.successors, 0, done, Frontier(rest, found));
        ExpandExitsWithin(universe, current.successors, done, Frontier(rest, found));
        ExpandExitsAdds(current.successors, 0, done, Frontier(rest, found));
        ExpandExitsCovers(current.successors, 0, done, Frontier(rest, found));
        assert forall x | x in rest :: x in f.queue[|f.queue| - |rest|..];
        assert forall e | e in found :: e in f.found[..|found|];
        SmallerRemainder(universe, processed, current);
        ExitSearchCovers(universe, f.queue, done, f.found);
      }
    }
  }

  /** The search processes only nodes of a set closed before the exit that holds the nodes it starts from. */
  lemma {:induction false} ExitSearchStaysIn(universe: set<Node>, queue: seq<Node>, processed: set<Node>, found: seq<Edge>,
                                             nodes: set<Node>)
    requires Closed(universe) && Within(queue, universe)
    requires ClosedBeforeExit(nodes) && Within(queue, nodes) && processed <= nodes
    ensures ExitSearch(universe, queue, processed, found).processed <= nodes
    decreases |universe - processed|, |queue|
  {
    if |queue| > 0 {
      var current := queue[|queue| - 1];
      var rest := queue[..|queue| - 1];
      assert forall k | 0 <= k < |rest| :: rest[k] == queue[k];
      if current in processed {
        ExitSearchStaysIn(universe, rest, processed, found, nodes);
      } else {
        var done := processed + {current};
        var f := ExpandExits(current.successors, 0, done, Frontier(rest, found));
        ExpandExitsWithin(universe, current.successors, done, Frontier(rest, found));
        ExpandExitsAdds(current.successors, 0, done, Frontier(rest, found));
        forall k | 0 <= k < |f.queue|
          ensures f.queue[k] in nodes
        {
          assert f.queue[k] in f.queue;
        }
        SmallerRemainder(universe, processed, current);
        ExitSearchStaysIn(universe, f.queue, done, f.found, nodes);
      }
    }
  }

  /** Every found edge goes into the exit and leaves a processed node, which keeps it. */
  ghost predicate FoundFrom(processed: set<Node>, found: seq<Edge>)
    reads processed
  {
    forall e | e in found :: e.to.value == Null && e.src in processed && e in e.src.successors
  }

  /** Among well-linked nodes, the search finds only edges into the exit, each once. */
  lemma {:induction false} ExitSearchFindsOnce(universe: set<Node>, queue: seq<Node>, processed: set<Node>, found: seq<Edge>)
    requires Closed(universe) && Within(queue, universe) && WellLinked(universe)
    requires processed <= universe && Distinct(found) && FoundFrom(processed, found)
    ensures var r := ExitSearch(universe, queue, processed, found);
      Distinct(r.found) && FoundFrom(r.processed, r.found)
    decreases |universe - processed|, |queue|
  {
    if |queue| > 0 {
      var current := queue[|queue| - 1];
      var rest := queue[..|queue| - 1];
      assert forall k | 0 <= k < |rest| :: rest[k] == queue[k];
      if current in processed {
        ExitSearchFindsOnce(universe, rest, processed, found);
      } else {
        var done := processed + {current};
        var edges := current.successors;
        var f := ExpandExits(edges, 0, done, Frontier(rest, found));
        ExpandExitsWithin(universe, edges, done, Frontier(rest, found));
        ExpandExitsAdds(edges, 0, done, Frontier(rest, found));
        assert forall e, j | e in found && 0 <= j < |edges| :: e != edges[j] by {
          assert forall j | 0 <= j < |edges| :: edges[j].src == current;
        }
        ExpandExitsDistinct(edges, 0, done, Frontier(rest, found));
        assert edges[0..] == edges;
        SmallerRemainder(universe, processed, current);
        ExitSearchFindsOnce(universe, f.queue, done, f.found);
      }
    }
  }

  /**
   * From `node`, the corrected search processes `node` and every node the
   * edges not into the exit lead to from a processed node, and finds every
   * edge into the exit that leaves a processed node.
   */
  lemma ExitEdgesOfNode(universe: set<Node>, node: Node)
    requires Closed(universe) && node in universe
    ensures var r := ExitSearch(universe, [node], {}, []);
      node in r.processed && r.processed <= universe && ClosedBeforeExit(r.processed) &&
      forall p, k | p in r.processed && 0 <= k < |p.successors| && p.successors[k].to.value == Null ::
        p.successors[k] in r.found
  {
    ExitSearchKeeps(universe, [node], {}, []);
    ExitSearchCovers(universe, [node], {}, []);
  }

  /**
   * The corrected search processes nothing beyond what is reachable: any set
   * holding `node` and closed before the exit holds every processed node.
   */
  lemma ExitEdgesReachOnly(universe: set<Node>, node: Node, nodes: set<Node>)
    requires Closed(universe) && node in universe
    requires ClosedBeforeExit(nodes) && node in nodes
    ensures ExitSearch(universe, [node], {}, []).processed <= nodes
  {
    ExitSearchStaysIn(universe, [node], {}, [], nodes);
  }

  /** Among well-linked nodes, the corrected search finds edges into the exit from processed nodes, each once. */
  lemma ExitEdgesFoundOnce(universe: set<Node>, node: Node)
    requires Closed(universe) && WellLinked(universe) && node in universe
    ensures var r := ExitSearch(universe, [node], {}, []);
      Distinct(r.found) && FoundFrom(r.processed, r.found)
  {
    ExitSearchFindsOnce(universe, [node], {}, []);
  }

  /** The loop of `getExitEdges` over the edges leaving the node just taken. */
  method VisitSuccessors(edges: seq<Edge>, processed: set<Node>, queue: seq<Node>, found: seq<Edge>)
    returns (nextQueue: seq<Node>, nextFound: seq<Edge>)
    ensures Frontier(nextQueue, nextFound) == ExpandExits(edges, 0, processed, Frontier(queue, found))
  {
    nextQueue, nextFound := queue, found;
    for i := 0 to |edges|
      invariant ExpandExits(edges, i, processed, Frontier(nextQueue, nextFound)) ==
        ExpandExits(edges, 0, processed, Frontier(queue, found))
    {
      var successor := edges[i];
      if successor.to.value == Null {
        nextFound := nextFound + [successor];
      } else if successor.to !in processed {
        nextQueue := [successor.to] + nextQueue;
      }
    }
  }

  /**
   * The diamond a -> b, a -> c, b -> d, c -> d, d -> exit, where only the
   * exit wraps the null value.
   */
  ghost predicate Diamond(a: Node, b: Node, c: Node, d: Node, exit: Node)
    reads a, b, c, d, exit
  {
    a.value != Null && b.value != Null && c.value != Null && d.value != Null && exit.value == Null &&
    b != a && c != a && c != b && d != a && d != b && d != c &&
    a.successors == [Edge(a, None, b), Edge(a, None, c)] &&
    b.successors == [Edge(b, None, d)] &&
    c.successors == [Edge(c, None, d)] &&
    d.successors == [Edge(d, None, exit)] &&
    exit.successors == []
  }

  /** The loop over the successors, for each node of the diamond as the search meets it. */
  lemma DiamondExpansions(a: Node, b: Node, c: Node, d: Node, exit: Node)
    requires Diamond(a, b, c, d, exit)
    ensures Closed({a, b, c, d, exit})
    ensures ExpandExits(a.successors, 0, {a}, Frontier([], [])) == Frontier([c, b], [])
    ensures ExpandExits(b.successors, 0, {a, b}, Frontier([c], [])) == Frontier([d, c], [])
    ensures ExpandExits(c.successors, 0, {a, b, c}, Frontier([d], [])) == Frontier([d, d], [])
    ensures ExpandExits(d.successors, 0, {a, b, c, d}, Frontier([d], [])) == Frontier([d], [Edge(d, None, exit)])
    ensures ExpandExits(d.successors, 0, {a, b, c, d}, Frontier([], [Edge(d, None, exit)])) ==
      Frontier([], [Edge(d, None, exit), Edge(d, None, exit)])
  {
    assert ExitStep(Edge(a, None, b), {a}, Frontier([], [])) == Frontier([b], []);
    assert ExitStep(Edge(a, None, c), {a}, Frontier([b], [])) == Frontier([c, b], []);
    assert ExpandExits(a.successors, 1, {a}, Frontier([b], [])) == Frontier([c, b], []);
  }

  /**
   * On the diamond the work list holds d twice before d is processed, so
   * `getExitEdges` as written yields the edge from d into the exit twice.
   */
  lemma DiamondYieldsExitEdgeTwice(a: Node, b: Node, c: Node, d: Node, exit: Node)
    requires Diamond(a, b, c, d, exit)
    ensures Closed({a, b, c, d, exit})
    ensures ExitSearchAsWritten({a, b, c, d, exit}, [a], {}, [], 6) == Some([Edge(d, None, exit), Edge(d, None, exit)])
  {
    var u := {a, b, c, d, exit};
    var dx := Edge(d, None, exit);
    DiamondExpansions(a, b, c, d, exit);
    assert [c, b][..1] == [c] && [d, c][..1] == [d] && [d, d][..1] == [d] && [d][..0] == [];
    assert {} + {a} == {a} && {a} + {b} == {a, b} && {a, b} + {c} == {a, b, c} && {a, b, c} + {d} == {a, b, c, d};
    assert {a, b, c, d} + {d} == {a, b, c, d};
    calc {
      ExitSearchAsWritten(u, [a], {}, [], 6);
      ExitSearchAsWritten(u, [c, b], {a}, [], 5);
      ExitSearchAsWritten(u, [d, c], {a, b}, [], 4);
      ExitSearchAsWritten(u, [d, d], {a, b, c}, [], 3);
      ExitSearchAsWritten(u, [d], {a, b, c, d}, [dx], 2);
      ExitSearchAsWritten(u, [], {a, b, c, d}, [dx, dx], 1);
    }
  }

  /** On the diamond the corrected search skips the second d and yields the edge into the exit once. */
  lemma DiamondCorrectedYieldsExitEdgeOnce(a: Node, b: Node, c: Node, d: Node, exit: Node)
    requires Diamond(a, b, c, d, exit)
    ensures Closed({a, b, c, d, exit})
    ensures ExitSearch({a, b, c, d, exit}, [a], {}, []).found == [Edge(d, None, exit)]
  {
    var u := {a, b, c, d, exit};
    var dx := Edge(d, None, exit);
    DiamondExpansions(a, b, c, d, exit);
    assert [c, b][..1] == [c] && [d, c][..1] == [d] && [d, d][..1] == [d] && [d][..0] == [];
    assert {} + {a} == {a} && {a} + {b} == {a, b} && {a, b} + {c} == {a, b, c} && {a, b, c} + {d} == {a, b, c, d};
    calc {
      ExitSearch(u, [a], {}, []);
      ExitSearch(u, [c, b], {a}, []);
      ExitSearch(u, [d, c], {a, b}, []);
      ExitSearch(u, [d, d], {a, b, c}, []);
      ExitSearch(u, [d], {a, b, c, d}, [dx]);
      ExitSearch(u, [], {a, b, c, d}, [dx]);
    }
  }

  // ----- getNodesToExit -----

  /** What the depth-first walk leaves: the nodes visited so far, and those it yielded, in order. */
  datatype Walk = Walk(visited: set<Node>, nodes: seq<Node>)

  /** Two sequences without repeats and without a shared element concatenate to one without repeats. */
  lemma DistinctConcat<T>(front: seq<T>, back: seq<T>)
    requires Distinct(front) && Distinct(back)
    requires forall x | x in front :: x !in back
    ensures Distinct(front + back)
  {
    forall i, j | 0 <= i < j < |front + back|
      ensures (front + back)[i] != (front + back)[j]
    {
      if i < |front| && |front| <= j {
        assert front[i] in front && back[j - |front|] in back;
      }
    }
  }

  /**
   * `recursiveVisit` of `getNodesToExit`: a node not yet visited is marked,
   * yielded, and followed by the walks from the targets of its edges, in
   * order. The walk yields each node it marks once, starting with `current`,
   * and marks the target of every edge leaving a node it yields.
   */
  function VisitNode(ghost universe: set<Node>, current: Node, visited: set<Node>): (r: Walk)
    requires Closed(universe) && current in universe
    reads universe
    ensures visited <= r.visited && current in r.visited
    ensures Distinct(r.nodes)
    ensures forall n | n in r.nodes :: n !in visited
    ensures forall n | n in r.visited :: n in visited || n in r.nodes
    ensures forall n | n in r.nodes :: n in r.visited
    ensures current !in visited ==> r.nodes != [] && r.nodes[0] == current
    ensures forall n, k | n in r.nodes && 0 <= k < |n.successors| :: n.successors[k].to in r.visited
    decreases |universe - visited|, 0, 0
  {
    if current in visited then Walk(visited, [])
    else
      SmallerRemainder(universe, visited, current);
      var w := VisitEdges(universe, current.successors, 0, visited + {current});
      Walk(w.visited, [current] + w.nodes)
  }

  /** The loop of `recursiveVisit` over the edges, from the one at `i` on. */
  function VisitEdges(ghost universe: set<Node>, edges: seq<Edge>, i: nat, visited: set<Node>): (r: Walk)
    requires Closed(universe) && i <= |edges|
    requires forall k | 0 <= k < |edges| :: edges[k].to in universe
    reads universe
    ensures visited <= r.visited
    ensures Distinct(r.nodes)
    ensures forall n | n in r.nodes :: n !in visited
    ensures forall n | n in r.visited :: n in visited || n in r.nodes
    ensures forall n | n in r.nodes :: n in r.visited
    ensures forall k | i <= k < |edges| :: edges[k].to in r.visited
    ensures forall n, k | n in r.nodes && 0 <= k < |n.successors| :: n.successors[k].to in r.visited
    decreases |universe - visited|, 1, |edges| - i
  {
    if i == |edges| then Walk(visited, [])
    else
      var first := VisitNode(universe, edges[i].to, visited);
      RemainderShrinks(universe, visited, first.visited);
      var rest := VisitEdges(universe, edges, i + 1, first.visited);
      DistinctConcat(first.nodes, rest.nodes);
      Walk(rest.visited, first.nodes + rest.nodes)
  }

  /** The targets of the edges leaving each node of `nodes` lie in `nodes`. */
  ghost predicate ClosedUnderEdges(nodes: set<Node>)
    reads nodes
  {
    forall p, k | p in nodes && 0 <= k < |p.successors| :: p.successors[k].to in nodes
  }

  /** The walk from `current` marks only nodes of any set closed under edges that holds `current`. */
  lemma {:induction false} VisitNodeStaysIn(universe: set<Node>, current: Node, visited: set<Node>, nodes: set<Node>)
    requires Closed(universe) && current in universe
    requires ClosedUnderEdges(nodes) && current in nodes
    ensures VisitNode(universe, current, visited).visited <= visited + nodes
    decreases |universe - visited|, 0, 0
  {
    if current !in visited {
      SmallerRemainder(universe, visited, current);
      VisitEdgesStaysIn(universe, current.successors, 0, visited + {current}, nodes);
    }
  }

  /** The walks from the targets of edges into `nodes` mark only nodes of `nodes`. */
  lemma {:induction false} VisitEdgesStaysIn(universe: set<Node>, edges: seq<Edge>, i: nat, visited: set<Node>,
                                             nodes: set<Node>)
    requires Closed(universe) && i <= |edges|
    requires forall k | 0 <= k < |edges| :: edges[k].to in universe
    requires ClosedUnderEdges(nodes) && forall k | 0 <= k < |edges| :: edges[k].to in nodes
    ensures VisitEdges(universe, edges, i, visited).visited <= visited + nodes
    decreases |universe - visited|, 1, |edges| - i
  {
    if i < |edges| {
      var first := VisitNode(universe, edges[i].to, visited);
      VisitNodeStaysIn(universe, edges[i].to, visited, nodes);
      RemainderShrinks(universe, visited, first.visited);
      VisitEdgesStaysIn(universe, edges, i + 1, first.visited, nodes);
    }
  }

  /**
   * `getNodesToExit` yields the start node first and no node twice, every
   * target of an edge leaving a yielded node is yielded, and every yielded
   * node lies in any set closed under edges that holds the start node: the
   * nodes yielded are exactly those reachable from the start.
   */
  lemma NodesToExitAreReachable(graph: ControlFlowGraph, from: Endpoint, universe: set<Node>, nodes: set<Node>)
    requires Closed(universe)
    requires from.OfNode? ==> from.node in universe
    requires forall v | v in graph.nodes :: graph.nodes[v] in universe
    requires graph.StartOf(from).Some? ==> graph.StartOf(from).value in nodes && ClosedUnderEdges(nodes)
    ensures var r := graph.NodesToExit(from, universe);
      (graph.StartOf(from).None? <==> r == []) &&
      (graph.StartOf(from).Some? ==> r[0] == graph.StartOf(from).value) &&
      Distinct(r) &&
      (forall n, k | n in r && 0 <= k < |n.successors| :: n.successors[k].to in r) &&
      (forall n | n in r :: n in nodes)
  {
    if graph.StartOf(from).Some? {
      var start := graph.StartOf(from).value;
      VisitNodeStaysIn(universe, start, {}, nodes);
    }
  }
}
