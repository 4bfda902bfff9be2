/**
 Construction of the account-interaction graph: one node per distinct
 account name, allocated the first time the name is seen (sender before
 receiver within a transaction), and one directed edge per transaction,
 from the sender's node to the receiver's node. Parallel edges are kept.
 */
module TransactionGraph {
  import opened Transactions
  import opened FirstSeen

  /** A directed edge between node indices, carrying its weight. */
  datatype Edge = Edge(source: nat, target: nat, weight: real)

  /**
   A directed multigraph: node `i` carries the account name `nodes[i]`;
   adding a node appends it and returns its index, adding an edge appends it.
   */
  datatype Graph = Graph(nodes: seq<string>, edges: seq<Edge>)

  /** The construction state: the graph and the name-to-node lookup table. */
  datatype Builder = Builder(graph: Graph, nodeIndices: map<string, nat>)

  /** The graph's node list together with the lookup table, seen as one interning table. */
  function NodeTable(b: Builder): Interner<string>
  {
    Interner(b.graph.nodes, b.nodeIndices)
  }

  function EmptyBuilder(): (b: Builder)
    ensures NodeTable(b).Valid() && b.graph.nodes == [] && b.graph.edges == []
  {
    Builder(Graph([], []), map[])
  }

  /** The weight of a transaction's edge: the amount, doubled for a fraudulent one. */
  function EdgeWeight(t: Transaction): (w: real)
    // the weight differs from the amount only for a fraudulent, non-zero amount
    ensures w == t.amount <==> t.isFraud != 1 || t.amount == 0.0
    // a non-negative amount is at most doubled
    ensures t.amount >= 0.0 ==> t.amount <= w <= 2.0 * t.amount
  {
    if t.isFraud == 1 then t.amount * 2.0 else t.amount
  }

  /**
   The node of account `name`: the one recorded in the lookup table, or else
   a newly added node that is then recorded. Adding a node appends it to the
   node list and returns the previous node count.
   */
  function NodeFor(b: Builder, name: string): (r: (Builder, nat))
    ensures r.0.graph.edges == b.graph.edges
    ensures name in r.0.nodeIndices && r.0.nodeIndices[name] == r.1
    // a known name reuses its node and changes nothing
    ensures name in b.nodeIndices ==> r.0 == b
    // an unknown name allocates exactly one node, after the existing ones
    ensures name !in b.nodeIndices ==> r.0.graph.nodes == b.graph.nodes + [name] && r.1 == |b.graph.nodes|
    // names already recorded keep their nodes
    ensures forall y | y in b.nodeIndices :: y in r.0.nodeIndices && r.0.nodeIndices[y] == b.nodeIndices[y]
  {
    var (t, i) := Intern(NodeTable(b), name);
    (Builder(Graph(t.order, b.graph.edges), t.index), i)
  }

  /** One loop iteration: resolve the sender, then the receiver, then add the edge. */
  function AddTransaction(b: Builder, t: Transaction): (r: Builder)
    ensures b.graph.nodes <= r.graph.nodes
    ensures t.nameOrig in r.nodeIndices && t.nameDest in r.nodeIndices
    // exactly one edge is added, whether or not one already joins the pair
    ensures r.graph.edges == b.graph.edges
      + [Edge(r.nodeIndices[t.nameOrig], r.nodeIndices[t.nameDest], EdgeWeight(t))]
    // names already recorded keep their nodes
    ensures forall y | y in b.nodeIndices :: y in r.nodeIndices && r.nodeIndices[y] == b.nodeIndices[y]
    // one new node per name not yet seen; a self-transfer adds at most one node and a self-loop
    ensures |r.graph.nodes| == |b.graph.nodes|
      + (if t.nameOrig in b.nodeIndices then 0 else 1)
      + (if t.nameDest in b.nodeIndices || t.nameDest == t.nameOrig then 0 else 1)
    ensures t.nameOrig == t.nameDest ==> r.graph.edges[|b.graph.edges|].source == r.graph.edges[|b.graph.edges|].target
  {
    var (b1, s) := NodeFor(b, t.nameOrig);
    var (b2, d) := NodeFor(b1, t.nameDest);
    Builder(Graph(b2.graph.nodes, b2.graph.edges + [Edge(s, d, EdgeWeight(t))]), b2.nodeIndices)
  }

  /** The state after the construction loop has consumed `rs`. */
  function BuildState(rs: seq<Transaction>): (b: Builder)
    // one edge per transaction, and at most two new nodes per transaction
    ensures |b.graph.edges| == |rs|
    ensures |b.graph.nodes| <= 2 * |rs|
    decreases |rs|
  {
    if |rs| == 0 then EmptyBuilder() else AddTransaction(BuildState(rs[..|rs| - 1]), rs[|rs| - 1])
  }

  /** The account names in the order the loop looks them up: sender, receiver, sender, ... */
  function Names(rs: seq<Transaction>): (ns: seq<string>)
    ensures |ns| == 2 * |rs|
    ensures forall i | 0 <= i < |rs| :: ns[2 * i] == rs[i].nameOrig && ns[2 * i + 1] == rs[i].nameDest
    decreases |rs|
  {
    if |rs| == 0 then [] else
      var p := Names(rs[..|rs| - 1]);
      assert forall i | 0 <= i < |rs| - 1 :: rs[..|rs| - 1][i] == rs[i];
      p + [rs[|rs| - 1].nameOrig, rs[|rs| - 1].nameDest]
  }

  lemma NamesSnoc(rs: seq<Transaction>)
    requires |rs| > 0
    ensures Names(rs) == (Names(rs[..|rs| - 1]) + [rs[|rs| - 1].nameOrig]) + [rs[|rs| - 1].nameDest]
  {
    var o, d := rs[|rs| - 1].nameOrig, rs[|rs| - 1].nameDest;
    var ns := Names(rs[..|rs| - 1]);
    assert Names(rs) == ns + [o, d];
    assert ns + [o, d] == (ns + [o]) + [d];
  }

  /** Every name that occurs as a sender or a receiver. */
  function AccountNames(rs: seq<Transaction>): set<string>
  {
    (set i | 0 <= i < |rs| :: rs[i].nameOrig) + (set i | 0 <= i < |rs| :: rs[i].nameDest)
  }

  lemma NamesElements(rs: seq<Transaction>)
    ensures Elements(Names(rs)) == AccountNames(rs)
  {
    var ns := Names(rs);
    forall x | x in Elements(ns) ensures x in AccountNames(rs) {
      var k :| 0 <= k < |ns| && ns[k] == x;
      var i := k / 2;
      if k % 2 == 0 {
        assert ns[2 * i] == rs[i].nameOrig;
      } else {
        assert ns[2 * i + 1] == rs[i].nameDest;
      }
    }
    forall x | x in AccountNames(rs) ensures x in Elements(ns) {
      if x in (set i | 0 <= i < |rs| :: rs[i].nameOrig) {
        var i :| 0 <= i < |rs| && rs[i].nameOrig == x;
        assert ns[2 * i] == x;
      } else {
        var i :| 0 <= i < |rs| && rs[i].nameDest == x;
        assert ns[2 * i + 1] == x;
      }
    }
  }

  /** The node list and lookup table after the loop are the interning table of the name stream. */
  lemma {:induction false} BuildStateTable(rs: seq<Transaction>)
    ensures NodeTable(BuildState(rs)) == InternAll(Names(rs))
    decreases |rs|
  {
    if |rs| > 0 {
      var p := rs[..|rs| - 1];
      var t := rs[|rs| - 1];
      BuildStateTable(p);
      var ns := Names(p);
      NamesSnoc(rs);
      InternAllSnoc(ns, t.nameOrig);
      InternAllSnoc(ns + [t.nameOrig], t.nameDest);
    }
  }

  /** Transaction `i`'s edge in `b` joins the nodes `b` records for its sender and receiver. */
  predicate EdgeRecorded(b: Builder, t: Transaction, i: nat)
  {
    && i < |b.graph.edges|
    && t.nameOrig in b.nodeIndices && t.nameDest in b.nodeIndices
    && b.graph.edges[i] == Edge(b.nodeIndices[t.nameOrig], b.nodeIndices[t.nameDest], EdgeWeight(t))
  }

  /** The last transaction's edge is recorded by the step that consumes it. */
  lemma BuildStateEdgeLast(rs: seq<Transaction>)
    requires |rs| > 0
    ensures EdgeRecorded(BuildState(rs), rs[|rs| - 1], |rs| - 1)
  {
    assert BuildState(rs) == AddTransaction(BuildState(rs[..|rs| - 1]), rs[|rs| - 1]);
  }

  /** A later step keeps an earlier edge and the nodes it joins. */
  lemma AddTransactionKeepsEdge(b: Builder, next: Transaction, t: Transaction, i: nat)
    requires EdgeRecorded(b, t, i)
    ensures EdgeRecorded(AddTransaction(b, next), t, i)
  {
    var r := AddTransaction(b, next);
    assert r.graph.edges[i] == b.graph.edges[i];
  }

  /** Edge `i` joins the nodes finally recorded for transaction `i`'s sender and receiver. */
  lemma {:induction false} BuildStateEdge(rs: seq<Transaction>, i: nat)
    requires i < |rs|
    ensures EdgeRecorded(BuildState(rs), rs[i], i)
    decreases |rs|
  {
    if i == |rs| - 1 {
      BuildStateEdgeLast(rs);
    } else {
      var p := rs[..|rs| - 1];
      var t := rs[i];
      assert p[i] == t;
      BuildStateEdge(p, i);
      AddTransactionKeepsEdge(BuildState(p), rs[|rs| - 1], t, i);
    }
  }

  /**
   Edge `e` is the edge of transaction `t` in a graph with node list `nodes`:
   it leaves the sender's node, enters the receiver's node, and weighs the
   amount, doubled exactly when `isFraud` is 1.
   */
  predicate IsEdgeOf(nodes: seq<string>, e: Edge, t: Transaction)
  {
    && e.source < |nodes| && nodes[e.source] == t.nameOrig
    && e.target < |nodes| && nodes[e.target] == t.nameDest
    && e.weight == (if t.isFraud == 1 then 2.0 * t.amount else t.amount)
  }

  lemma BuildStateIsEdgeOf(rs: seq<Transaction>, i: nat)
    requires i < |rs|
    ensures i < |BuildState(rs).graph.edges|
    ensures IsEdgeOf(BuildState(rs).graph.nodes, BuildState(rs).graph.edges[i], rs[i])
  {
    BuildStateEdge(rs, i);
    BuildStateTable(rs);
    var b := BuildState(rs);
    assert NodeTable(b).Valid();
  }

  lemma BuildStateNodes(rs: seq<Transaction>)
    ensures Distinct(BuildState(rs).graph.nodes)
    ensures Elements(BuildState(rs).graph.nodes) == AccountNames(rs)
    ensures |BuildState(rs).graph.nodes| == |AccountNames(rs)|
    ensures FirstSeenOrder(Names(rs), BuildState(rs).graph.nodes)
  {
    BuildStateTable(rs);
    InternAllCount(Names(rs));
    InternAllOrder(Names(rs));
    NamesElements(rs);
  }

  /**
   The graph built from a sequence of transactions. Its nodes are the
   distinct account names, without repetition, in first-seen order over the
   sender-then-receiver name stream; it has one edge per transaction, in
   order, each the edge of its transaction.
   */
  function BuildGraph(rs: seq<Transaction>): (g: Graph)
    ensures Distinct(g.nodes)
    ensures Elements(g.nodes) == AccountNames(rs)
    ensures |g.nodes| == |AccountNames(rs)|
    ensures FirstSeenOrder(Names(rs), g.nodes)
    ensures |g.edges| == |rs|
    ensures forall i | 0 <= i < |rs| :: IsEdgeOf(g.nodes, g.edges[i], rs[i])
  {
    BuildStateNodes(rs);
    forall i | 0 <= i < |rs|
      ensures IsEdgeOf(BuildState(rs).graph.nodes, BuildState(rs).graph.edges[i], rs[i])
    {
      BuildStateIsEdgeOf(rs, i);
    }
    BuildState(rs).graph
  }

  /** A transaction from an account to itself gives a self-loop on one node. */
  lemma SelfTransferIsSelfLoop(rs: seq<Transaction>, i: nat)
    requires i < |rs| && rs[i].nameOrig == rs[i].nameDest
    ensures BuildGraph(rs).edges[i].source == BuildGraph(rs).edges[i].target
  {
    var g := BuildGraph(rs);
    assert g.nodes[g.edges[i].source] == g.nodes[g.edges[i].target];
  }

  /** The same account always resolves to the same node, whichever transaction mentions it. */
  lemma SameNameSameNode(rs: seq<Transaction>, i: nat, j: nat)
    requires i < |rs| && j < |rs|
    ensures rs[i].nameOrig == rs[j].nameOrig ==> BuildGraph(rs).edges[i].source == BuildGraph(rs).edges[j].source
    ensures rs[i].nameDest == rs[j].nameOrig ==> BuildGraph(rs).edges[i].target == BuildGraph(rs).edges[j].source
    ensures rs[i].nameDest == rs[j].nameDest ==> BuildGraph(rs).edges[i].target == BuildGraph(rs).edges[j].target
  {
    var g := BuildGraph(rs);
    assert g.nodes[g.edges[i].source] == rs[i].nameOrig && g.nodes[g.edges[j].source] == rs[j].nameOrig;
    assert g.nodes[g.edges[i].target] == rs[i].nameDest && g.nodes[g.edges[j].target] == rs[j].nameDest;
  }
}
