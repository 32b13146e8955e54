/**
 * The lineage checks of an analysis trace (packages/contracts/src/workflows.ts):
 * local checks on each node and each call, and the tree they amount to.
 */
module Trace {
  import opened Wrappers

  datatype Node = Node(id: string, parentId: Option<string>, depth: nat)

  datatype Call = Call(id: string, nodeId: string, parentCallId: Option<string>)

  datatype Operation = Operation(id: string, nodeId: string)

  datatype AnalysisTrace = AnalysisTrace(
    complete: bool, contextHash: Option<string>, nodes: seq<Node>, calls: seq<Call>, operations: seq<Operation>)

  datatype Issue = NoContext | DuplicateNode | NotOneRoot | BadNodeLineage | BadCallLineage | BadOperation

  // ---------------------------------------------------------------------
  // The checks
  // ---------------------------------------------------------------------

  /** `new Map(nodes.map((node) => [node.id, node]))`: the last of equal ids is kept. */
  function NodeMap(nodes: seq<Node>): map<string, Node> {
    if nodes == [] then map[] else NodeMap(nodes[..|nodes| - 1])[nodes[|nodes| - 1].id := nodes[|nodes| - 1]]
  }

  function RootCount(nodes: seq<Node>): nat {
    if nodes == [] then 0
    else RootCount(nodes[..|nodes| - 1]) + if nodes[|nodes| - 1].parentId.None? then 1 else 0
  }

  predicate LineageOk(byId: map<string, Node>, n: Node) {
    match n.parentId
    case None => n.depth == 0
    case Some(p) => p in byId && byId[p].depth == n.depth - 1
  }

  predicate CallOk(byId: map<string, Node>, seen: set<string>, c: Call) {
    c.nodeId in byId && c.id !in seen && (c.parentCallId.Some? ==> c.parentCallId.value in seen)
  }

  predicate OperationOk(byId: map<string, Node>, seen: set<string>, op: Operation) {
    op.nodeId in byId && op.id !in seen
  }

  function CallIds(calls: seq<Call>): set<string> { set c | c in calls :: c.id }

  function OperationIds(operations: seq<Operation>): set<string> { set op | op in operations :: op.id }

  /** Every check of the refinement passes. */
  predicate Accepted(t: AnalysisTrace) {
    var byId := NodeMap(t.nodes);
    && !(t.complete && (t.contextHash.None? || t.nodes == []))
    && |byId| == |t.nodes|
    && (t.nodes != [] ==> RootCount(t.nodes) == 1)
    && (forall i :: 0 <= i < |t.nodes| ==> LineageOk(byId, t.nodes[i]))
    && (forall i :: 0 <= i < |t.calls| ==> CallOk(byId, CallIds(t.calls[..i]), t.calls[i]))
    && (forall i :: 0 <= i < |t.operations| ==> OperationOk(byId, OperationIds(t.operations[..i]), t.operations[i]))
  }

  lemma CallIdsSnoc(calls: seq<Call>, i: nat)
    requires i < |calls|
    ensures CallIds(calls[..i + 1]) == CallIds(calls[..i]) + {calls[i].id}
  {
    assert calls[..i + 1] == calls[..i] + [calls[i]];
  }

  lemma OperationIdsSnoc(operations: seq<Operation>, i: nat)
    requires i < |operations|
    ensures OperationIds(operations[..i + 1]) == OperationIds(operations[..i]) + {operations[i].id}
  {
    assert operations[..i + 1] == operations[..i] + [operations[i]];
  }

  /** The loop over the calls. */
  method CheckCalls(byId: map<string, Node>, calls: seq<Call>) returns (issues: seq<Issue>)
    ensures issues == [] <==> forall i :: 0 <= i < |calls| ==> CallOk(byId, CallIds(calls[..i]), calls[i])
  {
    issues := [];
    var seenCalls: set<string> := {};
    for k := 0 to |calls|
      invariant seenCalls == CallIds(calls[..k])
      invariant issues == [] <==> forall i :: 0 <= i < k ==> CallOk(byId, CallIds(calls[..i]), calls[i])
    {
      var call := calls[k];
      CallIdsSnoc(calls, k);
      if call.nodeId !in byId || call.id in seenCalls || (call.parentCallId.Some? && call.parentCallId.value !in seenCalls) {
        issues := issues + [BadCallLineage];
      }
      seenCalls := seenCalls + {call.id};
    }
  }

  /** The loop over the operations. */
  method CheckOperations(byId: map<string, Node>, operations: seq<Operation>) returns (issues: seq<Issue>)
    ensures issues == [] <==> forall i :: 0 <= i < |operations| ==> OperationOk(byId, OperationIds(operations[..i]), operations[i])
  {
    issues := [];
    var seenOperations: set<string> := {};
    for k := 0 to |operations|
      invariant seenOperations == OperationIds(operations[..k])
      invariant issues == [] <==> forall i :: 0 <= i < k ==> OperationOk(byId, OperationIds(operations[..i]), operations[i])
    {
      var operation := operations[k];
      OperationIdsSnoc(operations, k);
      if operation.nodeId !in byId || operation.id in seenOperations {
        issues := issues + [BadOperation];
      }
      seenOperations := seenOperations + {operation.id};
    }
  }

  /** The loop over the nodes, with the map and the root count it follows. */
  method CheckNodes(nodes: seq<Node>) returns (byId: map<string, Node>, issues: seq<Issue>)
    ensures byId == NodeMap(nodes)
    ensures issues == [] <==>
      && |byId| == |nodes| && (nodes != [] ==> RootCount(nodes) == 1)
      && forall i :: 0 <= i < |nodes| ==> LineageOk(byId, nodes[i])
  {
    byId, issues := map[], [];
    var roots := 0;
    for k := 0 to |nodes|
      invariant byId == NodeMap(nodes[..k]) && roots == RootCount(nodes[..k])
    {
      assert nodes[..k + 1][..k] == nodes[..k];
      byId := byId[nodes[k].id := nodes[k]];
      roots := roots + if nodes[k].parentId.None? then 1 else 0;
    }
    assert nodes[..|nodes|] == nodes;
    if |byId| != |nodes| {
      issues := issues + [DuplicateNode];
    }
    if |nodes| > 0 && roots != 1 {
      issues := issues + [NotOneRoot];
    }
    ghost var before := issues;
    for k := 0 to |nodes|
      invariant issues == [] <==> before == [] && forall i :: 0 <= i < k ==> LineageOk(byId, nodes[i])
    {
      var node := nodes[k];
      var bad := if node.parentId.None? then node.depth != 0
        else node.parentId.value !in byId || byId[node.parentId.value].depth != node.depth - 1;
      if bad {
        issues := issues + [BadNodeLineage];
      }
    }
  }

  /** The whole refinement: accepted exactly when it raises no issue. */
  method CheckTrace(t: AnalysisTrace) returns (issues: seq<Issue>)
    ensures issues == [] <==> Accepted(t)
  {
    issues := [];
    if t.complete && (t.contextHash.None? || |t.nodes| == 0) {
      issues := issues + [NoContext];
    }
    var byId, ofNodes := CheckNodes(t.nodes);
    var ofCalls := CheckCalls(byId, t.calls);
    var ofOperations := CheckOperations(byId, t.operations);
    issues := issues + ofNodes + ofCalls + ofOperations;
  }

  // ---------------------------------------------------------------------
  // The tree
  // ---------------------------------------------------------------------

  predicate DistinctIds(nodes: seq<Node>) {
    forall i, j :: 0 <= i < j < |nodes| ==> nodes[i].id != nodes[j].id
  }

  lemma {:induction false} NodeMapHolds(nodes: seq<Node>)
    ensures forall id :: id in NodeMap(nodes) <==> HasId(nodes, id)
    ensures forall id :: id in NodeMap(nodes) ==> NodeMap(nodes)[id] in nodes && NodeMap(nodes)[id].id == id
    ensures |NodeMap(nodes)| <= |nodes|
  {
    if nodes != [] {
      var init, last := nodes[..|nodes| - 1], nodes[|nodes| - 1];
      NodeMapHolds(init);
      MapGrowsByOne(NodeMap(init), last.id, last);
      forall id ensures id in NodeMap(nodes) <==> HasId(nodes, id) {
        if i :| 0 <= i < |init| && init[i].id == id {
          assert nodes[i].id == id;
        }
        if i :| 0 <= i < |nodes| && nodes[i].id == id {
          assert i < |init| ==> init[i].id == id;
        }
        assert nodes[|nodes| - 1].id == last.id;
      }
      assert forall n :: n in init ==> n in nodes;
      assert last in nodes;
    }
  }

  lemma MapGrowsByOne(m: map<string, Node>, key: string, n: Node)
    ensures |m[key := n]| == |m| + if key in m then 0 else 1
  {
    var m2 := m[key := n];
    assert m2.Keys == m.Keys + {key};
    assert |m2| == |m2.Keys| && |m| == |m.Keys|;
  }

  predicate HasId(nodes: seq<Node>, id: string) { exists i :: 0 <= i < |nodes| && nodes[i].id == id }

  lemma DistinctSnoc(nodes: seq<Node>)
    requires nodes != []
    ensures DistinctIds(nodes) <==> DistinctIds(nodes[..|nodes| - 1]) && !HasId(nodes[..|nodes| - 1], nodes[|nodes| - 1].id)
  {
    var init, last := nodes[..|nodes| - 1], nodes[|nodes| - 1];
    assert forall i :: 0 <= i < |init| ==> init[i] == nodes[i];
    if DistinctIds(init) && !HasId(init, last.id) {
      forall i, j | 0 <= i < j < |nodes| ensures nodes[i].id != nodes[j].id {
        assert init[i].id == nodes[i].id;
      }
    }
  }

  /** Counting the map against the list detects every repeated id. */
  lemma {:induction false} CountDetectsRepeats(nodes: seq<Node>)
    ensures |NodeMap(nodes)| == |nodes| <==> DistinctIds(nodes)
  {
    if nodes != [] {
      var init, last := nodes[..|nodes| - 1], nodes[|nodes| - 1];
      CountDetectsRepeats(init);
      NodeMapHolds(init);
      MapGrowsByOne(NodeMap(init), last.id, last);
      DistinctSnoc(nodes);
    }
  }

  lemma IndexOfId(nodes: seq<Node>, id: string) returns (k: nat)
    requires id in NodeMap(nodes)
    ensures k < |nodes| && nodes[k] == NodeMap(nodes)[id] && nodes[k].id == id
  {
    NodeMapHolds(nodes);
    k :| k < |nodes| && nodes[k] == NodeMap(nodes)[id];
  }

  lemma MapOfDistinct(nodes: seq<Node>, i: nat)
    requires DistinctIds(nodes) && i < |nodes|
    ensures nodes[i].id in NodeMap(nodes) && NodeMap(nodes)[nodes[i].id] == nodes[i]
  {
    NodeMapHolds(nodes);
    var n := NodeMap(nodes)[nodes[i].id];
    var j :| 0 <= j < |nodes| && nodes[j] == n;
    assert i < j || j < i || i == j;
  }

  /** The node `steps` parents up, if there is one. */
  function Climb(byId: map<string, Node>, id: string, steps: nat): Option<string>
    decreases steps
  {
    if id !in byId then None
    else if steps == 0 then Some(id)
    else if byId[id].parentId.None? then None
    else Climb(byId, byId[id].parentId.value, steps - 1)
  }

  lemma {:induction false} ClimbOn(byId: map<string, Node>, id: string, i: nat, j: nat)
    requires Climb(byId, id, i).Some?
    ensures Climb(byId, id, i + j) == Climb(byId, Climb(byId, id, i).value, j)
    decreases i
  {
    if i > 0 {
      ClimbOn(byId, byId[id].parentId.value, i - 1, j);
    }
  }

  predicate IsRoot(byId: map<string, Node>, id: string) { id in byId && byId[id].parentId.None? }

  lemma NothingAboveRoot(byId: map<string, Node>, id: string, i: nat, more: nat, root: string)
    requires IsRoot(byId, root) && Climb(byId, id, i) == Some(root)
    ensures Climb(byId, id, i + (more + 1)) == None
  {
    ClimbOn(byId, id, i, more + 1);
  }

  /** A root is reached in one number of steps only. */
  lemma ClimbOnce(byId: map<string, Node>, id: string, i: nat, j: nat, root: string)
    requires IsRoot(byId, root) && Climb(byId, id, i) == Some(root) && Climb(byId, id, j) == Some(root)
    ensures i == j
  {
    var more := if i < j then j - i - 1 else if j < i then i - j - 1 else 0;
    NothingAboveRoot(byId, id, if i < j then i else j, more, root);
  }

  /** One tree: a single root, which every node reaches in exactly its depth many parent steps. */
  predicate IsTree(nodes: seq<Node>, root: string) {
    && DistinctIds(nodes)
    && IsRoot(NodeMap(nodes), root)
    && forall i :: 0 <= i < |nodes| ==> Climb(NodeMap(nodes), nodes[i].id, nodes[i].depth) == Some(root)
  }

  lemma {:induction false} OneRootCounted(nodes: seq<Node>)
    ensures RootCount(nodes) >= 1 <==> exists i :: 0 <= i < |nodes| && nodes[i].parentId.None?
    ensures RootCount(nodes) >= 2 <==> exists i, j :: 0 <= i < j < |nodes| && nodes[i].parentId.None? && nodes[j].parentId.None?
  {
    if nodes != [] {
      var init, last := nodes[..|nodes| - 1], nodes[|nodes| - 1];
      OneRootCounted(init);
      assert forall i :: 0 <= i < |init| ==> init[i] == nodes[i];
      if RootCount(init) >= 1 {
        var i :| 0 <= i < |init| && init[i].parentId.None?;
        assert nodes[i].parentId.None?;
        assert last.parentId.None? ==> nodes[|init|].parentId.None? && i < |init|;
      }
      if RootCount(init) >= 2 {
        var i, j :| 0 <= i < j < |init| && init[i].parentId.None? && init[j].parentId.None?;
        assert nodes[i].parentId.None? && nodes[j].parentId.None?;
      }
      if i, j :| 0 <= i < j < |nodes| && nodes[i].parentId.None? && nodes[j].parentId.None? {
        assert init[i].parentId.None?;
        assert j < |init| ==> init[j].parentId.None?;
      }
      if i :| 0 <= i < |nodes| && nodes[i].parentId.None? {
        assert i < |init| ==> init[i].parentId.None?;
      }
    }
  }

  /** With good lineage everywhere, each node climbs its depth to a parentless node. */
  lemma {:induction false} LineageClimbs(nodes: seq<Node>, i: nat)
    requires DistinctIds(nodes) && i < |nodes|
    requires forall k :: 0 <= k < |nodes| ==> LineageOk(NodeMap(nodes), nodes[k])
    ensures var top := Climb(NodeMap(nodes), nodes[i].id, nodes[i].depth); top.Some? && IsRoot(NodeMap(nodes), top.value)
    decreases nodes[i].depth
  {
    MapOfDistinct(nodes, i);
    if nodes[i].parentId.Some? {
      assert LineageOk(NodeMap(nodes), nodes[i]);
      var k := IndexOfId(nodes, nodes[i].parentId.value);
      LineageClimbs(nodes, k);
    }
  }

  lemma RootIsUnique(nodes: seq<Node>, a: string, b: string)
    requires DistinctIds(nodes) && RootCount(nodes) == 1 && IsRoot(NodeMap(nodes), a) && IsRoot(NodeMap(nodes), b)
    ensures a == b
  {
    OneRootCounted(nodes);
    var i := IndexOfId(nodes, a);
    var j := IndexOfId(nodes, b);
    assert i < j || j < i || i == j;
  }

  /** The three node checks. */
  predicate NodesAccepted(nodes: seq<Node>) {
    && |NodeMap(nodes)| == |nodes|
    && RootCount(nodes) == 1
    && forall i :: 0 <= i < |nodes| ==> LineageOk(NodeMap(nodes), nodes[i])
  }

  lemma AcceptedNodesAreTree(nodes: seq<Node>)
    requires NodesAccepted(nodes)
    ensures exists root :: IsTree(nodes, root)
  {
    CountDetectsRepeats(nodes);
    OneRootCounted(nodes);
    var r :| 0 <= r < |nodes| && nodes[r].parentId.None?;
    MapOfDistinct(nodes, r);
    forall i | 0 <= i < |nodes| ensures Climb(NodeMap(nodes), nodes[i].id, nodes[i].depth) == Some(nodes[r].id) {
      LineageClimbs(nodes, i);
      RootIsUnique(nodes, Climb(NodeMap(nodes), nodes[i].id, nodes[i].depth).value, nodes[r].id);
    }
    assert IsTree(nodes, nodes[r].id);
  }

  lemma TreeLineage(nodes: seq<Node>, root: string, i: nat)
    requires IsTree(nodes, root) && i < |nodes|
    ensures LineageOk(NodeMap(nodes), nodes[i])
    ensures nodes[i].parentId.None? ==> nodes[i].id == root
  {
    var byId := NodeMap(nodes);
    MapOfDistinct(nodes, i);
    if nodes[i].parentId.Some? {
      var p := nodes[i].parentId.value;
      assert nodes[i].depth > 0;
      assert Climb(byId, p, nodes[i].depth - 1) == Some(root);
      var k := IndexOfId(nodes, p);
      ClimbOnce(byId, p, nodes[i].depth - 1, nodes[k].depth, root);
    }
  }

  lemma TreeIsAccepted(nodes: seq<Node>, root: string)
    requires IsTree(nodes, root)
    ensures NodesAccepted(nodes)
  {
    CountDetectsRepeats(nodes);
    OneRootCounted(nodes);
    forall i | 0 <= i < |nodes| ensures LineageOk(NodeMap(nodes), nodes[i]) && (nodes[i].parentId.None? ==> nodes[i].id == root) {
      TreeLineage(nodes, root, i);
    }
    var r := IndexOfId(nodes, root);
    assert nodes[r].parentId.None?;
  }

  /** The local node checks hold exactly when the nodes form one tree with the stated depths. */
  lemma NodesAcceptedIffTree(nodes: seq<Node>)
    ensures NodesAccepted(nodes) <==> exists root :: IsTree(nodes, root)
  {
    if NodesAccepted(nodes) {
      AcceptedNodesAreTree(nodes);
    }
    if root :| IsTree(nodes, root) {
      TreeIsAccepted(nodes, root);
    }
  }

  // ---------------------------------------------------------------------
  // Calls
  // ---------------------------------------------------------------------

  /** Call j is the parent of call i. */
  predicate ParentOf(calls: seq<Call>, i: nat, j: nat) {
    i < |calls| && j < |calls| && calls[i].parentCallId == Some(calls[j].id)
  }

  /** Distinct ids, each parent named, and each parent earlier in the list. */
  predicate CallsOrdered(calls: seq<Call>) {
    && (forall i, j :: 0 <= i < j < |calls| ==> calls[i].id != calls[j].id)
    && (forall i :: 0 <= i < |calls| && calls[i].parentCallId.Some? ==> exists j :: 0 <= j < i && ParentOf(calls, i, j))
  }

  lemma {:induction false} SeenMeansEarlier(calls: seq<Call>, i: nat, id: string)
    requires i <= |calls|
    ensures id in CallIds(calls[..i]) <==> exists j :: 0 <= j < i && calls[j].id == id
  {
    if id in CallIds(calls[..i]) {
      var c :| c in calls[..i] && c.id == id;
      var j :| 0 <= j < i && calls[..i][j] == c;
      assert calls[j].id == id;
    }
    if j :| 0 <= j < i && calls[j].id == id {
      assert calls[..i][j] in calls[..i];
    }
  }

  /** The running check of the calls means distinct ids and parents earlier in the list. */
  lemma CallsCheckedIffOrdered(byId: map<string, Node>, calls: seq<Call>)
    ensures (forall i :: 0 <= i < |calls| ==> CallOk(byId, CallIds(calls[..i]), calls[i]))
       <==> CallsOrdered(calls) && (forall i :: 0 <= i < |calls| ==> calls[i].nodeId in byId)
  {
    forall i | 0 <= i < |calls|
      ensures CallOk(byId, CallIds(calls[..i]), calls[i])
        <==> (calls[i].nodeId in byId && (forall j :: 0 <= j < i ==> calls[j].id != calls[i].id)
          && (calls[i].parentCallId.Some? ==> exists j :: 0 <= j < i && ParentOf(calls, i, j)))
    {
      SeenMeansEarlier(calls, i, calls[i].id);
      if calls[i].parentCallId.Some? {
        SeenMeansEarlier(calls, i, calls[i].parentCallId.value);
        if j :| 0 <= j < i && calls[j].id == calls[i].parentCallId.value {
          assert ParentOf(calls, i, j);
        }
        if j :| 0 <= j < i && ParentOf(calls, i, j) {
          assert calls[j].id == calls[i].parentCallId.value;
        }
      }
    }
  }

  /** A walk from call to parent call. */
  predicate ParentChain(calls: seq<Call>, chain: seq<nat>) {
    && (forall k :: 0 <= k < |chain| ==> chain[k] < |calls|)
    && forall k :: 0 < k < |chain| ==> ParentOf(calls, chain[k - 1], chain[k])
  }

  /** The parent relation is acyclic: every walk to parents goes strictly down the list. */
  lemma {:induction false} ChainsDescend(calls: seq<Call>, chain: seq<nat>, i: nat, j: nat)
    requires CallsOrdered(calls) && ParentChain(calls, chain) && i < j < |chain|
    ensures chain[j] < chain[i]
    decreases j
  {
    assert ParentOf(calls, chain[j - 1], chain[j]);
    var e :| 0 <= e < chain[j - 1] && ParentOf(calls, chain[j - 1], e);
    assert chain[j] == e by {
      assert chain[j] < e || e < chain[j] || chain[j] == e;
    }
    if i < j - 1 {
      ChainsDescend(calls, chain, i, j - 1);
    }
  }

  /** The operations sit on known nodes, under ids of their own. */
  predicate OperationsPlaced(nodes: seq<Node>, operations: seq<Operation>) {
    && (forall i :: 0 <= i < |operations| ==> HasId(nodes, operations[i].nodeId))
    && forall i, j :: 0 <= i < j < |operations| ==> operations[i].id != operations[j].id
  }

  lemma OperationsCheckedIffPlaced(nodes: seq<Node>, operations: seq<Operation>)
    ensures (forall i :: 0 <= i < |operations| ==> OperationOk(NodeMap(nodes), OperationIds(operations[..i]), operations[i]))
       <==> OperationsPlaced(nodes, operations)
  {
    forall i | 0 <= i < |operations|
      ensures OperationOk(NodeMap(nodes), OperationIds(operations[..i]), operations[i])
         <==> HasId(nodes, operations[i].nodeId) && forall j :: 0 <= j < i ==> operations[j].id != operations[i].id
    {
      NodeMapHolds(nodes);
      OwnId(operations, i);
    }
  }

  lemma OwnId(operations: seq<Operation>, i: nat)
    requires i < |operations|
    ensures operations[i].id in OperationIds(operations[..i]) <==> exists j :: 0 <= j < i && operations[j].id == operations[i].id
  {
    var before := operations[..i];
    if j :| 0 <= j < i && operations[j].id == operations[i].id {
      assert before[j] in before;
    }
    if operations[i].id in OperationIds(before) {
      var o :| o in before && o.id == operations[i].id;
      var j :| 0 <= j < |before| && before[j] == o;
      assert operations[j] == o;
    }
  }

  /** No nodes or one tree of the stated depths; calls and operations on its nodes, each parent call earlier in the list. */
  ghost predicate WellShaped(t: AnalysisTrace) {
    && (t.nodes == [] || exists root :: IsTree(t.nodes, root))
    && CallsOrdered(t.calls) && (forall i :: 0 <= i < |t.calls| ==> HasId(t.nodes, t.calls[i].nodeId))
    && OperationsPlaced(t.nodes, t.operations)
    && (t.complete ==> t.contextHash.Some? && t.nodes != [])
  }

  /** The local checks accept a trace exactly when it is globally well shaped. */
  lemma AcceptedIffWellShaped(t: AnalysisTrace)
    ensures Accepted(t) <==> WellShaped(t)
  {
    NodesAcceptedIffTree(t.nodes);
    CallsCheckedIffOrdered(NodeMap(t.nodes), t.calls);
    OperationsCheckedIffPlaced(t.nodes, t.operations);
    forall i | 0 <= i < |t.calls| ensures t.calls[i].nodeId in NodeMap(t.nodes) <==> HasId(t.nodes, t.calls[i].nodeId) {
      NodeMapHolds(t.nodes);
    }
  }

  /** In an accepted trace no walk from call to parent call ever returns. */
  lemma AcceptedCallsAreAcyclic(t: AnalysisTrace, chain: seq<nat>)
    requires Accepted(t) && ParentChain(t.calls, chain)
    ensures forall i, j :: 0 <= i < j < |chain| ==> chain[j] < chain[i]
  {
    AcceptedIffWellShaped(t);
    forall i, j | 0 <= i < j < |chain| ensures chain[j] < chain[i] {
      ChainsDescend(t.calls, chain, i, j);
    }
  }
}
