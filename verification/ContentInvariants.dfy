/** What holds after every run of the store: the forest, the types, the depth, and the places. */
module ContentInvariants {
  import opened Wrappers
  import opened Content
  import opened MemStore

  /** The node hangs on a node of the right type, or on the root if it is a module. */
  ghost predicate Placed(nodes: Nodes, n: Node) {
    if n.parentId == 0 then n.typ == MODULE
    else n.typ != MODULE && n.parentId in nodes && ParentType(n.typ) == Some(nodes[n.parentId].node.typ)
  }

  /** A live node hangs on a live node, or on the root. */
  ghost predicate Attached(nodes: Nodes, n: MemNode) {
    !n.deleted && n.node.parentId != 0 ==> Live(nodes, n.node.parentId)
  }

  ghost predicate Forest(st: Store) {
    && Numbered(st)
    && Unique(st.nodes)
    && forall k :: k in st.nodes ==>
         && Placed(st.nodes, st.nodes[k].node)
         && Attached(st.nodes, st.nodes[k])
         && CheckModuleSlug(st.nodes[k].node.typ, st.nodes[k].node.slug).None?
  }

  datatype Op =
    | OpPut(input: NodeInput, now: string)
    | OpUpdate(id: int, title: Option<string>, data: Option<string>, schemaVersion: Option<int>, now: string)
    | OpDelete(id: int, now: string)
    | OpMove(id: int, parentId: int)

  ghost function Apply(rules: Rules, st: Store, op: Op): Store {
    match op
    case OpPut(input, now) => Put(rules, st, input, now).0
    case OpUpdate(id, title, data, sv, now) => Update(rules, st, id, title, data, sv, now).0
    case OpDelete(id, _) => Delete(st, id).0
    case OpMove(id, parentId) => Move(st, id, parentId).0
  }

  ghost function Run(rules: Rules, st: Store, ops: seq<Op>): Store
    decreases |ops|
  {
    if ops == [] then st else Run(rules, Apply(rules, st, ops[0]), ops[1..])
  }

  const EMPTY := Store(0, map[])

  /** The check that MoveNode leaves out: the new parent is live (or the root) and of the right type. */
  ghost predicate TargetAllowed(nodes: Nodes, id: int, parentId: int)
    requires id in nodes
  {
    var parent := ParentOf(nodes, parentId);
    parent.Ok? && CheckParent(nodes[id].node.typ, parent.value).None?
  }

  ghost predicate OpAllowed(st: Store, op: Op) {
    op.OpMove? && Live(st.nodes, op.id) && st.nodes[op.id].node.parentId != op.parentId ==>
      TargetAllowed(st.nodes, op.id, op.parentId)
  }

  ghost predicate RunAllowed(rules: Rules, st: Store, ops: seq<Op>)
    decreases |ops|
  {
    ops != [] ==> OpAllowed(st, ops[0]) && RunAllowed(rules, Apply(rules, st, ops[0]), ops[1..])
  }

  // ----- Places and ids: every run, whatever the moves -----

  lemma {:induction false} RunKeepsPlaces(rules: Rules, st: Store, ops: seq<Op>)
    requires Numbered(st) && Unique(st.nodes)
    ensures Numbered(Run(rules, st, ops)) && Unique(Run(rules, st, ops).nodes)
    decreases |ops|
  {
    if ops != [] {
      match ops[0] {
        case OpPut(input, now) => PutKeepsValid(rules, st, input, now);
        case OpUpdate(id, title, data, sv, now) => UpdateKeepsValid(rules, st, id, title, data, sv, now);
        case OpDelete(id, _) => DeleteKeepsValid(st, id);
        case OpMove(id, parentId) => MoveKeepsValid(st, id, parentId);
      }
      RunKeepsPlaces(rules, Apply(rules, st, ops[0]), ops[1..]);
    }
  }

  // ----- The forest -----

  /** The holder of a place already has the type that PutNode is about to write: types are fixed by parents. */
  lemma HolderHasType(rules: Rules, st: Store, input: NodeInput)
    requires Forest(st) && CheckPut(rules, st.nodes, input).Ok?
    requires Taken(st.nodes, input.parentId, CheckPut(rules, st.nodes, input).value.0)
    ensures var k := Holder(st.nodes, input.parentId, CheckPut(rules, st.nodes, input).value.0);
            st.nodes[k].node.typ == input.typ
  {
    var k := Holder(st.nodes, input.parentId, CheckPut(rules, st.nodes, input).value.0);
    assert Placed(st.nodes, st.nodes[k].node);
    if input.parentId != 0 {
      assert Placed(st.nodes, st.nodes[input.parentId].node);
    }
  }

  lemma PutKeepsForest(rules: Rules, st: Store, input: NodeInput, now: string)
    requires Forest(st)
    ensures Forest(Put(rules, st, input, now).0)
  {
    PutKeepsValid(rules, st, input, now);
    var clean := CheckPut(rules, st.nodes, input);
    if clean.Ok? {
      if Taken(st.nodes, input.parentId, clean.value.0) {
        HolderHasType(rules, st, input);
        OverwriteKeepsLinks(st.nodes, Holder(st.nodes, input.parentId, clean.value.0), input, clean.value, now);
      } else {
        AddKeepsLinks(st, NewNode(st.nextId + 1, input, clean.value, now));
      }
    }
  }

  ghost predicate Links(nodes: Nodes) {
    forall k :: k in nodes ==>
      && Placed(nodes, nodes[k].node)
      && Attached(nodes, nodes[k])
      && CheckModuleSlug(nodes[k].node.typ, nodes[k].node.slug).None?
  }

  lemma OverwriteKeepsLinks(nodes: Nodes, k: int, input: NodeInput, clean: (string, string, int), now: string)
    requires Links(nodes) && k in nodes && nodes[k].node.typ == input.typ
    requires nodes[k].node.parentId == input.parentId && (input.parentId == 0 || Live(nodes, input.parentId))
    ensures Links(nodes[k := Overwritten(nodes[k], input, clean, now)])
  {
    var after := nodes[k := Overwritten(nodes[k], input, clean, now)];
    forall j | j in after
      ensures Placed(after, after[j].node) && Attached(after, after[j])
          && CheckModuleSlug(after[j].node.typ, after[j].node.slug).None?
    {
      assert Placed(nodes, nodes[j].node) && Attached(nodes, nodes[j]);
    }
  }

  lemma AddKeepsLinks(st: Store, n: MemNode)
    requires Numbered(st) && Links(st.nodes)
    requires Placed(st.nodes, n.node) && Attached(st.nodes, n) && CheckModuleSlug(n.node.typ, n.node.slug).None?
    ensures Links(st.nodes[st.nextId + 1 := n])
  {
    var after := st.nodes[st.nextId + 1 := n];
    forall j | j in after
      ensures Placed(after, after[j].node) && Attached(after, after[j])
          && CheckModuleSlug(after[j].node.typ, after[j].node.slug).None?
    {
      if j != st.nextId + 1 {
        assert Placed(st.nodes, st.nodes[j].node) && Attached(st.nodes, st.nodes[j]);
      }
    }
  }

  lemma UpdateKeepsForest(rules: Rules, st: Store, id: int, title: Option<string>, data: Option<string>,
                          schemaVersion: Option<int>, now: string)
    requires Forest(st)
    ensures Forest(Update(rules, st, id, title, data, schemaVersion, now).0)
  {
    UpdateShape(rules, st, id, title, data, schemaVersion, now);
    hide Update;
    UpdateKeepsValid(rules, st, id, title, data, schemaVersion, now);
    SameShapeKeepsLinks(st.nodes, Update(rules, st, id, title, data, schemaVersion, now).0.nodes);
  }

  /** An update changes neither places nor types nor liveness. */
  lemma UpdateShape(rules: Rules, st: Store, id: int, title: Option<string>, data: Option<string>,
                    schemaVersion: Option<int>, now: string)
    ensures var after := Update(rules, st, id, title, data, schemaVersion, now).0.nodes;
            && after.Keys == st.nodes.Keys
            && forall k :: k in st.nodes ==>
                 && after[k].deleted == st.nodes[k].deleted
                 && after[k].node.typ == st.nodes[k].node.typ
                 && after[k].node.parentId == st.nodes[k].node.parentId
                 && after[k].node.slug == st.nodes[k].node.slug
  {
  }

  lemma SameShapeKeepsLinks(nodes: Nodes, after: Nodes)
    requires Links(nodes) && nodes.Keys == after.Keys
    requires forall k :: k in nodes ==>
      && after[k].deleted == nodes[k].deleted
      && after[k].node.typ == nodes[k].node.typ
      && after[k].node.parentId == nodes[k].node.parentId
      && after[k].node.slug == nodes[k].node.slug
    ensures Links(after)
  {
    forall j | j in after
      ensures Placed(after, after[j].node) && Attached(after, after[j])
          && CheckModuleSlug(after[j].node.typ, after[j].node.slug).None?
    {
      assert Placed(nodes, nodes[j].node) && Attached(nodes, nodes[j]);
    }
  }

  /** A node that stays alive keeps its parent: were the parent in the deleted subtree, the node would be too. */
  lemma DeleteKeepsForest(st: Store, id: int)
    requires Forest(st)
    ensures Forest(Delete(st, id).0)
  {
    DeleteKeepsValid(st, id);
    if Live(st.nodes, id) {
      var after := MarkDeleted(st.nodes, Subtree(st.nodes, id));
      forall k | k in after
        ensures Placed(after, after[k].node) && Attached(after, after[k])
      {
        assert Placed(st.nodes, st.nodes[k].node) && Attached(st.nodes, st.nodes[k]);
        var p := st.nodes[k].node.parentId;
        if !after[k].deleted && p in Subtree(st.nodes, id) {
          SubtreeChild(st.nodes, id, p, k);
        }
      }
    }
  }

  lemma AllowedMeansPlaced(nodes: Nodes, id: int, parentId: int)
    requires Links(nodes) && Live(nodes, id)
    ensures TargetAllowed(nodes, id, parentId)
       <==> Placed(nodes, nodes[id].node.(parentId := parentId)) && (parentId != 0 ==> Live(nodes, parentId))
  {
    assert Placed(nodes, nodes[id].node);
    if parentId in nodes {
      assert Placed(nodes, nodes[parentId].node);
    }
  }

  lemma ReparentedLinks(nodes: Nodes, id: int, parentId: int)
    requires Links(nodes) && Live(nodes, id)
    requires Placed(nodes, nodes[id].node.(parentId := parentId)) && (parentId != 0 ==> Live(nodes, parentId))
    ensures Links(Reparented(nodes, id, parentId))
  {
    var after := Reparented(nodes, id, parentId);
    forall k | k in after
      ensures Placed(after, after[k].node) && Attached(after, after[k])
      ensures CheckModuleSlug(after[k].node.typ, after[k].node.slug).None?
    {
      assert Placed(nodes, nodes[k].node) && Attached(nodes, nodes[k]);
    }
  }

  lemma LinksOfReparented(nodes: Nodes, id: int, parentId: int)
    requires Live(nodes, id) && Links(Reparented(nodes, id, parentId))
    ensures Placed(nodes, nodes[id].node.(parentId := parentId)) && (parentId != 0 ==> Live(nodes, parentId))
  {
    var after := Reparented(nodes, id, parentId);
    assert Placed(after, after[id].node) && Attached(after, after[id]);
  }

  /** A move keeps the forest exactly when the check it leaves out would have passed. */
  lemma MoveKeepsForestIff(st: Store, id: int, parentId: int)
    requires Forest(st) && Move(st, id, parentId).1.None? && st.nodes[id].node.parentId != parentId
    ensures Forest(Move(st, id, parentId).0) <==> TargetAllowed(st.nodes, id, parentId)
  {
    hide Placed, Attached, Numbered, Unique, TargetAllowed, Taken, Reparented;
    var st' := Move(st, id, parentId).0;
    MoveKeepsValid(st, id, parentId);
    assert Links(st.nodes);
    AllowedMeansPlaced(st.nodes, id, parentId);
    if TargetAllowed(st.nodes, id, parentId) {
      ReparentedLinks(st.nodes, id, parentId);
    }
    if Forest(st') {
      assert Links(st'.nodes);
      LinksOfReparented(st.nodes, id, parentId);
    }
  }

  lemma StepKeepsForest(rules: Rules, st: Store, op: Op)
    requires Forest(st) && OpAllowed(st, op)
    ensures Forest(Apply(rules, st, op))
  {
    match op
    case OpPut(input, now) => PutKeepsForest(rules, st, input, now);
    case OpUpdate(id, title, data, sv, now) => UpdateKeepsForest(rules, st, id, title, data, sv, now);
    case OpDelete(id, _) => DeleteKeepsForest(st, id);
    case OpMove(id, parentId) =>
      if Move(st, id, parentId).1.None? && st.nodes[id].node.parentId != parentId {
        MoveKeepsForestIff(st, id, parentId);
      }
  }

  /** Every run whose moves have allowed targets keeps the forest. */
  lemma {:induction false} RunKeepsForest(rules: Rules, st: Store, ops: seq<Op>)
    requires Forest(st) && RunAllowed(rules, st, ops)
    ensures Forest(Run(rules, st, ops))
    decreases |ops|
  {
    if ops != [] {
      hide Forest, Apply, OpAllowed;
      StepKeepsForest(rules, st, ops[0]);
      RunKeepsForest(rules, Apply(rules, st, ops[0]), ops[1..]);
    }
  }

  lemma RunFromEmpty(rules: Rules, ops: seq<Op>)
    requires RunAllowed(rules, EMPTY, ops)
    ensures Forest(Run(rules, EMPTY, ops))
  {
    RunKeepsForest(rules, EMPTY, ops);
  }

  // ----- What the forest means -----

  /** Nodes never disappear, and overwriting, reviving or moving a node never changes its type. */
  lemma {:induction false} TypesNeverChange(rules: Rules, st: Store, ops: seq<Op>, k: int)
    requires Forest(st) && RunAllowed(rules, st, ops) && k in st.nodes
    ensures k in Run(rules, st, ops).nodes && Run(rules, st, ops).nodes[k].node.typ == st.nodes[k].node.typ
    decreases |ops|
  {
    if ops != [] {
      StepKeepsForest(rules, st, ops[0]);
      StepKeepsType(rules, st, ops[0], k);
      TypesNeverChange(rules, Apply(rules, st, ops[0]), ops[1..], k);
    }
  }

  lemma StepKeepsType(rules: Rules, st: Store, op: Op, k: int)
    requires Forest(st) && k in st.nodes
    ensures k in Apply(rules, st, op).nodes && Apply(rules, st, op).nodes[k].node.typ == st.nodes[k].node.typ
  {
    hide Put, Update, Forest, CheckPut;
    match op
    case OpPut(input, now) => PutKeepsType(rules, st, input, now, k);
    case OpUpdate(id, title, data, sv, now) => UpdateShape(rules, st, id, title, data, sv, now);
    case OpDelete(_, _) =>
    case OpMove(_, _) =>
  }

  lemma PutKeepsType(rules: Rules, st: Store, input: NodeInput, now: string, k: int)
    requires Forest(st) && k in st.nodes
    ensures var after := Put(rules, st, input, now).0.nodes; k in after && after[k].node.typ == st.nodes[k].node.typ
  {
    var clean := CheckPut(rules, st.nodes, input);
    if clean.Ok? && Taken(st.nodes, input.parentId, clean.value.0) {
      HolderHasType(rules, st, input);
    }
  }

  /** The links from k up: n nodes, all satisfying the same liveness, and then the root. */
  ghost predicate ChainToRoot(nodes: Nodes, k: int, n: nat, live: bool)
    decreases n
  {
    && n > 0
    && k in nodes
    && (live ==> !nodes[k].deleted)
    && if nodes[k].node.parentId == 0 then n == 1 else ChainToRoot(nodes, nodes[k].node.parentId, n - 1, live)
  }

  /** The depth that a type is always found at. */
  function DepthOf(typ: string): nat {
    if typ == MODULE then 1 else if typ == DETAIL then 2 else 3
  }

  /** Every node is at the depth of its type, at most three, and the ancestors of a live node are live. */
  lemma {:induction false} DepthAtMostThree(st: Store, k: int)
    requires Forest(st) && k in st.nodes
    ensures ChainToRoot(st.nodes, k, DepthOf(st.nodes[k].node.typ), Live(st.nodes, k))
    decreases DepthOf(st.nodes[k].node.typ)
  {
    assert Placed(st.nodes, st.nodes[k].node) && Attached(st.nodes, st.nodes[k]);
    var p := st.nodes[k].node.parentId;
    if p != 0 {
      assert Placed(st.nodes, st.nodes[p].node);
      DepthAtMostThree(st, p);
      if !Live(st.nodes, k) && Live(st.nodes, p) {
        ChainWeakens(st.nodes, p, DepthOf(st.nodes[p].node.typ));
      }
    }
  }

  lemma {:induction false} ChainWeakens(nodes: Nodes, k: int, n: nat)
    requires ChainToRoot(nodes, k, n, true)
    ensures ChainToRoot(nodes, k, n, false)
    decreases n
  {
    if nodes[k].node.parentId != 0 {
      ChainWeakens(nodes, nodes[k].node.parentId, n - 1);
    }
  }

  // ----- Updates that fail -----

  /** Valid new data for a live node. */
  predicate NewData(rules: Rules, nodes: Nodes, id: int, data: Option<string>) {
    && Live(nodes, id)
    && data.Some? && rules.data(data.value).Some?
    && rules.data(data.value).value != nodes[id].node.data
  }

  predicate BadVersion(schemaVersion: Option<int>) {
    schemaVersion.Some? && CleanSchemaVersion(schemaVersion.value).Err?
  }

  /**
   * A failed update leaves the store as it was except in one case: valid new data together with an invalid
   * schema version. Then the data is already stored when the version is refused.
   */
  lemma FailedUpdateIsCleanIff(rules: Rules, st: Store, id: int, title: Option<string>, data: Option<string>,
                               schemaVersion: Option<int>, now: string)
    requires Update(rules, st, id, title, data, schemaVersion, now).1.Err?
    ensures Update(rules, st, id, title, data, schemaVersion, now).0 == st
       <==> !(NewData(rules, st.nodes, id, data) && BadVersion(schemaVersion))
  {
    if Live(st.nodes, id) && data.Some? && rules.data(data.value).Some? {
      var d := rules.data(data.value).value;
      var after := st.nodes[id := st.nodes[id].(node := st.nodes[id].node.(data := d))];
      assert after[id].node.data == d;
      if d == st.nodes[id].node.data {
        assert after == st.nodes;
      }
    } else if Live(st.nodes, id) && data.None? {
      assert st.nodes[id := st.nodes[id]] == st.nodes;
    }
  }
}
