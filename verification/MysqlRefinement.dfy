/**
 * The two content stores side by side: on the same calls they hold the same nodes up to the time of the last
 * update, and give the same answers, exactly as far as their differences allow.
 */
module MysqlRefinement {
  import opened Wrappers
  import opened Sets
  import opened Sorting
  import opened Content
  import opened MemStore
  import opened ContentInvariants
  import opened MysqlStore

  // ----- Equal up to updated_at -----

  predicate SameNode(a: Node, b: Node) {
    b == a.(updatedAt := b.updatedAt)
  }

  predicate SameRow(a: MemNode, b: MemNode) {
    SameNode(a.node, b.node) && b.deleted == a.deleted && b.sequence == a.sequence
  }

  predicate SameNodes(a: Nodes, b: Nodes) {
    a.Keys == b.Keys && forall k :: k in a ==> SameRow(a[k], b[k])
  }

  predicate Same(a: Store, b: Store) {
    a.nextId == b.nextId && SameNodes(a.nodes, b.nodes)
  }

  lemma SameUnique(a: Nodes, b: Nodes)
    requires SameNodes(a, b) && Unique(a)
    ensures Unique(b)
  {
  }

  lemma SameWalk(a: Nodes, b: Nodes, path: seq<int>)
    requires SameNodes(a, b)
    ensures Walk(a, path) <==> Walk(b, path)
  {
    if |path| > 0 {
      forall i | 0 <= i < |path| - 1
        ensures LiveChild(a, path[i], path[i + 1]) <==> LiveChild(b, path[i], path[i + 1])
      {
      }
    }
  }

  lemma SameSubtree(a: Nodes, b: Nodes, id: int)
    requires SameNodes(a, b)
    ensures Subtree(a, id) == Subtree(b, id)
    ensures OnCycle(a, id) <==> OnCycle(b, id)
  {
    forall x
      ensures Below(a, id, x) <==> Below(b, id, x)
    {
      if Below(a, id, x) {
        var path :| Walk(a, path) && path[0] == id && path[|path| - 1] == x;
        SameWalk(a, b, path);
      }
      if Below(b, id, x) {
        var path :| Walk(b, path) && path[0] == id && path[|path| - 1] == x;
        SameWalk(a, b, path);
      }
    }
    assert forall c :: LiveChild(a, c, id) <==> LiveChild(b, c, id);
  }

  // ----- Put and move -----

  predicate SameResult(a: Result<Node, Error>, b: Result<Node, Error>) {
    if a.Ok? && b.Ok? then SameNode(a.value, b.value) else a == b
  }

  lemma PutSame(rules: Rules, a: Store, b: Store, input: NodeInput, now: string)
    requires Same(a, b) && Numbered(a) && Unique(a.nodes)
    ensures Same(Put(rules, a, input, now).0, SqlPut(rules, b, input, now).0)
    ensures SameResult(Put(rules, a, input, now).1, SqlPut(rules, b, input, now).1)
  {
    SameUnique(a.nodes, b.nodes);
    assert CheckPut(rules, a.nodes, input) == CheckPut(rules, b.nodes, input);
    var checked := CheckPut(rules, a.nodes, input);
    if checked.Ok? && Taken(a.nodes, input.parentId, checked.value.0) {
      var k := Holder(a.nodes, input.parentId, checked.value.0);
      HolderIs(b.nodes, input.parentId, checked.value.0, k);
    }
  }

  /** A live node with the place, and with everything that the put would write. */
  predicate HasAll(n: MemNode, input: NodeInput, clean: (string, string, int)) {
    && !n.deleted && Takes(n, input.parentId, clean.0)
    && n.node.typ == input.typ && n.node.title == input.title
    && n.node.data == clean.1 && n.node.schemaVersion == clean.2
  }

  ghost predicate PutKeepsTime(nodes: Nodes, input: NodeInput, clean: (string, string, int), now: string) {
    forall k :: k in nodes && HasAll(nodes[k], input, clean) ==> nodes[k].node.updatedAt == now
  }

  /** The times agree too, unless a live node already has all that is written: then MySQL keeps its old time. */
  lemma PutTimeIff(rules: Rules, st: Store, input: NodeInput, now: string)
    requires Unique(st.nodes) && CheckPut(rules, st.nodes, input).Ok?
    ensures SqlPut(rules, st, input, now) == Put(rules, st, input, now)
       <==> PutKeepsTime(st.nodes, input, CheckPut(rules, st.nodes, input).value, now)
  {
    var clean := CheckPut(rules, st.nodes, input).value;
    if Taken(st.nodes, input.parentId, clean.0) {
      var k := Holder(st.nodes, input.parentId, clean.0);
      UpsertTimeIff(st.nodes[k], input, clean, now);
      forall j | j in st.nodes && Takes(st.nodes[j], input.parentId, clean.0)
        ensures j == k
      {
        HolderIs(st.nodes, input.parentId, clean.0, j);
      }
      var n, m := Overwritten(st.nodes[k], input, clean, now), Upserted(st.nodes[k], input, clean, now);
      assert st.nodes[k := n][k] == n && st.nodes[k := m][k] == m;
    }
  }

  lemma UpsertTimeIff(n: MemNode, input: NodeInput, clean: (string, string, int), now: string)
    requires Takes(n, input.parentId, clean.0)
    ensures Upserted(n, input, clean, now) == Overwritten(n, input, clean, now)
       <==> (HasAll(n, input, clean) ==> n.node.updatedAt == now)
  {
  }

  lemma MoveSame(a: Store, b: Store, id: int, parentId: int)
    requires Same(a, b) && Unique(a.nodes)
    ensures Same(Move(a, id, parentId).0, Move(b, id, parentId).0) && Move(a, id, parentId).1 == Move(b, id, parentId).1
  {
    if Live(a.nodes, id) {
      assert Taken(a.nodes, parentId, a.nodes[id].node.slug) <==> Taken(b.nodes, parentId, a.nodes[id].node.slug) by {
        assert forall k :: k in a.nodes ==>
          (Takes(a.nodes[k], parentId, a.nodes[id].node.slug) <==> Takes(b.nodes[k], parentId, a.nodes[id].node.slug));
      }
    }
  }

  // ----- Update -----

  predicate ArgumentsValid(rules: Rules, data: Option<string>, schemaVersion: Option<int>) {
    (data.Some? ==> rules.data(data.value).Some?) && !BadVersion(schemaVersion)
  }

  /** Both stores succeed on the same updates, and then return the same node. */
  lemma UpdateSucceedsIff(rules: Rules, a: Store, b: Store, id: int, title: Option<string>, data: Option<string>,
                          schemaVersion: Option<int>, now: string)
    requires Same(a, b)
    ensures var mem, sql := Update(rules, a, id, title, data, schemaVersion, now).1,
        SqlUpdate(rules, b, id, title, data, schemaVersion, now).1;
            && (mem.Ok? <==> Live(a.nodes, id) && ArgumentsValid(rules, data, schemaVersion))
            && (sql.Ok? <==> mem.Ok?)
            && (mem.Ok? ==> SameNode(mem.value, sql.value))
  {
  }

  /**
   * A failed update reports the same error exactly when the node is live or all arguments are valid: memory looks
   * for the node first, MySQL last.
   */
  lemma UpdateErrorIff(rules: Rules, a: Store, b: Store, id: int, title: Option<string>, data: Option<string>,
                       schemaVersion: Option<int>, now: string)
    requires Same(a, b) && Update(rules, a, id, title, data, schemaVersion, now).1.Err?
    ensures SqlUpdate(rules, b, id, title, data, schemaVersion, now).1
        == Update(rules, a, id, title, data, schemaVersion, now).1
       <==> Live(a.nodes, id) || ArgumentsValid(rules, data, schemaVersion)
  {
  }

  /** A node that is not there, with version -1: memory misses the node, MySQL refuses the version. */
  lemma ErrorsDiffer(rules: Rules, id: int, now: string)
    ensures Update(rules, EMPTY, id, None, None, Some(-1), now) == (EMPTY, Err(NotFound))
    ensures SqlUpdate(rules, EMPTY, id, None, None, Some(-1), now) == (EMPTY, Err(BadSchemaVersion))
  {
  }

  /** The tables stay the same exactly when no valid new data comes with an invalid version: memory keeps that data. */
  lemma UpdateSameIff(rules: Rules, a: Store, b: Store, id: int, title: Option<string>, data: Option<string>,
                      schemaVersion: Option<int>, now: string)
    requires Same(a, b)
    ensures Same(Update(rules, a, id, title, data, schemaVersion, now).0,
        SqlUpdate(rules, b, id, title, data, schemaVersion, now).0)
       <==> !(NewData(rules, a.nodes, id, data) && BadVersion(schemaVersion))
  {
    var mem := Update(rules, a, id, title, data, schemaVersion, now).0;
    if NewData(rules, a.nodes, id, data) && BadVersion(schemaVersion) {
      assert mem.nodes[id].node.data == rules.data(data.value).value;
    } else if Update(rules, a, id, title, data, schemaVersion, now).1.Err? {
      FailedUpdateIsCleanIff(rules, a, id, title, data, schemaVersion, now);
    }
  }

  /** Nothing that the update sets is new. */
  predicate SetsNothing(rules: Rules, n: Node, title: Option<string>, data: Option<string>,
                        schemaVersion: Option<int>)
  {
    && (title.Some? ==> title.value == n.title)
    && (data.Some? ==> rules.data(data.value) == Some(n.data))
    && (schemaVersion.Some? ==> CleanSchemaVersion(schemaVersion.value) == Ok(n.schemaVersion))
  }

  /** The times agree too, unless the update sets nothing new: memory gives it the new time, MySQL keeps the old one. */
  lemma UpdateTimeIff(rules: Rules, st: Store, id: int, title: Option<string>, data: Option<string>,
                      schemaVersion: Option<int>, now: string)
    requires Live(st.nodes, id) && ArgumentsValid(rules, data, schemaVersion)
    ensures SqlUpdate(rules, st, id, title, data, schemaVersion, now)
         == Update(rules, st, id, title, data, schemaVersion, now)
       <==> (SetsNothing(rules, st.nodes[id].node, title, data, schemaVersion) ==>
               st.nodes[id].node.updatedAt == now)
  {
    var mem, sql := Update(rules, st, id, title, data, schemaVersion, now).0,
      SqlUpdate(rules, st, id, title, data, schemaVersion, now).0;
    assert mem == sql ==> mem.nodes[id] == sql.nodes[id];
  }

  // ----- Delete -----

  lemma {:induction false} WalkDeepens(st: Store, path: seq<int>)
    requires Forest(st) && Walk(st.nodes, path) && path[0] in st.nodes
    ensures path[|path| - 1] in st.nodes
    ensures DepthOf(st.nodes[path[|path| - 1]].node.typ) == DepthOf(st.nodes[path[0]].node.typ) + |path| - 1
    decreases |path|
  {
    var n := |path| - 1;
    if n > 0 {
      var init := path[..n];
      forall i | 0 <= i < |init| - 1
        ensures LiveChild(st.nodes, init[i], init[i + 1])
      {
        assert LiveChild(st.nodes, path[i], path[i + 1]);
      }
      WalkDeepens(st, init);
      assert LiveChild(st.nodes, path[n - 1], path[n - 1 + 1]);
      OneDeeper(st, path[n - 1], path[n]);
    }
  }

  lemma OneDeeper(st: Store, p: int, c: int)
    requires Forest(st) && p in st.nodes && LiveChild(st.nodes, p, c)
    ensures DepthOf(st.nodes[c].node.typ) == DepthOf(st.nodes[p].node.typ) + 1
  {
    assert Placed(st.nodes, st.nodes[c].node);
  }

  /** In a forest no node is on a cycle: every step down is one deeper. */
  lemma ForestHasNoCycle(st: Store, id: int)
    requires Forest(st)
    ensures !OnCycle(st.nodes, id)
  {
    if OnCycle(st.nodes, id) {
      var c :| Below(st.nodes, id, c) && LiveChild(st.nodes, c, id);
      var path :| Walk(st.nodes, path) && path[0] == id && path[|path| - 1] == c;
      WalkDeepens(st, path);
      OneDeeper(st, c, id);
    }
  }

  lemma MarkSame(a: Nodes, b: Nodes, ids: set<int>, now: string)
    requires SameNodes(a, b)
    ensures SameNodes(MarkDeleted(a, ids), SoftDeleted(b, ids, now))
  {
    var left, right := MarkDeleted(a, ids), SoftDeleted(b, ids, now);
    forall k | k in left
      ensures SameRow(left[k], right[k])
    {
    }
  }

  lemma SameMarked(a: Nodes, b: Nodes, s: set<int>, t: set<int>, now: string)
    requires SameNodes(a, b) && t <= s && forall k :: k in s ==> Live(a, k)
    ensures SameNodes(MarkDeleted(a, s), SoftDeleted(b, t, now)) <==> s == t
  {
    var missed := set k | k in s && k !in t;
    if missed == {} {
      assert forall k :: k in s ==> k in t || k in missed;
      assert s == t;
      MarkSame(a, b, s, now);
    } else {
      var k := HasElement(missed);
      assert MarkDeleted(a, s)[k].deleted && !SoftDeleted(b, t, now)[k].deleted;
    }
  }

  lemma SubtreeIsLive(nodes: Nodes, id: int)
    requires Live(nodes, id)
    ensures forall x :: x in Subtree(nodes, id) ==> Live(nodes, x)
  {
    forall x | x in Subtree(nodes, id)
      ensures Live(nodes, x)
    {
      var path :| Walk(nodes, path) && path[0] == id && path[|path| - 1] == x;
      if |path| > 1 {
        assert LiveChild(nodes, path[|path| - 2], path[|path| - 2 + 1]);
      }
    }
  }

  /** For all tables: both stores delete the same nodes and report the same number exactly when the levels complete. */
  lemma DeleteSameIff(a: Store, b: Store, id: int, now: string)
    requires Same(a, b) && Live(a.nodes, id)
    ensures Same(Delete(a, id).0, SqlDelete(b, id, now).0) && SqlDelete(b, id, now).1 == Delete(a, id).1
       <==> Complete(b.nodes, id)
    ensures !OnCycle(b.nodes, id) ==>
              && (Same(Delete(a, id).0, SqlDelete(b, id, now).0) <==> Complete(b.nodes, id))
              && (SqlDelete(b, id, now).1 == Delete(a, id).1 <==> Complete(b.nodes, id))
  {
    hide Subtree, OnCycle, Collected, Complete, MarkDeleted, SoftDeleted;
    SameSubtree(a.nodes, b.nodes, id);
    DeleteIff(b.nodes, id);
    SubsetSize(Collected(b.nodes, {id}, {id}, 1).0, Subtree(b.nodes, id));
    SubtreeIsLive(a.nodes, id);
    SameMarked(a.nodes, b.nodes, Subtree(a.nodes, id), Collected(b.nodes, {id}, {id}, 1).0, now);
  }

  /**
   * The limit is reached at the children of the node, and there are grandchildren. In a forest there is no level
   * below those.
   */
  ghost predicate Cut(nodes: Nodes, id: int) {
    |NextLevel(nodes, {id})| + 1 >= LIMIT && NextLevel(nodes, NextLevel(nodes, {id})) != {}
  }

  /** Level n of a forest is n deeper than the node. */
  lemma {:induction false} LevelDepth(st: Store, id: int, n: nat, c: int)
    requires Forest(st) && Live(st.nodes, id) && c in Level(st.nodes, id, n)
    ensures c in st.nodes && DepthOf(st.nodes[c].node.typ) == DepthOf(st.nodes[id].node.typ) + n
  {
    if n > 0 {
      hide Forest;
      var p := st.nodes[c].node.parentId;
      LevelDepth(st, id, n - 1, p);
      OneDeeper(st, p, c);
    }
  }

  lemma NoThirdLevel(st: Store, id: int)
    requires Forest(st) && Live(st.nodes, id)
    ensures Level(st.nodes, id, 3) == {}
  {
    if Level(st.nodes, id, 3) != {} {
      var c := HasElement(Level(st.nodes, id, 3));
      LevelDepth(st, id, 3, c);
    }
  }

  /** In a forest a subtree is the node, its children and its grandchildren. */
  lemma ForestSubtree(st: Store, id: int)
    requires Forest(st) && Live(st.nodes, id)
    ensures var level := NextLevel(st.nodes, {id});
            && Subtree(st.nodes, id) == {id} + level + NextLevel(st.nodes, level)
  {
    hide Forest, Subtree, NextLevel;
    NoThirdLevel(st, id);
    ReachAllIff(st.nodes, id, 2);
    assert Reach(st.nodes, id, 2) == Reach(st.nodes, id, 0) + Level(st.nodes, id, 1) + Level(st.nodes, id, 2);
  }

  lemma LevelsOfCut(nodes: Nodes, id: int)
    ensures Cut(nodes, id) <==> Count(nodes, id, 1) >= LIMIT && Level(nodes, id, 2) != {}
  {
    hide NextLevel;
    assert Level(nodes, id, 0) == {id};
    assert Level(nodes, id, 1) == NextLevel(nodes, Level(nodes, id, 0));
    assert Level(nodes, id, 2) == NextLevel(nodes, Level(nodes, id, 1));
    assert Count(nodes, id, 1) == Count(nodes, id, 0) + |Level(nodes, id, 1)|;
  }

  /** In a forest a delete on MySQL is complete unless it is cut off at the children. */
  lemma ForestCompleteIff(st: Store, id: int)
    requires Forest(st) && Live(st.nodes, id)
    ensures Complete(st.nodes, id) <==> !Cut(st.nodes, id)
  {
    hide Forest, Subtree, NextLevel, OnCycle, Cut, NoReturn;
    var nodes := st.nodes;
    ForestHasNoCycle(st, id);
    LevelsOfCut(nodes, id);
    NoThirdLevel(st, id);
    ReachAllIff(nodes, id, 1);
    ReachAllIff(nodes, id, 2);
    OffCycleNoReturn(nodes, id, 1);
    OffCycleNoReturn(nodes, id, 2);
    if Level(nodes, id, 2) == {} {
      assert CompleteAt(nodes, id, 1);
    } else if Count(nodes, id, 1) < LIMIT {
      assert CompleteAt(nodes, id, 2);
    } else if n: nat :| CompleteAt(nodes, id, n) {
      CutIsNotComplete(nodes, id, n);
    }
  }

  lemma CutIsNotComplete(nodes: Nodes, id: int, n: nat)
    requires Live(nodes, id) && !OnCycle(nodes, id) && CompleteAt(nodes, id, n)
    requires Count(nodes, id, 1) >= LIMIT
    ensures Level(nodes, id, 2) == {}
  {
    hide Subtree, NextLevel, OnCycle, NoReturn;
    if n >= 2 {
      LevelInReach(nodes, id, 1, n - 1);
    } else {
      OffCycleNoReturn(nodes, id, n);
      OffCycleNoReturn(nodes, id, n + 1);
      NewLevelIff(nodes, id, n + 1);
      ReachAllIff(nodes, id, n);
      assert Level(nodes, id, n + 1) == {};
      assert NextLevel(nodes, {}) == {} by { NothingUnderNothing(nodes); }
    }
  }

  lemma NothingUnderNothing(nodes: Nodes)
    ensures NextLevel(nodes, {}) == {}
  {
  }

  lemma SameForest(a: Store, b: Store)
    requires Same(a, b) && Forest(a)
    ensures Forest(b)
  {
    forall k | k in b.nodes
      ensures Placed(b.nodes, b.nodes[k].node) && Attached(b.nodes, b.nodes[k])
      ensures CheckModuleSlug(b.nodes[k].node.typ, b.nodes[k].node.slug).None?
    {
      assert Placed(a.nodes, a.nodes[k].node) && Attached(a.nodes, a.nodes[k]);
    }
    SameUnique(a.nodes, b.nodes);
  }

  lemma SameCut(a: Nodes, b: Nodes, id: int)
    requires SameNodes(a, b)
    ensures Cut(a, id) <==> Cut(b, id)
  {
    forall f: set<int>
      ensures NextLevel(a, f) == NextLevel(b, f)
    {
      assert forall c :: c in NextLevel(a, f) <==> c in NextLevel(b, f);
    }
  }

  /** In a forest both stores delete the same, and report the same number, exactly when the delete is not cut off. */
  lemma ForestDeleteIff(a: Store, b: Store, id: int, now: string)
    requires Same(a, b) && Forest(a) && Live(a.nodes, id)
    ensures Same(Delete(a, id).0, SqlDelete(b, id, now).0) <==> !Cut(a.nodes, id)
    ensures SqlDelete(b, id, now).1 == Delete(a, id).1 <==> !Cut(a.nodes, id)
  {
    hide Forest, Complete, Cut, OnCycle, Delete, SqlDelete;
    SameForest(a, b);
    DeleteSameIff(a, b, id, now);
    ForestHasNoCycle(b, id);
    ForestCompleteIff(b, id);
    SameCut(a.nodes, b.nodes, id);
  }

  /** A delete that is cut off takes the node and its children, and nothing below them. */
  lemma CutTakesChildren(st: Store, id: int)
    requires Forest(st) && Live(st.nodes, id) && Cut(st.nodes, id)
    ensures Collected(st.nodes, {id}, {id}, 1)
         == ({id} + NextLevel(st.nodes, {id}), 1 + |NextLevel(st.nodes, {id})|)
    ensures NextLevel(st.nodes, NextLevel(st.nodes, {id})) !! {id} + NextLevel(st.nodes, {id})
  {
    hide Forest, NextLevel, OnCycle, Collected, NoReturn;
    var nodes := st.nodes;
    CollectTurn(nodes, {id}, {id}, 1);
    CollectEnd(nodes, NextLevel(nodes, {id}), {id} + NextLevel(nodes, {id}), 1 + |NextLevel(nodes, {id})|);
    ForestHasNoCycle(st, id);
    OffCycleNoReturn(nodes, id, 1);
    OffCycleNoReturn(nodes, id, 2);
    NewLevelIff(nodes, id, 2);
    assert Level(nodes, id, 0) == {id} && Reach(nodes, id, 0) == {id};
    assert Level(nodes, id, 1) == NextLevel(nodes, Level(nodes, id, 0));
    assert Level(nodes, id, 2) == NextLevel(nodes, Level(nodes, id, 1));
    assert Reach(nodes, id, 1) == Reach(nodes, id, 0) + Level(nodes, id, 1);
  }

  /** A delete that is cut off leaves live nodes under deleted ones, and every other keeps the forest. */
  lemma SqlDeleteKeepsForestIff(st: Store, id: int, now: string)
    requires Forest(st) && Live(st.nodes, id)
    ensures Forest(SqlDelete(st, id, now).0) <==> !Cut(st.nodes, id)
  {
    if Cut(st.nodes, id) {
      CutTakesChildren(st, id);
      var grandchildren := NextLevel(st.nodes, NextLevel(st.nodes, {id}));
      var x := HasElement(grandchildren);
      LeftBehind(st, SqlDelete(st, id, now).0, x);
    } else {
      hide Forest, Delete, SqlDelete, Cut;
      ForestDeleteIff(st, st, id, now);
      DeleteKeepsForest(st, id);
      SameForest(Delete(st, id).0, SqlDelete(st, id, now).0);
    }
  }

  lemma LeftBehind(st: Store, after: Store, x: int)
    requires Forest(st) && Live(after.nodes, x) && after.nodes[x].node.parentId in st.nodes
    requires !Live(after.nodes, after.nodes[x].node.parentId)
    ensures !Forest(after)
  {
    assert Forest(after) ==> Attached(after.nodes, after.nodes[x]);
  }

  // ----- Runs -----

  datatype Answer = NodeAnswer(node: Result<Node, Error>) | CountAnswer(count: Result<nat, Error>)
      | MoveAnswer(err: Option<Error>)

  ghost function MemAnswer(rules: Rules, st: Store, op: Op): Answer {
    match op
    case OpPut(input, now) => NodeAnswer(Put(rules, st, input, now).1)
    case OpUpdate(id, title, data, sv, now) => NodeAnswer(Update(rules, st, id, title, data, sv, now).1)
    case OpDelete(id, _) => CountAnswer(Delete(st, id).1)
    case OpMove(id, parentId) => MoveAnswer(Move(st, id, parentId).1)
  }

  ghost function SqlAnswer(rules: Rules, st: Store, op: Op): Answer {
    match op
    case OpPut(input, now) => NodeAnswer(SqlPut(rules, st, input, now).1)
    case OpUpdate(id, title, data, sv, now) => NodeAnswer(SqlUpdate(rules, st, id, title, data, sv, now).1)
    case OpDelete(id, now) => CountAnswer(SqlDelete(st, id, now).1)
    case OpMove(id, parentId) => MoveAnswer(Move(st, id, parentId).1)
  }

  ghost function SqlApply(rules: Rules, st: Store, op: Op): Store {
    match op
    case OpPut(input, now) => SqlPut(rules, st, input, now).0
    case OpUpdate(id, title, data, sv, now) => SqlUpdate(rules, st, id, title, data, sv, now).0
    case OpDelete(id, now) => SqlDelete(st, id, now).0
    case OpMove(id, parentId) => Move(st, id, parentId).0
  }

  ghost function SqlRun(rules: Rules, st: Store, ops: seq<Op>): Store
    decreases |ops|
  {
    if ops == [] then st else SqlRun(rules, SqlApply(rules, st, ops[0]), ops[1..])
  }

  /** The nodes that can be seen are the same, times included. */
  ghost predicate Shows(a: Nodes, b: Nodes) {
    forall k :: Live(a, k) ==> k in b && b[k] == a[k]
  }

  /** The stores agree on everything but the times, or, with the times, also on those that can be seen. */
  ghost predicate Agree(times: bool, a: Store, b: Store) {
    Same(a, b) && (times ==> Shows(a.nodes, b.nodes))
  }

  /** The calls on which the stores part: a late refusal, and a delete that MySQL cuts off. */
  ghost predicate OpParts(rules: Rules, st: Store, op: Op) {
    match op
    case OpUpdate(id, _, data, schemaVersion, _) => NewData(rules, st.nodes, id, data) && BadVersion(schemaVersion)
    case OpDelete(id, _) => Live(st.nodes, id) && Cut(st.nodes, id)
    case _ => false
  }

  /** The calls that write nothing new at a new time. */
  ghost predicate OnlyTime(rules: Rules, st: Store, op: Op) {
    match op
    case OpPut(input, now) =>
      var clean := CheckPut(rules, st.nodes, input);
      clean.Ok? && !PutKeepsTime(st.nodes, input, clean.value, now)
    case OpUpdate(id, title, data, schemaVersion, now) =>
      && Live(st.nodes, id) && ArgumentsValid(rules, data, schemaVersion)
      && SetsNothing(rules, st.nodes[id].node, title, data, schemaVersion)
      && st.nodes[id].node.updatedAt != now
    case _ => false
  }

  ghost predicate Splits(times: bool, rules: Rules, st: Store, op: Op) {
    OpParts(rules, st, op) || (times && OnlyTime(rules, st, op))
  }

  /** No call of the run is one on which the stores part. */
  ghost predicate RunTogether(times: bool, rules: Rules, st: Store, ops: seq<Op>)
    decreases |ops|
  {
    ops != [] ==>
      !Splits(times, rules, st, ops[0]) && RunTogether(times, rules, Apply(rules, st, ops[0]), ops[1..])
  }

  /** The stores agree before and after every call of the run. */
  ghost predicate AgreeThroughout(times: bool, rules: Rules, a: Store, b: Store, ops: seq<Op>)
    decreases |ops|
  {
    && Agree(times, a, b)
    && (ops != [] ==> AgreeThroughout(times, rules, Apply(rules, a, ops[0]), SqlApply(rules, b, ops[0]), ops[1..]))
  }

  /**
   * The same answer, up to the time or with it; a failed update may give another error, and UpdateErrorIff says
   * when.
   */
  predicate Alike(times: bool, op: Op, mem: Answer, sql: Answer) {
    match op
    case OpPut(_, _) => mem.NodeAnswer? && sql.NodeAnswer? && SameResult(mem.node, sql.node) && (times ==> mem == sql)
    case OpUpdate(_, _, _, _, _) =>
      && mem.NodeAnswer? && sql.NodeAnswer?
      && (if mem.node.Ok? then SameResult(mem.node, sql.node) && (times ==> mem == sql) else sql.node.Err?)
    case _ => mem == sql
  }

  lemma PutAgrees(rules: Rules, a: Store, b: Store, input: NodeInput, now: string)
    requires Agree(true, a, b) && Unique(a.nodes)
    ensures var timed := OnlyTime(rules, a, OpPut(input, now));
            && (Shows(Put(rules, a, input, now).0.nodes, SqlPut(rules, b, input, now).0.nodes) <==> !timed)
            && (!timed ==> SqlPut(rules, b, input, now).1 == Put(rules, a, input, now).1)
  {
    SameUnique(a.nodes, b.nodes);
    assert CheckPut(rules, a.nodes, input) == CheckPut(rules, b.nodes, input);
    var checked := CheckPut(rules, a.nodes, input);
    if checked.Ok? {
      var clean := checked.value;
      if Taken(a.nodes, input.parentId, clean.0) {
        var k := Holder(a.nodes, input.parentId, clean.0);
        HolderIs(b.nodes, input.parentId, clean.0, k);
        OverwriteAgrees(a.nodes, b.nodes, k, input, clean, now);
      } else {
        assert !Taken(b.nodes, input.parentId, clean.0);
        assert PutKeepsTime(a.nodes, input, clean, now);
      }
    }
  }

  lemma OverwriteAgrees(a: Nodes, b: Nodes, k: int, input: NodeInput, clean: (string, string, int), now: string)
    requires SameNodes(a, b) && Shows(a, b) && Unique(a) && k in a && Takes(a[k], input.parentId, clean.0)
    ensures var n, m := Overwritten(a[k], input, clean, now), Upserted(b[k], input, clean, now);
            && (Shows(a[k := n], b[k := m]) <==> PutKeepsTime(a, input, clean, now))
            && (PutKeepsTime(a, input, clean, now) ==> m == n)
  {
    var n, m := Overwritten(a[k], input, clean, now), Upserted(b[k], input, clean, now);
    UpsertTimeIff(b[k], input, clean, now);
    assert Overwritten(b[k], input, clean, now) == n;
    forall j | j in a && Takes(a[j], input.parentId, clean.0)
      ensures j == k
    {
      assert Takes(a[j], a[k].node.parentId, a[k].node.slug);
    }
    assert PutKeepsTime(a, input, clean, now) <==> m == n;
    assert Live(a[k := n], k) && a[k := n][k] == n && b[k := m][k] == m;
    if m == n {
      forall j | j in a && Live(a[k := n], j)
        ensures j in b[k := m] && b[k := m][j] == a[k := n][j]
      {
        assert j != k ==> Live(a, j);
      }
    }
  }

  lemma UpdateAgrees(rules: Rules, a: Store, b: Store, id: int, title: Option<string>, data: Option<string>,
                     schemaVersion: Option<int>, now: string)
    requires Agree(true, a, b) && !OpParts(rules, a, OpUpdate(id, title, data, schemaVersion, now))
    ensures var mem, sql := Update(rules, a, id, title, data, schemaVersion, now),
        SqlUpdate(rules, b, id, title, data, schemaVersion, now);
            var timed := OnlyTime(rules, a, OpUpdate(id, title, data, schemaVersion, now));
            && (Shows(mem.0.nodes, sql.0.nodes) <==> !timed)
            && (!timed && mem.1.Ok? ==> sql.1 == mem.1)
  {
    if Live(a.nodes, id) && ArgumentsValid(rules, data, schemaVersion) {
      assert b.nodes[id] == a.nodes[id];
      var mem := Update(rules, a, id, title, data, schemaVersion, now).0;
      assert Live(mem.nodes, id) && mem.nodes[id].node.updatedAt == now;
    } else {
      hide SqlUpdate;
      UpdateSucceedsIff(rules, a, b, id, title, data, schemaVersion, now);
      FailedUpdateIsCleanIff(rules, a, id, title, data, schemaVersion, now);
      FailedSqlUpdate(rules, b, id, title, data, schemaVersion, now);
    }
  }

  lemma FailedSqlUpdate(rules: Rules, b: Store, id: int, title: Option<string>, data: Option<string>,
                        schemaVersion: Option<int>, now: string)
    ensures var (after, r) := SqlUpdate(rules, b, id, title, data, schemaVersion, now); r.Err? ==> after == b
  {
  }

  lemma DeleteAgrees(a: Store, b: Store, id: int, now: string)
    requires Agree(true, a, b) && Same(Delete(a, id).0, SqlDelete(b, id, now).0)
    ensures Agree(true, Delete(a, id).0, SqlDelete(b, id, now).0)
  {
    hide Subtree, Collected;
  }

  lemma MoveAgrees(a: Store, b: Store, id: int, parentId: int)
    requires Agree(true, a, b) && Same(Move(a, id, parentId).0, Move(b, id, parentId).0)
    requires Move(a, id, parentId).1 == Move(b, id, parentId).1
    ensures Agree(true, Move(a, id, parentId).0, Move(b, id, parentId).0)
  {
    if Live(a.nodes, id) {
      assert b.nodes[id] == a.nodes[id];
    }
  }

  /** A call on agreeing stores leaves them agreeing exactly when it is not one of those, and then is answered alike. */
  lemma StepTogetherIff(times: bool, rules: Rules, a: Store, b: Store, op: Op)
    requires Agree(times, a, b) && Forest(a)
    ensures Agree(times, Apply(rules, a, op), SqlApply(rules, b, op)) <==> !Splits(times, rules, a, op)
    ensures !Splits(times, rules, a, op) ==> Alike(times, op, MemAnswer(rules, a, op), SqlAnswer(rules, b, op))
  {
    hide Forest, Put, SqlPut, Update, SqlUpdate, Delete, SqlDelete, Move, PutKeepsTime, SetsNothing, Cut;
    match op
    case OpPut(input, now) =>
      ForestIsValid(a);
      PutSame(rules, a, b, input, now);
      if times {
        PutAgrees(rules, a, b, input, now);
      }
    case OpUpdate(id, title, data, sv, now) =>
      UpdateSameIff(rules, a, b, id, title, data, sv, now);
      UpdateSucceedsIff(rules, a, b, id, title, data, sv, now);
      if times && !OpParts(rules, a, op) {
        UpdateAgrees(rules, a, b, id, title, data, sv, now);
      }
    case OpDelete(id, now) =>
      if Live(a.nodes, id) {
        ForestDeleteIff(a, b, id, now);
      } else {
        MissingDelete(a, b, id, now);
      }
      if times && !OpParts(rules, a, op) {
        DeleteAgrees(a, b, id, now);
      }
    case OpMove(id, parentId) =>
      ForestIsValid(a);
      MoveSame(a, b, id, parentId);
      if times {
        MoveAgrees(a, b, id, parentId);
      }
  }

  lemma ForestIsValid(a: Store)
    requires Forest(a)
    ensures Numbered(a) && Unique(a.nodes)
  {
  }

  lemma MissingDelete(a: Store, b: Store, id: int, now: string)
    requires Same(a, b) && !Live(a.nodes, id)
    ensures Delete(a, id) == (a, Err(NotFound)) && SqlDelete(b, id, now) == (b, Err(NotFound))
  {
  }

  lemma {:induction false} RunsTogetherIff(times: bool, rules: Rules, a: Store, b: Store, ops: seq<Op>)
    requires Agree(times, a, b) && Forest(a) && RunAllowed(rules, a, ops)
    ensures AgreeThroughout(times, rules, a, b, ops) <==> RunTogether(times, rules, a, ops)
    ensures RunTogether(times, rules, a, ops) ==> Agree(times, Run(rules, a, ops), SqlRun(rules, b, ops))
    decreases |ops|
  {
    if ops != [] {
      hide Agree, Forest, OpAllowed, Splits, Apply, SqlApply;
      StepTogetherIff(times, rules, a, b, ops[0]);
      StepKeepsForest(rules, a, ops[0]);
      if Splits(times, rules, a, ops[0]) {
        NotThroughout(times, rules, Apply(rules, a, ops[0]), SqlApply(rules, b, ops[0]), ops[1..]);
      } else {
        RunsTogetherIff(times, rules, Apply(rules, a, ops[0]), SqlApply(rules, b, ops[0]), ops[1..]);
      }
    }
  }

  lemma NotThroughout(times: bool, rules: Rules, a: Store, b: Store, ops: seq<Op>)
    requires !Agree(times, a, b)
    ensures !AgreeThroughout(times, rules, a, b, ops)
  {
  }

  /**
   * The refinement, over every run from an empty store whose moves have allowed targets. The table holds what
   * memory holds after every call exactly when no call is a late refusal or a delete that is cut off; with the
   * times, when also no call writes nothing new at a new time. Then the next such call is answered alike.
   */
  lemma MysqlRunsAsMemory(times: bool, rules: Rules, ops: seq<Op>, next: Op)
    requires RunAllowed(rules, EMPTY, ops)
    ensures AgreeThroughout(times, rules, EMPTY, EMPTY, ops) <==> RunTogether(times, rules, EMPTY, ops)
    ensures RunTogether(times, rules, EMPTY, ops) ==>
              var mem, sql := Run(rules, EMPTY, ops), SqlRun(rules, EMPTY, ops);
              && Agree(times, mem, sql)
              && (!Splits(times, rules, mem, next) ==>
                    Alike(times, next, MemAnswer(rules, mem, next), SqlAnswer(rules, sql, next)))
  {
    RunsTogetherIff(times, rules, EMPTY, EMPTY, ops);
    RunFromEmpty(rules, ops);
    if RunTogether(times, rules, EMPTY, ops) {
      StepTogetherIff(times, rules, Run(rules, EMPTY, ops), SqlRun(rules, EMPTY, ops), next);
    }
  }

  // ----- Small stores -----

  ghost predicate NoLateRefusal(rules: Rules, st: Store, ops: seq<Op>)
    decreases |ops|
  {
    ops != [] ==>
      && !(ops[0].OpUpdate? && OpParts(rules, st, ops[0]))
      && NoLateRefusal(rules, Apply(rules, st, ops[0]), ops[1..])
  }

  lemma RunKeepsKeys(rules: Rules, st: Store, ops: seq<Op>)
    requires Forest(st) && RunAllowed(rules, st, ops)
    ensures st.nodes.Keys <= Run(rules, st, ops).nodes.Keys
  {
    forall k | k in st.nodes
      ensures k in Run(rules, st, ops).nodes
    {
      TypesNeverChange(rules, st, ops, k);
    }
  }

  lemma SmallIsNotCut(st: Store, id: int)
    requires Forest(st) && Live(st.nodes, id) && |st.nodes| < LIMIT
    ensures !Cut(st.nodes, id)
  {
    hide Forest, NextLevel, Subtree, OnCycle;
    ForestHasNoCycle(st, id);
    OffCycleNoReturn(st.nodes, id, 1);
    CountIff(st.nodes, id, 1);
    ReachWithin(st.nodes, id, 1);
    SubsetSize(Reach(st.nodes, id, 1), st.nodes.Keys);
    LevelsOfCut(st.nodes, id);
  }

  /** A run that never has 100000 nodes cuts off no delete. */
  lemma {:induction false} SmallRunTogether(rules: Rules, st: Store, ops: seq<Op>)
    requires Forest(st) && RunAllowed(rules, st, ops)
    requires |Run(rules, st, ops).nodes| < LIMIT
    ensures RunTogether(false, rules, st, ops) <==> NoLateRefusal(rules, st, ops)
    decreases |ops|
  {
    if ops != [] {
      hide Forest, Apply, OpAllowed, Cut, NewData, BadVersion;
      RunKeepsKeys(rules, st, ops);
      SubsetSize(st.nodes.Keys, Run(rules, st, ops).nodes.Keys);
      if ops[0].OpDelete? && Live(st.nodes, ops[0].id) {
        SmallIsNotCut(st, ops[0].id);
      }
      StepKeepsForest(rules, st, ops[0]);
      SmallRunTogether(rules, Apply(rules, st, ops[0]), ops[1..]);
    }
  }

  /** For stores under 100000 nodes the late refusal is the only difference. */
  lemma SmallStoresAgree(rules: Rules, ops: seq<Op>)
    requires RunAllowed(rules, EMPTY, ops) && |Run(rules, EMPTY, ops).nodes| < LIMIT
    ensures AgreeThroughout(false, rules, EMPTY, EMPTY, ops) <==> NoLateRefusal(rules, EMPTY, ops)
  {
    SmallRunTogether(rules, EMPTY, ops);
    RunsTogetherIff(false, rules, EMPTY, EMPTY, ops);
  }

  // ----- Listing -----

  /** Nodes with greater ids are not older. */
  ghost predicate Aged(nodes: Nodes, ids: set<int>) {
    forall j, k :: j in ids && k in ids && j > k ==> !Before(Created(nodes, j), Created(nodes, k))
  }

  /**
   * Memory lists by id and MySQL by time: the same order exactly when, among the nodes that are listed, the clock
   * has never gone back.
   */
  lemma ListingSameIff(a: Store, b: Store, parent: int, typ: string)
    requires Same(a, b)
    ensures LatestFirst(b.nodes, parent, typ) == NewestFirst(a.nodes, parent, typ)
       <==> Aged(a.nodes, ChildIds(a.nodes, parent, typ))
  {
    hide Sorted, Before, Newer, Created, Order;
    var ids := ChildIds(a.nodes, parent, typ);
    SameChildIds(a, b, parent, typ);
    NewerIsOrder(b.nodes);
    AboveIsOrder();
    SameOrderIff(ids, Above, Newer(b.nodes));
    forall j, k | j in ids && k in ids && j > k
      ensures Newer(b.nodes)(j, k) <==> !Before(Created(a.nodes, j), Created(a.nodes, k))
    {
      NewerIff(a, b, j, k);
    }
  }

  lemma SameChildIds(a: Store, b: Store, parent: int, typ: string)
    requires Same(a, b)
    ensures ChildIds(a.nodes, parent, typ) == ChildIds(b.nodes, parent, typ)
  {
    assert forall k :: k in ChildIds(a.nodes, parent, typ) <==> k in ChildIds(b.nodes, parent, typ);
  }

  lemma NewerIff(a: Store, b: Store, j: int, k: int)
    requires Same(a, b) && j > k
    ensures Newer(b.nodes)(j, k) <==> !Before(Created(a.nodes, j), Created(a.nodes, k))
  {
    assert Created(b.nodes, j) == Created(a.nodes, j) && Created(b.nodes, k) == Created(a.nodes, k);
    OneBefore(Created(a.nodes, j), Created(a.nodes, k));
  }

  /** The puts are made at times that never go back, nor before those of the nodes that are there. */
  ghost predicate ClockRises(nodes: Nodes, ops: seq<Op>) {
    && (forall k, i :: k in nodes && 0 <= i < |ops| && ops[i].OpPut? ==> !Before(ops[i].now, nodes[k].node.createdAt))
    && forall i, j :: 0 <= i < j < |ops| && ops[i].OpPut? && ops[j].OpPut? ==> !Before(ops[j].now, ops[i].now)
  }

  /** The time of creation is set once, by the put that adds the node. */
  lemma StepCreated(rules: Rules, st: Store, op: Op, k: int)
    requires Numbered(st)
    ensures var after := Apply(rules, st, op).nodes;
            && (k in st.nodes ==> k in after && after[k].node.createdAt == st.nodes[k].node.createdAt)
            && (k in after && k !in st.nodes ==> k > st.nextId && op.OpPut? && after[k].node.createdAt == op.now)
  {
  }

  lemma StepAges(rules: Rules, st: Store, op: Op, rest: seq<Op>)
    requires Numbered(st) && Aged(st.nodes, st.nodes.Keys) && ClockRises(st.nodes, [op] + rest)
    ensures var after := Apply(rules, st, op).nodes; Aged(after, after.Keys) && ClockRises(after, rest)
  {
    hide Apply;
    var all, after := [op] + rest, Apply(rules, st, op).nodes;
    assert all[0] == op && forall i :: 0 <= i < |rest| ==> all[i + 1] == rest[i];
    forall j, k | j in after && k in after && j > k
      ensures !Before(Created(after, j), Created(after, k))
    {
      StepCreated(rules, st, op, j);
      StepCreated(rules, st, op, k);
      OneBefore(Created(after, j), Created(after, k));
    }
    forall k, i | k in after && 0 <= i < |rest| && rest[i].OpPut?
      ensures !Before(rest[i].now, after[k].node.createdAt)
    {
      StepCreated(rules, st, op, k);
      assert all[i + 1] == rest[i];
    }
    forall i, j | 0 <= i < j < |rest| && rest[i].OpPut? && rest[j].OpPut?
      ensures !Before(rest[j].now, rest[i].now)
    {
      assert all[i + 1] == rest[i] && all[j + 1] == rest[j];
    }
  }

  lemma {:induction false} RunAges(rules: Rules, st: Store, ops: seq<Op>)
    requires Forest(st) && RunAllowed(rules, st, ops) && Aged(st.nodes, st.nodes.Keys) && ClockRises(st.nodes, ops)
    ensures var after := Run(rules, st, ops).nodes; Aged(after, after.Keys)
    decreases |ops|
  {
    if ops != [] {
      hide Forest, Apply, OpAllowed, Aged, ClockRises;
      ForestIsValid(st);
      assert ops == [ops[0]] + ops[1..];
      StepAges(rules, st, ops[0], ops[1..]);
      StepKeepsForest(rules, st, ops[0]);
      RunAges(rules, Apply(rules, st, ops[0]), ops[1..]);
    }
  }

  /** While the stores agree and the clock does not go back, they list the same children in the same order. */
  lemma MysqlListsAsMemory(rules: Rules, ops: seq<Op>, parent: int, typ: string)
    requires RunAllowed(rules, EMPTY, ops) && RunTogether(false, rules, EMPTY, ops) && ClockRises(map[], ops)
    ensures LatestFirst(SqlRun(rules, EMPTY, ops).nodes, parent, typ)
         == NewestFirst(Run(rules, EMPTY, ops).nodes, parent, typ)
  {
    MysqlRunsAsMemory(false, rules, ops, OpMove(0, 0));
    RunAges(rules, EMPTY, ops);
    ListingSameIff(Run(rules, EMPTY, ops), SqlRun(rules, EMPTY, ops), parent, typ);
  }
}
