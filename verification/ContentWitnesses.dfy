/** The failing inputs of the content stores are reachable: short runs from an empty store. */
module ContentWitnesses {
  import opened Wrappers
  import opened Sets
  import opened Content
  import opened MemStore
  import opened ContentInvariants
  import opened MysqlStore
  import opened MysqlRefinement

  /** Any module, and any detail for the first node. */
  predicate ModuleAndDetail(rules: Rules, m: NodeInput, d: NodeInput) {
    && m.parentId == 0 && m.typ == MODULE && CheckPut(rules, map[], m).Ok?
    && d.parentId == 1 && d.typ == DETAIL && rules.slug(d.slug).Some? && rules.data(d.data).Some?
      && d.schemaVersion >= 0
  }

  lemma FirstModule(rules: Rules, m: NodeInput, now: string) returns (n: MemNode)
    requires m.parentId == 0 && m.typ == MODULE && CheckPut(rules, map[], m).Ok?
    ensures Apply(rules, EMPTY, OpPut(m, now)) == Store(1, map[1 := n])
    ensures !n.deleted && n.node.id == 1 && n.node.parentId == 0 && n.node.typ == MODULE
    ensures Some(n.node.data) == rules.data(m.data)
  {
    n := NewNode(1, m, CheckPut(rules, map[], m).value, now);
    assert map[][1 := n] == map[1 := n];
  }

  lemma DetailBelow(rules: Rules, n: MemNode, d: NodeInput, now: string) returns (k: MemNode)
    requires !n.deleted && n.node.id == 1 && n.node.parentId == 0 && n.node.typ == MODULE
    requires d.parentId == 1 && d.typ == DETAIL && rules.slug(d.slug).Some? && rules.data(d.data).Some?
        && d.schemaVersion >= 0
    ensures Apply(rules, Store(1, map[1 := n]), OpPut(d, now)) == Store(2, map[1 := n, 2 := k])
    ensures !k.deleted && k.node.id == 2 && k.node.parentId == 1 && k.node.typ == DETAIL
  {
    var nodes := map[1 := n];
    k := NewNode(2, d, CheckPut(rules, nodes, d).value, now);
    assert !Taken(nodes, 1, k.node.slug);
    assert nodes[2 := k] == map[1 := n, 2 := k];
  }

  lemma {:induction false} RunLast(rules: Rules, st: Store, ops: seq<Op>, op: Op)
    ensures Run(rules, st, ops + [op]) == Apply(rules, Run(rules, st, ops), op)
    ensures SqlRun(rules, st, ops + [op]) == SqlApply(rules, SqlRun(rules, st, ops), op)
    decreases |ops|
  {
    hide Apply, SqlApply;
    if ops == [] {
      assert (ops + [op])[1..] == [];
    } else {
      assert (ops + [op])[1..] == ops[1..] + [op];
      RunLast(rules, Apply(rules, st, ops[0]), ops[1..], op);
      RunLast(rules, SqlApply(rules, st, ops[0]), ops[1..], op);
    }
  }

  lemma RunOfTwo(rules: Rules, a: Op, b: Op)
    ensures Run(rules, EMPTY, [a, b]) == Apply(rules, Apply(rules, EMPTY, a), b)
  {
    RunLast(rules, EMPTY, [], a);
    RunLast(rules, EMPTY, [a], b);
    assert [] + [a] == [a] && [a] + [b] == [a, b];
  }

  lemma RunOfThree(rules: Rules, a: Op, b: Op, c: Op)
    ensures Run(rules, EMPTY, [a, b, c]) == Apply(rules, Apply(rules, Apply(rules, EMPTY, a), b), c)
  {
    RunOfTwo(rules, a, b);
    RunLast(rules, EMPTY, [a, b], c);
    assert [a, b] + [c] == [a, b, c];
  }

  lemma NoForestOnCycle(st: Store, id: int)
    requires OnCycle(st.nodes, id)
    ensures !Forest(st)
  {
    if Forest(st) {
      ForestHasNoCycle(st, id);
    }
  }

  /** A node that is its own only child: one node, found again and again until the limit. */
  lemma LoopCounts(nodes: Nodes, now: string)
    requires nodes.Keys == {1, 2} && !nodes[2].deleted && nodes[2].node.parentId == 2 && nodes[1].node.parentId != 2
    ensures OnCycle(nodes, 2)
    ensures Subtree(nodes, 2) == {2} && Collected(nodes, {2}, {2}, 1) == ({2}, LIMIT)
  {
    SubtreeTop(nodes, 2);
    assert Below(nodes, 2, 2) && LiveChild(nodes, 2, 2);
    forall x | x in Subtree(nodes, 2)
      ensures x == 2
    {
      var path :| Walk(nodes, path) && path[0] == 2 && path[|path| - 1] == x;
      ClosedHasWalk(nodes, {2}, path);
    }
    LoopCollects(nodes, 1);
  }

  lemma {:induction false} LoopCollects(nodes: Nodes, count: nat)
    requires nodes.Keys == {1, 2} && !nodes[2].deleted && nodes[2].node.parentId == 2 && nodes[1].node.parentId != 2
    requires count <= LIMIT
    ensures Collected(nodes, {2}, {2}, count) == ({2}, LIMIT)
    decreases LIMIT - count
  {
    if count < LIMIT {
      assert NextLevel(nodes, {2}) == {2};
      assert {2} + {2} == {2};
      LoopCollects(nodes, count + 1);
    }
  }

  /** Valid data with version -1: the update is refused, memory keeps the data, and MySQL does not. */
  lemma LateRefusalReachable(rules: Rules, m: NodeInput, data: string, now: string)
    requires m.parentId == 0 && m.typ == MODULE && CheckPut(rules, map[], m).Ok?
    requires rules.data(data).Some? && rules.data(data) != rules.data(m.data)
    ensures var st := Run(rules, EMPTY, [OpPut(m, now)]);
            var after, r := Update(rules, st, 1, None, Some(data), Some(-1), now).0,
              Update(rules, st, 1, None, Some(data), Some(-1), now).1;
            && r == Err(BadSchemaVersion)
            && 1 in after.nodes && Some(after.nodes[1].node.data) == rules.data(data)
            && SqlUpdate(rules, st, 1, None, Some(data), Some(-1), now) == (st, r)
  {
    var n := FirstModule(rules, m, now);
    assert [OpPut(m, now)][1..] == [];
    assert Run(rules, EMPTY, [OpPut(m, now)]) == Run(rules, Apply(rules, EMPTY, OpPut(m, now)), []);
  }

  /**
   * A detail moved under itself: the move succeeds, the tree is no forest any more, and the two stores report
   * different counts for its deletion.
   */
  lemma BadMoveReachable(rules: Rules, m: NodeInput, d: NodeInput, now: string)
    requires ModuleAndDetail(rules, m, d)
    ensures var st := Run(rules, EMPTY, [OpPut(m, now), OpPut(d, now)]);
            var bad := Run(rules, EMPTY, [OpPut(m, now), OpPut(d, now), OpMove(2, 2)]);
            && Forest(st) && Move(st, 2, 2) == (bad, None)
            && !Forest(bad) && OnCycle(bad.nodes, 2)
            && Delete(bad, 2).1 == Ok(1) && SqlDelete(bad, 2, now).1 == Ok(LIMIT)
  {
    var n := FirstModule(rules, m, now);
    var k := DetailBelow(rules, n, d, now);
    RunOfThree(rules, OpPut(m, now), OpPut(d, now), OpMove(2, 2));
    RunOfTwo(rules, OpPut(m, now), OpPut(d, now));
    var st := Store(2, map[1 := n, 2 := k]);
    PutKeepsForest(rules, EMPTY, m, now);
    PutKeepsForest(rules, Store(1, map[1 := n]), d, now);
    var loop := k.(node := k.node.(parentId := 2));
    assert !Taken(st.nodes, 2, k.node.slug);
    assert st.nodes[2 := loop] == map[1 := n, 2 := loop];
    LoopCounts(map[1 := n, 2 := loop], now);
    NoForestOnCycle(Store(2, map[1 := n, 2 := loop]), 2);
  }

  // ----- An oversized delete -----

  /** k in binary: a different slug for every k. */
  function Bits(k: nat): string {
    if k == 0 then "" else Bits(k / 2) + [if k % 2 == 0 then '0' else '1']
  }

  lemma {:induction false} BitsDiffer(j: nat, k: nat)
    requires Bits(j) == Bits(k)
    ensures j == k
  {
    if j > 0 && k > 0 {
      assert Bits(j)[..|Bits(j)| - 1] == Bits(j / 2) && Bits(k)[..|Bits(k)| - 1] == Bits(k / 2);
      assert Bits(j)[|Bits(j)| - 1] == Bits(k)[|Bits(k)| - 1];
      BitsDiffer(j / 2, k / 2);
    }
  }

  /** The rules accept these slugs and an empty object as they are. */
  ghost predicate Plain(rules: Rules) {
    rules.data("{}") == Some("{}") && forall k: nat :: k > 0 ==> rules.slug(Bits(k)) == Some(Bits(k))
  }

  /** The first put is a module, the later ones are details of it. */
  function WideInput(k: nat): NodeInput {
    NodeInput(if k == 1 then 0 else 1, if k == 1 then MODULE else DETAIL, Bits(k), "", "{}", 1)
  }

  function WideNodes(n: nat, now: string): Nodes {
    map k: int | 1 <= k <= n :: NewNode(k, WideInput(k), (Bits(k), "{}", 1), now)
  }

  function WideOps(n: nat, now: string): seq<Op> {
    if n == 0 then [] else WideOps(n - 1, now) + [OpPut(WideInput(n), now)]
  }

  lemma {:induction false} WideRun(rules: Rules, n: nat, now: string)
    requires Plain(rules)
    ensures Run(rules, EMPTY, WideOps(n, now)) == Store(n, WideNodes(n, now))
    ensures SqlRun(rules, EMPTY, WideOps(n, now)) == Store(n, WideNodes(n, now))
  {
    if n > 0 {
      hide Run, SqlRun;
      WideRun(rules, n - 1, now);
      RunLast(rules, EMPTY, WideOps(n - 1, now), OpPut(WideInput(n), now));
      var nodes := WideNodes(n - 1, now);
      forall k | k in nodes
        ensures !Takes(nodes[k], WideInput(n).parentId, Bits(n))
      {
        if Bits(k) == Bits(n) {
          BitsDiffer(k, n);
        }
      }
      assert nodes[n := NewNode(n, WideInput(n), (Bits(n), "{}", 1), now)] == WideNodes(n, now);
    } else {
      assert WideNodes(0, now) == map[];
    }
  }

  /** A block under the first detail. */
  const BLOCK_INPUT := NodeInput(2, BLOCK, Bits(1), "", "{}", 1)

  function WideStore(now: string): Store {
    Store(LIMIT + 1,
          WideNodes(LIMIT, now)[LIMIT + 1 := NewNode(LIMIT + 1, BLOCK_INPUT, (Bits(1), "{}", 1), now)])
  }

  lemma WideStoreReached(rules: Rules, now: string)
    requires Plain(rules)
    ensures var ops := WideOps(LIMIT, now) + [OpPut(BLOCK_INPUT, now)];
            && Run(rules, EMPTY, ops) == SqlRun(rules, EMPTY, ops) == WideStore(now)
            && RunAllowed(rules, EMPTY, ops)
  {
    hide Run, SqlRun, RunAllowed;
    WideRun(rules, LIMIT, now);
    RunLast(rules, EMPTY, WideOps(LIMIT, now), OpPut(BLOCK_INPUT, now));
    var nodes := WideNodes(LIMIT, now);
    assert 2 in nodes && nodes[2].node.typ == DETAIL;
    assert !Taken(nodes, 2, Bits(1));
    OnlyPuts(LIMIT, now);
    PutsAllowed(rules, EMPTY, WideOps(LIMIT, now) + [OpPut(BLOCK_INPUT, now)]);
  }

  lemma {:induction false} OnlyPuts(n: nat, now: string)
    ensures forall op :: op in WideOps(n, now) ==> op.OpPut?
  {
    if n > 0 {
      OnlyPuts(n - 1, now);
    }
  }

  lemma {:induction false} PutsAllowed(rules: Rules, st: Store, ops: seq<Op>)
    requires forall op :: op in ops ==> op.OpPut?
    ensures RunAllowed(rules, st, ops)
    decreases |ops|
  {
    if ops != [] {
      hide Apply;
      assert ops[0] in ops;
      PutsAllowed(rules, Apply(rules, st, ops[0]), ops[1..]);
    }
  }

  lemma WideLinks(now: string, p: int, k: int)
    ensures k in WideStore(now).nodes <==> 1 <= k <= LIMIT + 1
    ensures LiveChild(WideStore(now).nodes, p, k)
       <==> (k == 1 && p == 0) || (2 <= k <= LIMIT && p == 1) || (k == LIMIT + 1 && p == 2)
  {
  }

  lemma WideLevels(now: string)
    ensures var nodes := WideStore(now).nodes;
            && Live(nodes, 1) && Live(nodes, 2) && Live(nodes, LIMIT + 1)
            && 2 in NextLevel(nodes, {1}) && |NextLevel(nodes, {1})| == LIMIT - 1
            && NextLevel(nodes, NextLevel(nodes, {1})) == {LIMIT + 1}
            && 1 !in NextLevel(nodes, {1}) && LIMIT + 1 !in {1} + NextLevel(nodes, {1})
  {
    hide WideStore;
    var nodes := WideStore(now).nodes;
    var kids := NextLevel(nodes, {1});
    WideLinks(now, 0, 1);
    WideLinks(now, 1, 2);
    WideLinks(now, 2, LIMIT + 1);
    forall k
      ensures k in kids <==> 2 <= k <= LIMIT
    {
      WideLinks(now, 1, k);
    }
    forall k
      ensures k in NextLevel(nodes, kids) <==> k == LIMIT + 1
    {
      if Live(nodes, k) {
        WideLinks(now, nodes[k].node.parentId, k);
      }
      WideLinks(now, 2, k);
    }
    RangeSize({1} + kids, LIMIT);
  }

  /**
   * A module with 99999 details and one block: memory deletes all 100001 nodes; MySQL stops at 100000, leaves the
   * block alive under its deleted detail, and the table is no forest any more.
   */
  lemma OversizedDeleteReachable(rules: Rules, now: string)
    requires Plain(rules)
    ensures var ops := WideOps(LIMIT, now) + [OpPut(BLOCK_INPUT, now)];
            var mem, sql := Run(rules, EMPTY, ops), SqlRun(rules, EMPTY, ops);
            && Forest(mem) && mem == sql && Cut(mem.nodes, 1)
            && Delete(mem, 1).1 == Ok(LIMIT + 1) && Forest(Delete(mem, 1).0)
            && SqlDelete(sql, 1, now).1 == Ok(LIMIT) && !Forest(SqlDelete(sql, 1, now).0)
            && Live(SqlDelete(sql, 1, now).0.nodes, LIMIT + 1) && !Live(SqlDelete(sql, 1, now).0.nodes, 2)
  {
    hide Forest, NextLevel, Run, SqlRun, WideStore, WideOps, Subtree, Collected;
    WideStoreReached(rules, now);
    RunFromEmpty(rules, WideOps(LIMIT, now) + [OpPut(BLOCK_INPUT, now)]);
    WideLevels(now);
    var st := WideStore(now);
    CutTakesChildren(st, 1);
    SqlDeleteKeepsForestIff(st, 1, now);
    DeleteKeepsForest(st, 1);
    ForestSubtree(st, 1);
    SizeOfSum({1}, NextLevel(st.nodes, {1}));
    SizeOfSum({1} + NextLevel(st.nodes, {1}), {LIMIT + 1});
  }
}
