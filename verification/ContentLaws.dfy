/** What one operation of the content store does to the effect of another. */
module ContentLaws {
  import opened Wrappers
  import opened Content
  import opened MemStore
  import opened ContentInvariants

  // ----- Put -----

  /** The node that a successful put leaves at its place: the cleaned input, alive. */
  predicate Holds(rules: Rules, n: MemNode, input: NodeInput) {
    && !n.deleted
    && n.node.parentId == input.parentId && n.node.typ == input.typ && n.node.title == input.title
    && rules.slug(input.slug) == Some(n.node.slug)
    && rules.data(input.data) == Some(n.node.data)
    && n.node.schemaVersion == (if input.schemaVersion == 0 then 1 else input.schemaVersion) >= 1
  }

  /**
   * A put that succeeds stores the input under the id it returns, and touches no other node. A place that was
   * taken keeps its id and its time of creation; otherwise the id is new.
   */
  lemma PutStores(rules: Rules, st: Store, input: NodeInput, now: string, k: int)
    requires Numbered(st) && Unique(st.nodes) && Put(rules, st, input, now).1.Ok?
    ensures var (st', r) := Put(rules, st, input, now);
            var id := r.value.id;
            && id in st'.nodes && st'.nodes[id].node == r.value && Holds(rules, st'.nodes[id], input)
              && r.value.updatedAt == now
            && (id in st.nodes ==> Takes(st.nodes[id], input.parentId, r.value.slug))
            && (id in st.nodes ==> r.value.createdAt == st.nodes[id].node.createdAt)
            && (id !in st.nodes <==> !Taken(st.nodes, input.parentId, r.value.slug))
            && (k != id ==> (k in st'.nodes <==> k in st.nodes) && (k in st.nodes ==> st'.nodes[k] == st.nodes[k]))
  {
    var clean := CheckPut(rules, st.nodes, input).value;
    if Taken(st.nodes, input.parentId, clean.0) {
      var h := Holder(st.nodes, input.parentId, clean.0);
      assert st.nodes[h].node.id == h;
    }
  }

  /** The three types and where they go: modules at the root, details under modules, blocks under details. */
  predicate FitsUnder(nodes: Nodes, typ: string, p: int) {
    || (typ == "module" && p == 0)
    || (typ == "detail" && p != 0 && p in nodes && nodes[p].node.typ == "module")
    || (typ == "block" && p != 0 && p in nodes && nodes[p].node.typ == "detail")
  }

  /** Which puts succeed, and what the others are refused for: the first of these that applies. */
  lemma PutOutcome(rules: Rules, st: Store, input: NodeInput, now: string)
    ensures var r, slug, p := Put(rules, st, input, now).1, rules.slug(input.slug), input.parentId;
            if slug.None? then r == Err(BadSlug)
            else if rules.data(input.data).None? then r == Err(BadData)
            else if input.schemaVersion < 0 then r == Err(BadSchemaVersion)
            else if p != 0 && !(p in st.nodes && !st.nodes[p].deleted) then r == Err(NotFound)
            else if input.typ == "module" && slug.value == "modules" then r == Err(ReservedSlug)
            else if input.typ != "module" && input.typ != "detail" && input.typ != "block" then r == Err(BadType)
            else if !FitsUnder(st.nodes, input.typ, p) then r == Err(BadParent)
            else r.Ok?
    ensures Put(rules, st, input, now).1.Err? ==> Put(rules, st, input, now).0 == st
  {
  }

  /** In a forest every node is of one of the types and under its like, and no module has the reserved slug. */
  lemma ForestMeans(st: Store, k: int)
    requires Forest(st) && k in st.nodes
    ensures var n := st.nodes[k].node;
            && n.id == k && FitsUnder(st.nodes, n.typ, n.parentId) && (n.typ == "module" ==> n.slug != "modules")
            && (!st.nodes[k].deleted && n.parentId != 0 ==> !st.nodes[n.parentId].deleted)
  {
    assert Placed(st.nodes, st.nodes[k].node) && Attached(st.nodes, st.nodes[k]);
  }

  /** Putting the same input again changes nothing but the time of the update. */
  lemma PutTwice(rules: Rules, st: Store, input: NodeInput, now: string, later: string)
    requires Forest(st) && Put(rules, st, input, now).1.Ok?
    ensures var (st1, r1) := Put(rules, st, input, now);
            var (st2, r2) := Put(rules, st1, input, later);
            && r2 == Ok(r1.value.(updatedAt := later))
            && r1.value.id in st1.nodes
            && st2 == st1.(nodes := st1.nodes[r1.value.id := MemNode(r2.value, false, st1.nodes[r1.value.id].sequence)])
  {
    PutKeepsForest(rules, st, input, now);
    PutStores(rules, st, input, now, input.parentId);
    var (st1, r1) := Put(rules, st, input, now);
    HolderIs(st1.nodes, input.parentId, r1.value.slug, r1.value.id);
    ParentStays(rules, st, input, now);
  }

  /** The parent that a put was checked against is still there, alive and of the same type. */
  lemma ParentStays(rules: Rules, st: Store, input: NodeInput, now: string)
    requires Forest(st) && Put(rules, st, input, now).1.Ok?
    ensures CheckPut(rules, Put(rules, st, input, now).0.nodes, input) == CheckPut(rules, st.nodes, input)
  {
    PutStores(rules, st, input, now, input.parentId);
    PutKeepsForest(rules, st, input, now);
    var (st1, r1) := Put(rules, st, input, now);
    assert Placed(st1.nodes, st1.nodes[r1.value.id].node);
    if input.parentId != 0 {
      assert r1.value.id != input.parentId;
    }
  }

  // ----- Update and move -----

  /** Which updates of the memory store succeed, what the others are refused for, and what a success leaves. */
  lemma UpdateOutcome(rules: Rules, st: Store, id: int, title: Option<string>, data: Option<string>,
                      schemaVersion: Option<int>, now: string)
    ensures var (st', r) := Update(rules, st, id, title, data, schemaVersion, now);
            if !(id in st.nodes && !st.nodes[id].deleted) then r == Err(NotFound)
            else if data.Some? && rules.data(data.value).None? then r == Err(BadData)
            else if schemaVersion.Some? && schemaVersion.value < 0 then r == Err(BadSchemaVersion)
            else
              && r.Ok? && st' == st.(nodes := st.nodes[id := st.nodes[id].(node := r.value)])
              && var n := st.nodes[id].node;
              && r.value == n.(title := r.value.title, data := r.value.data, schemaVersion := r.value.schemaVersion,
                               updatedAt := now)
              && r.value.title == (if title.Some? then title.value else n.title)
              && Some(r.value.data) == (if data.Some? then rules.data(data.value) else Some(n.data))
              && (schemaVersion.None? ==> r.value.schemaVersion == n.schemaVersion)
              && (schemaVersion.Some? ==>
                    r.value.schemaVersion == if schemaVersion.value == 0 then 1 else schemaVersion.value)
  {
  }

  /** Which moves succeed, what the others are refused for, and that only the parent changes, not even the time. */
  lemma MoveOutcome(st: Store, id: int, parentId: int)
    requires Unique(st.nodes)
    ensures var (st', err) := Move(st, id, parentId);
            if !(id in st.nodes && !st.nodes[id].deleted) then err == Some(NotFound) && st' == st
            else if exists k :: k in st.nodes && k != id && Takes(st.nodes[k], parentId, st.nodes[id].node.slug)
            then err == Some(Conflict) && st' == st
            else
              && err == None && st'.nextId == st.nextId
              && st'.nodes == st.nodes[id := st.nodes[id].(node := st.nodes[id].node.(parentId := parentId))]
  {
    if Live(st.nodes, id) {
      var slug := st.nodes[id].node.slug;
      if st.nodes[id].node.parentId == parentId {
        forall k | k in st.nodes && Takes(st.nodes[k], parentId, slug)
          ensures k == id
        {
          assert Takes(st.nodes[k], st.nodes[id].node.parentId, st.nodes[id].node.slug);
        }
        assert st.nodes == st.nodes[id := st.nodes[id]];
      } else if Taken(st.nodes, parentId, slug) {
        var k := Holder(st.nodes, parentId, slug);
        assert k != id;
      }
    }
  }

  // ----- Delete -----

  function LiveIds(nodes: Nodes): set<int> {
    set k | k in nodes && !nodes[k].deleted
  }

  /** Deletion reports exactly how many live nodes it takes away. */
  lemma DeleteCounts(st: Store, id: int)
    requires Live(st.nodes, id)
    ensures var (st', r) := Delete(st, id);
            r.Ok? && |LiveIds(st'.nodes)| + r.value == |LiveIds(st.nodes)|
  {
    var sub, after := Subtree(st.nodes, id), LiveIds(Delete(st, id).0.nodes);
    forall x | x in sub
      ensures x in LiveIds(st.nodes)
    {
      var path :| Walk(st.nodes, path) && path[0] == id && path[|path| - 1] == x;
      if |path| > 1 {
        assert LiveChild(st.nodes, path[|path| - 2], path[|path| - 2 + 1]);
      }
    }
    assert after == LiveIds(st.nodes) - sub;
  }

  /** A deleted node cannot be deleted, updated or moved, and nothing at all can be put under it. */
  lemma DeletedIsGone(rules: Rules, st: Store, id: int, x: int, input: NodeInput, title: Option<string>,
                      data: Option<string>, schemaVersion: Option<int>, target: int, now: string)
    requires Live(st.nodes, id) && x in Subtree(st.nodes, id)
    ensures var st' := Delete(st, id).0;
            && Delete(st', x) == (st', Err(NotFound))
            && Update(rules, st', x, title, data, schemaVersion, now) == (st', Err(NotFound))
            && Move(st', x, target) == (st', Some(NotFound))
            && (input.parentId == x != 0 ==> Put(rules, st', input, now).1.Err? && Put(rules, st', input, now).0 == st')
  {
  }

  /**
   * Putting to the place of a deleted node whose parent is alive revives that very node, under its old id and
   * with its old time of creation; the nodes that were deleted with it stay deleted.
   */
  lemma PutRevives(rules: Rules, st: Store, id: int, input: NodeInput, now: string, x: int)
    requires Forest(st) && Live(st.nodes, id)
    requires input.parentId == st.nodes[id].node.parentId && rules.slug(input.slug) == Some(st.nodes[id].node.slug)
    ensures var (st', r) := Put(rules, Delete(st, id).0, input, now);
            r.Ok? ==>
              && r.value.id == id
              && r.value.createdAt == st.nodes[id].node.createdAt
              && r.value.typ == st.nodes[id].node.typ
              && Live(st'.nodes, id)
              && (x in Subtree(st.nodes, id) && x != id ==> x in st'.nodes && st'.nodes[x].deleted)
  {
    DeleteKeepsForest(st, id);
    var st1 := Delete(st, id).0;
    HolderIs(st1.nodes, input.parentId, st.nodes[id].node.slug, id);
    if Put(rules, st1, input, now).1.Ok? {
      PutStores(rules, st1, input, now, x);
      HolderHasType(rules, st1, input);
    }
  }

  // ----- Move -----

  /** A move that succeeds can be undone: moving back gives exactly the store there was. */
  lemma MoveBack(st: Store, id: int, parentId: int)
    requires Unique(st.nodes) && Move(st, id, parentId).1.None?
    ensures Move(Move(st, id, parentId).0, id, st.nodes[id].node.parentId) == (st, None)
  {
    var st1, home := Move(st, id, parentId).0, st.nodes[id].node.parentId;
    if home != parentId {
      forall k | k in st1.nodes
        ensures !Takes(st1.nodes[k], home, st.nodes[id].node.slug)
      {
        if k != id {
          assert !Takes(st.nodes[k], st.nodes[id].node.parentId, st.nodes[id].node.slug);
        }
      }
      assert Reparented(st1.nodes, id, home) == st.nodes;
    }
  }
}
