/** The in-memory content store: projects/board/content_mem.go. */
module MemStore {
  import opened Wrappers
  import opened Sets
  import opened Sorting
  import opened Content

  /** The `range` loop over the node map that stops at the first match; the order of a Go map is not specified. */
  method FirstWhere(nodes: Nodes, p: MemNode -> bool) returns (r: Option<int>)
    ensures r.Some? ==> r.value in nodes && p(nodes[r.value])
    ensures r.None? ==> forall k :: k in nodes ==> !p(nodes[k])
  {
    var rest := nodes.Keys;
    while rest != {}
      invariant rest <= nodes.Keys
      invariant forall k :: k in nodes && k !in rest ==> !p(nodes[k])
      decreases |rest|
    {
      ghost var some := HasElement(rest);
      var k :| k in rest;
      rest := rest - {k};
      if p(nodes[k]) {
        return Some(k);
      }
    }
    return None;
  }

  /** The `range` loop that collects the ids of all matches, each once, in the unspecified order of the map. */
  method AllWhere(nodes: Nodes, p: MemNode -> bool) returns (ids: seq<int>)
    ensures forall k :: k in ids <==> k in nodes && p(nodes[k])
    ensures Distinct(ids)
  {
    ids := [];
    var rest := nodes.Keys;
    while rest != {}
      invariant rest <= nodes.Keys
      invariant forall k :: k in ids <==> k in nodes && k !in rest && p(nodes[k])
      invariant Distinct(ids)
      decreases |rest|
    {
      ghost var some := HasElement(rest);
      var k :| k in rest;
      rest := rest - {k};
      if p(nodes[k]) {
        ids := ids + [k];
      }
    }
  }

  class MemContent {
    var nextID: int
    var nodes: Nodes
    const rules: Rules

    ghost function St(): Store
      reads this
    {
      Store(nextID, nodes)
    }

    /** What every sequence of operations keeps, whatever their arguments. */
    ghost predicate Valid()
      reads this
    {
      Numbered(St()) && Unique(nodes)
    }

    constructor (rules: Rules)
      ensures Valid() && St() == Store(0, map[]) && this.rules == rules
    {
      this.rules := rules;
      nextID := 0;
      nodes := map[];
    }

    method PutNode(input: NodeInput, now: string) returns (r: Result<Node, Error>)
      requires Valid()
      modifies this
      ensures Valid()
      ensures (St(), r) == Put(rules, old(St()), input, now)
    {
      PutKeepsValid(rules, St(), input, now);
      var slug := rules.slug(input.slug);
      if slug.None? {
        return Err(BadSlug);
      }
      var data := rules.data(input.data);
      if data.None? {
        return Err(BadData);
      }
      var sv := CleanSchemaVersion(input.schemaVersion);
      if sv.Err? {
        return Err(sv.error);
      }
      var parent: Option<Node> := None;
      if input.parentId != 0 {
        var p := LiveNode(nodes, input.parentId);
        if p.Err? {
          return Err(p.error);
        }
        parent := Some(p.value);
      }
      var reserved := CheckModuleSlug(input.typ, slug.value);
      if reserved.Some? {
        return Err(reserved.value);
      }
      var misplaced := CheckParent(input.typ, parent);
      if misplaced.Some? {
        return Err(misplaced.value);
      }
      var k := FirstWhere(nodes, (n: MemNode) => Takes(n, input.parentId, slug.value));
      if k.Some? {
        HolderIs(nodes, input.parentId, slug.value, k.value);
        var n := nodes[k.value];
        n := n.(node := n.node.(typ := input.typ, title := input.title, data := data.value, schemaVersion := sv.value,
                                updatedAt := now));
        n := n.(deleted := false);
        nodes := nodes[k.value := n];
        return Ok(n.node);
      }
      nextID := nextID + 1;
      var node := Node(nextID, input.parentId, input.typ, slug.value, input.title, data.value, sv.value, now, now);
      var n := MemNode(node, false, nextID);
      nodes := nodes[n.node.id := n];
      r := Ok(n.node);
    }

    method UpdateNode(id: int, title: Option<string>, data: Option<string>, schemaVersion: Option<int>, now: string)
      returns (r: Result<Node, Error>)
      requires Valid()
      modifies this
      ensures Valid()
      ensures (St(), r) == Update(rules, old(St()), id, title, data, schemaVersion, now)
    {
      UpdateKeepsValid(rules, St(), id, title, data, schemaVersion, now);
      var found := LiveNode(nodes, id);
      if found.Err? {
        return Err(found.error);
      }
      var n := nodes[id];
      if data.Some? {
        var d := rules.data(data.value);
        if d.None? {
          return Err(BadData);
        }
        n := n.(node := n.node.(data := d.value));
        nodes := nodes[id := n];
      }
      if schemaVersion.Some? {
        var sv := CleanSchemaVersion(schemaVersion.value);
        if sv.Err? {
          assert nodes == old(nodes)[id := n];
          return Err(sv.error);
        }
        n := n.(node := n.node.(schemaVersion := sv.value));
        nodes := nodes[id := n];
      }
      if title.Some? {
        n := n.(node := n.node.(title := title.value));
      }
      n := n.(node := n.node.(updatedAt := now));
      nodes := nodes[id := n];
      assert nodes == old(nodes)[id := n];
      r := Ok(n.node);
    }

    method DeleteNode(id: int) returns (r: Result<nat, Error>)
      requires Valid()
      modifies this
      ensures Valid()
      ensures (St(), r) == Delete(old(St()), id)
    {
      DeleteKeepsValid(St(), id);
      var found := LiveNode(nodes, id);
      if found.Err? {
        return Err(found.error);
      }
      var count := DrainQueue(id);
      r := Ok(count);
    }

    /**
     * The queue loop of DeleteNode. No forest is assumed: it ends, and deletes each reachable node once, even
     * when parent links form a cycle.
     */
    method DrainQueue(id: int) returns (count: nat)
      requires Live(nodes, id)
      modifies this`nodes
      ensures nodes == MarkDeleted(old(nodes), Subtree(old(nodes), id))
      ensures count == |Subtree(old(nodes), id)|
    {
      hide QueueInv, Subtree, MarkDeleted;
      ghost var n0 := nodes;
      count := 0;
      var queue := [id];
      ghost var gone: set<int> := {};
      MarkNothing(n0);
      QueueStart(n0, id);
      while |queue| > 0
        invariant nodes == MarkDeleted(n0, gone) && count == |gone|
        invariant QueueInv(n0, id, gone, queue)
        decreases |n0.Keys - gone|
      {
        ghost var q := queue;
        QueueHead(n0, id, gone, q);
        var cur := queue[0];
        queue := queue[1..];
        if cur in nodes && !nodes[cur].deleted {
          nodes := nodes[cur := nodes[cur].(deleted := true)];
          count := count + 1;
        }
        MarkOne(n0, gone, cur);
        var p := (n: MemNode) => n.node.parentId == cur && !n.deleted;
        var kids := AllWhere(nodes, p);
        assert forall k :: k in kids <==> LiveChild(nodes, cur, k);
        QueueStep(n0, id, gone, q, kids);
        gone := gone + {cur};
        queue := queue + kids;
      }
      QueueDone(n0, id, gone);
    }

    /** A node that was never put, and one that is deleted, are both not found. */
    method GetNode(id: int) returns (r: Result<Node, Error>)
      requires Valid()
      ensures r.Ok? ==> r.value.id == id && r.value in Visible(nodes)
      ensures r.Err? ==> r.error == NotFound && forall n :: n in Visible(nodes) ==> n.id != id
    {
      if id !in nodes {
        return Err(NotFound);
      }
      var n := nodes[id];
      if n.deleted {
        return Err(NotFound);
      }
      r := Ok(n.node);
    }

    /** At most one node can match, so the order of the map does not show. */
    method FindChild(parentID: int, typ: string, slug: string) returns (r: Result<Node, Error>)
      requires Valid()
      ensures r.Ok?
         <==> exists k :: k in nodes && Takes(nodes[k], parentID, slug) && !nodes[k].deleted && nodes[k].node.typ == typ
      ensures r.Ok? ==> forall k :: k in nodes && Takes(nodes[k], parentID, slug) ==> r.value == nodes[k].node
      ensures r.Err? ==> r.error == NotFound
    {
      var p := (n: MemNode) => !n.deleted && n.node.parentId == parentID && n.node.typ == typ && n.node.slug == slug;
      var k := FirstWhere(nodes, p);
      assert forall n :: p(n) <==> Takes(n, parentID, slug) && !n.deleted && n.node.typ == typ;
      if k.None? {
        return Err(NotFound);
      }
      forall j | j in nodes && Takes(nodes[j], parentID, slug)
        ensures j == k.value
      {
        HolderIs(nodes, parentID, slug, j);
        HolderIs(nodes, parentID, slug, k.value);
      }
      r := Ok(nodes[k.value].node);
    }

    method ListChildren(parentID: int, typ: string, page: int, size: int)
      returns (items: seq<Node>, pageOut: int, sizeOut: int, total: nat)
      requires Valid()
      ensures pageOut == if page < 1 then 1 else page
      ensures sizeOut == if size < 1 then 20 else if size > 100 then 100 else size
      ensures total == |NewestFirst(nodes, parentID, typ)|
      ensures items == NodesAt(nodes, PageSlice(NewestFirst(nodes, parentID, typ), pageOut, sizeOut))
    {
      var args := NodePageArgs(page, size);
      pageOut, sizeOut := args.0, args.1;
      var p := (n: MemNode) => !n.deleted && n.node.parentId == parentID && n.node.typ == typ;
      var found := AllWhere(nodes, p);
      assert forall k :: k in nodes ==> (k in ChildIds(nodes, parentID, typ) <==> p(nodes[k]));
      assert forall k :: k in found <==> k in ChildIds(nodes, parentID, typ);
      assert (set k | k in found) == ChildIds(nodes, parentID, typ);
      var all := Descending(set k | k in found);
      total := |all|;
      items := PageItems(all, pageOut, sizeOut);
    }

    /** The loop that copies one page out of the sorted ids. */
    method PageItems(all: seq<int>, page: int, size: int) returns (items: seq<Node>)
      requires page >= 1 && size >= 1
      requires forall k :: k in all ==> k in nodes
      ensures items == NodesAt(nodes, PageSlice(all, page, size))
    {
      items := [];
      SliceBounds(page, size);
      var lo := (page - 1) * size;
      ghost var slice := PageSlice(all, page, size);
      ghost var want := NodesAt(nodes, slice);
      var i := lo;
      while i < |all| && i < page * size
        invariant lo <= i <= page * size
        invariant i > |all| ==> slice == [] && i == lo
        invariant |items| == i - lo <= |slice|
        invariant items == want[..i - lo]
      {
        assert slice[i - lo] == all[i];
        assert all[i] in all;
        items := items + [nodes[all[i]].node];
        i := i + 1;
      }
    }

    method MoveNode(id: int, parentID: int) returns (err: Option<Error>)
      requires Valid()
      modifies this
      ensures Valid()
      ensures (St(), err) == Move(old(St()), id, parentID)
    {
      MoveKeepsValid(St(), id, parentID);
      var found := LiveNode(nodes, id);
      if found.Err? {
        return Some(found.error);
      }
      var n := nodes[id];
      if n.node.parentId == parentID {
        return None;
      }
      var p := (o: MemNode) => o.node.parentId == parentID && o.node.slug == n.node.slug;
      var other := FirstWhere(nodes, p);
      assert forall o :: p(o) <==> Takes(o, parentID, n.node.slug);
      if other.Some? {
        HolderIs(nodes, parentID, n.node.slug, other.value);
        return Some(Conflict);
      }
      nodes := Reparented(nodes, id, parentID);
      return None;
    }
  }

  /** The records of the live nodes. */
  function Visible(nodes: Nodes): set<Node> {
    set k | k in nodes && !nodes[k].deleted :: nodes[k].node
  }

  /** The records of a list of ids. */
  function NodesAt(nodes: Nodes, ids: seq<int>): (r: seq<Node>)
    ensures |r| == |ids|
  {
    seq(|ids|, i requires 0 <= i < |ids| => if ids[i] in nodes then nodes[ids[i]].node
      else Node(0, 0, "", "", "", "", 0, "", ""))
  }

  lemma HolderIs(nodes: Nodes, parentId: int, slug: string, k: int)
    requires Unique(nodes) && k in nodes && Takes(nodes[k], parentId, slug)
    ensures Taken(nodes, parentId, slug) && Holder(nodes, parentId, slug) == k
  {
    var h := Holder(nodes, parentId, slug);
    assert Takes(nodes[h], nodes[k].node.parentId, nodes[k].node.slug);
  }

  // ----- Unique places and ids survive every operation -----

  lemma PutKeepsValid(rules: Rules, st: Store, input: NodeInput, now: string)
    requires Numbered(st) && Unique(st.nodes)
    ensures Numbered(Put(rules, st, input, now).0) && Unique(Put(rules, st, input, now).0.nodes)
  {
    var clean := CheckPut(rules, st.nodes, input);
    if clean.Ok? && Taken(st.nodes, input.parentId, clean.value.0) {
      var k := Holder(st.nodes, input.parentId, clean.value.0);
      SamePlaces(st.nodes, st.nodes[k := Overwritten(st.nodes[k], input, clean.value, now)]);
    } else if clean.Ok? {
      NewPlace(st.nodes, st.nextId + 1, NewNode(st.nextId + 1, input, clean.value, now));
    }
  }

  lemma SamePlaces(before: Nodes, after: Nodes)
    requires Unique(before) && before.Keys == after.Keys
    requires forall k :: k in before ==>
        after[k].node.parentId == before[k].node.parentId && after[k].node.slug == before[k].node.slug
    ensures Unique(after)
  {
    forall j, k | j in after && k in after && Takes(after[j], after[k].node.parentId, after[k].node.slug)
      ensures j == k
    {
      assert Takes(before[j], before[k].node.parentId, before[k].node.slug);
    }
  }

  lemma NewPlace(nodes: Nodes, id: int, n: MemNode)
    requires Unique(nodes)
    requires forall k :: k in nodes && k != id ==> !Takes(nodes[k], n.node.parentId, n.node.slug)
    ensures Unique(nodes[id := n])
  {
    var after := nodes[id := n];
    forall j, k | j in after && k in after && Takes(after[j], after[k].node.parentId, after[k].node.slug)
      ensures j == k
    {
      if j != id && k != id {
        assert Takes(nodes[j], nodes[k].node.parentId, nodes[k].node.slug);
      } else if j == id && k != id {
        assert Takes(nodes[k], n.node.parentId, n.node.slug);
      }
    }
  }

  lemma UpdateKeepsValid(rules: Rules, st: Store, id: int, title: Option<string>, data: Option<string>,
                         schemaVersion: Option<int>, now: string)
    requires Numbered(st) && Unique(st.nodes)
    ensures var st' := Update(rules, st, id, title, data, schemaVersion, now).0; Numbered(st') && Unique(st'.nodes)
  {
    SamePlaces(st.nodes, Update(rules, st, id, title, data, schemaVersion, now).0.nodes);
  }

  lemma DeleteKeepsValid(st: Store, id: int)
    requires Numbered(st) && Unique(st.nodes)
    ensures Numbered(Delete(st, id).0) && Unique(Delete(st, id).0.nodes)
  {
    SamePlaces(st.nodes, Delete(st, id).0.nodes);
  }

  /** Without any condition on the target, a move cannot break the uniqueness of places. */
  lemma MoveKeepsValid(st: Store, id: int, parentId: int)
    requires Numbered(st) && Unique(st.nodes)
    ensures Numbered(Move(st, id, parentId).0) && Unique(Move(st, id, parentId).0.nodes)
  {
    if Live(st.nodes, id) && !Taken(st.nodes, parentId, st.nodes[id].node.slug) {
      var after := Reparented(st.nodes, id, parentId);
      forall k | k in st.nodes && k != id
        ensures !Takes(st.nodes[k], after[id].node.parentId, after[id].node.slug)
      {
      }
      NewPlace(st.nodes, id, after[id]);
    }
  }

  // ----- The queue of DeleteNode -----

  /**
   * What the queue loop keeps: the nodes deleted so far and the queued ones are distinct members of the
   * subtree, and every live child of a deleted node is deleted or queued.
   */
  ghost predicate QueueInv(n0: Nodes, id: int, gone: set<int>, queue: seq<int>) {
    && Live(n0, id)
    && gone <= Subtree(n0, id)
    && (forall q :: q in queue ==> q in Subtree(n0, id) && Live(n0, q) && q !in gone)
    && Distinct(queue)
    && (id in gone || (gone == {} && queue == [id]))
    && (forall q :: q in queue && q != id ==> n0[q].node.parentId in gone)
    && (forall p, c :: p in gone && LiveChild(n0, p, c) ==> c in gone || c in queue)
  }

  lemma MarkNothing(n0: Nodes)
    ensures MarkDeleted(n0, {}) == n0
  {
  }

  lemma SubtreeTop(n0: Nodes, id: int)
    requires id in n0
    ensures id in Subtree(n0, id)
  {
    assert Walk(n0, [id]) && [id][0] == id && [id][|[id]| - 1] == id;
  }

  lemma SubtreeChild(n0: Nodes, id: int, p: int, c: int)
    requires p in Subtree(n0, id) && LiveChild(n0, p, c)
    ensures c in Subtree(n0, id)
  {
    var path :| Walk(n0, path) && path[0] == id && path[|path| - 1] == p;
    var longer := path + [c];
    forall i | 0 <= i < |longer| - 1
      ensures LiveChild(n0, longer[i], longer[i + 1])
    {
      if i < |path| - 1 {
        assert LiveChild(n0, path[i], path[i + 1]);
      }
    }
    assert Walk(n0, longer) && longer[0] == id && longer[|longer| - 1] == c;
  }

  lemma QueueHead(n0: Nodes, id: int, gone: set<int>, queue: seq<int>)
    requires QueueInv(n0, id, gone, queue) && queue != []
    ensures Live(n0, queue[0]) && queue[0] !in gone
    ensures Live(MarkDeleted(n0, gone), queue[0])
  {
    assert queue[0] in queue;
  }

  lemma MarkOne(n0: Nodes, gone: set<int>, cur: int)
    requires cur in n0 && cur !in gone
    ensures var before := MarkDeleted(n0, gone);
            MarkDeleted(n0, gone + {cur}) == before[cur := before[cur].(deleted := true)]
  {
  }

  lemma QueueStart(n0: Nodes, id: int)
    requires Live(n0, id)
    ensures QueueInv(n0, id, {}, [id])
  {
    SubtreeTop(n0, id);
  }

  /** The children found on a turn were not seen before: a node has one parent, and this parent is new. */
  lemma KidFresh(n0: Nodes, id: int, gone: set<int>, queue: seq<int>, k: int)
    requires QueueInv(n0, id, gone, queue) && queue != []
    requires LiveChild(MarkDeleted(n0, gone + {queue[0]}), queue[0], k)
    ensures LiveChild(n0, queue[0], k) && k in Subtree(n0, id) && k !in gone + {queue[0]} && k !in queue[1..]
  {
    var cur := queue[0];
    assert cur in queue;
    SubtreeChild(n0, id, cur, k);
    assert forall q :: q in queue[1..] ==> q in queue;
  }

  lemma KidsClose(n0: Nodes, id: int, gone: set<int>, queue: seq<int>, kids: seq<int>)
    requires QueueInv(n0, id, gone, queue) && queue != []
    requires forall k :: k in kids <==> LiveChild(MarkDeleted(n0, gone + {queue[0]}), queue[0], k)
    ensures forall p, c :: p in gone + {queue[0]} && LiveChild(n0, p, c) ==>
        c in gone + {queue[0]} || c in queue[1..] + kids
  {
    hide Subtree;
    forall p, c | p in gone + {queue[0]} && LiveChild(n0, p, c)
      ensures c in gone + {queue[0]} || c in queue[1..] + kids
    {
      if p == queue[0] {
        assert c in gone + {queue[0]} || LiveChild(MarkDeleted(n0, gone + {queue[0]}), queue[0], c);
      } else {
        assert c in gone || c in queue;
      }
    }
  }

  lemma QueueStep(n0: Nodes, id: int, gone: set<int>, queue: seq<int>, kids: seq<int>)
    requires QueueInv(n0, id, gone, queue) && queue != []
    requires forall k :: k in kids <==> LiveChild(MarkDeleted(n0, gone + {queue[0]}), queue[0], k)
    requires Distinct(kids)
    ensures QueueInv(n0, id, gone + {queue[0]}, queue[1..] + kids)
    ensures |n0.Keys - (gone + {queue[0]})| < |n0.Keys - gone|
  {
    hide Subtree, MarkDeleted;
    var cur := queue[0];
    var gone', queue' := gone + {cur}, queue[1..] + kids;
    assert cur in queue;
    forall k | k in kids
      ensures LiveChild(n0, cur, k) && k in Subtree(n0, id) && k !in gone' && k !in queue[1..]
    {
      KidFresh(n0, id, gone, queue, k);
    }
    KidsClose(n0, id, gone, queue, kids);
    assert forall k :: k in kids ==> k !in queue[1..];
    DistinctJoin(queue[1..], kids);
    assert id in gone';
    forall q | q in queue[1..]
      ensures q in queue && q != cur
    {
    }
    assert n0.Keys - gone' < n0.Keys - gone by {
      assert cur in n0.Keys - gone && cur !in n0.Keys - gone';
    }
    SmallerSet(n0.Keys - gone', n0.Keys - gone);
  }

  lemma SmallerSet(a: set<int>, b: set<int>)
    requires a < b
    ensures |a| < |b|
  {
    SubsetSize(a, b);
  }

  /** A set that has the top and is closed under live children has the whole subtree. */
  lemma {:induction false} ClosedHasWalk(n0: Nodes, s: set<int>, path: seq<int>)
    requires Walk(n0, path) && path[0] in s
    requires forall p, c :: p in s && LiveChild(n0, p, c) ==> c in s
    ensures path[|path| - 1] in s
    decreases |path|
  {
    if |path| > 1 {
      assert LiveChild(n0, path[0], path[1]);
      forall i | 0 <= i < |path[1..]| - 1
        ensures LiveChild(n0, path[1..][i], path[1..][i + 1])
      {
        assert LiveChild(n0, path[i + 1], path[i + 2]);
      }
      ClosedHasWalk(n0, s, path[1..]);
    }
  }

  lemma QueueDone(n0: Nodes, id: int, gone: set<int>)
    requires QueueInv(n0, id, gone, [])
    ensures gone == Subtree(n0, id)
  {
    forall x | x in Subtree(n0, id)
      ensures x in gone
    {
      var path :| Walk(n0, path) && path[0] == id && path[|path| - 1] == x;
      ClosedHasWalk(n0, gone, path);
    }
  }
}
