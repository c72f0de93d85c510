/**
 * The content store on MySQL: projects/board/content_mysql.go. The table board_node is a map from id to row,
 * and a transaction is one step.
 */
module MysqlStore {
  import opened Wrappers
  import opened Sets
  import opened Sorting
  import opened Content
  import opened MemStore

  /** DeleteNode stops looking for more when it has this many ids. */
  const LIMIT: nat := 100000

  // ----- What the statements do -----

  /** updated_at is ON UPDATE CURRENT_TIMESTAMP: a row that is set to the values it has keeps its time. */
  function Set(n: MemNode, m: MemNode, now: string): MemNode {
    if m == n then n else m.(node := m.node.(updatedAt := now))
  }

  /** The row after an upsert of an existing place. */
  function Upserted(n: MemNode, input: NodeInput, clean: (string, string, int), now: string): MemNode {
    var node := n.node.(typ := input.typ, title := input.title, data := clean.1, schemaVersion := clean.2);
    Set(n, n.(node := node, deleted := false), now)
  }

  ghost function SqlPut(rules: Rules, st: Store, input: NodeInput, now: string): (Store, Result<Node, Error>) {
    match CheckPut(rules, st.nodes, input)
    case Err(e) => (st, Err(e))
    case Ok(clean) =>
      if Taken(st.nodes, input.parentId, clean.0) then
        var k := Holder(st.nodes, input.parentId, clean.0);
        var n := Upserted(st.nodes[k], input, clean, now);
        (st.(nodes := st.nodes[k := n]), Ok(n.node))
      else
        var n := NewNode(st.nextId + 1, input, clean, now);
        (Store(st.nextId + 1, st.nodes[st.nextId + 1 := n]), Ok(n.node))
  }

  /** All arguments are checked before the row is looked for, and written in one statement. */
  function SqlUpdate(rules: Rules, st: Store, id: int, title: Option<string>, data: Option<string>,
                     schemaVersion: Option<int>, now: string): (Store, Result<Node, Error>)
  {
    if data.Some? && rules.data(data.value).None? then (st, Err(BadData))
    else if schemaVersion.Some? && CleanSchemaVersion(schemaVersion.value).Err? then (st, Err(BadSchemaVersion))
    else if !Live(st.nodes, id) then (st, Err(NotFound))
    else
      var n := st.nodes[id].node;
      var n1 := if title.Some? then n.(title := title.value) else n;
      var n2 := if data.Some? then n1.(data := rules.data(data.value).value) else n1;
      var n3 := if schemaVersion.Some? then n2.(schemaVersion := CleanSchemaVersion(schemaVersion.value).value) else n2;
      var row := Set(st.nodes[id], st.nodes[id].(node := n3), now);
      (st.(nodes := st.nodes[id := row]), Ok(row.node))
  }

  /** The live rows under the frontier. */
  function NextLevel(rows: Nodes, frontier: set<int>): set<int> {
    set c | c in rows && !rows[c].deleted && rows[c].node.parentId in frontier
  }

  /** Level by level: the ids found, and how many rows the queries have returned, a row found again counting again. */
  function Collected(rows: Nodes, frontier: set<int>, got: set<int>, count: nat): (set<int>, nat)
    decreases if count < LIMIT then LIMIT - count else 0, |frontier|
  {
    if frontier == {} || count >= LIMIT then (got, count)
    else
      var next := NextLevel(rows, frontier);
      assert next == {} || |next| > 0;
      Collected(rows, next, got + next, count + |next|)
  }

  function SoftDeleted(rows: Nodes, ids: set<int>, now: string): Nodes {
    map k | k in rows :: if k in ids && !rows[k].deleted then Set(rows[k], rows[k].(deleted := true), now) else rows[k]
  }

  /** For every table, cyclic or not: which rows are deleted, and the count that is reported. */
  function SqlDelete(st: Store, id: int, now: string): (Store, Result<nat, Error>) {
    if !Live(st.nodes, id) then (st, Err(NotFound))
    else
      var c := Collected(st.nodes, {id}, {id}, 1);
      (st.(nodes := SoftDeleted(st.nodes, c.0, now)), Ok(c.1))
  }

  // ----- Listing -----

  function Created(rows: Nodes, k: int): string {
    if k in rows then rows[k].node.createdAt else ""
  }

  /** ORDER BY created_at DESC, id DESC; the order of the times is that of their texts, which have a fixed format. */
  function Newer(rows: Nodes): (int, int) -> bool {
    (j: int, k: int) => Before(Created(rows, k), Created(rows, j)) || (Created(rows, j) == Created(rows, k) && j > k)
  }

  lemma NewerIsOrder(rows: Nodes)
    ensures Order(Newer(rows))
  {
    BeforeIsOrder();
  }

  /** The live children of a type, the last created first. */
  function LatestFirst(rows: Nodes, parentId: int, typ: string): (ids: seq<int>)
    ensures forall k :: k in ids <==> k in ChildIds(rows, parentId, typ)
    ensures Distinct(ids)
  {
    NewerIsOrder(rows);
    Sorted(ChildIds(rows, parentId, typ), Newer(rows))
  }

  /** LIMIT and OFFSET. */
  function Window<T>(s: seq<T>, limit: nat, offset: nat): seq<T> {
    if |s| <= offset then [] else if |s| - offset <= limit then s[offset..] else s[offset..offset + limit]
  }

  lemma WindowIsPage<T>(s: seq<T>, page: int, size: int)
    requires page >= 1 && size >= 1
    ensures (page - 1) * size >= 0 && Window(s, size, (page - 1) * size) == PageSlice(s, page, size)
  {
    SliceBounds(page, size);
  }

  // ----- The object -----

  function SetOf(s: seq<int>): set<int> {
    set x | x in s
  }

  class MysqlContent {
    var lastId: int
    var rows: Nodes
    const rules: Rules

    /** The table with its AUTO_INCREMENT counter, as the abstract store. */
    ghost function St(): Store
      reads this
    {
      Store(lastId, rows)
    }

    /** The unique key uk_parent_slug, and ids given by the counter. */
    ghost predicate Valid()
      reads this
    {
      Numbered(St()) && Unique(rows)
    }

    constructor (rules: Rules)
      ensures Valid() && St() == Store(0, map[]) && this.rules == rules
    {
      this.rules := rules;
      lastId, rows := 0, map[];
    }

    method PutNode(input: NodeInput, now: string) returns (r: Result<Node, Error>)
      requires Valid()
      modifies this
      ensures Valid()
      ensures (St(), r) == SqlPut(rules, old(St()), input, now)
    {
      SqlPutKeepsValid(rules, St(), input, now);
      var slug := rules.slug(input.slug);
      if slug.None? {
        return Err(BadSlug);
      }
      var data := rules.data(input.data);
      if data.None? {
        return Err(BadData);
      }
      var sv := CleanSchemaVersion(input.schemaVersion);
      if sv.Err? {
        return Err(sv.error);
      }
      var parent: Option<Node> := None;
      if input.parentId != 0 {
        var p := LiveNode(rows, input.parentId);
        if p.Err? {
          return Err(p.error);
        }
        parent := Some(p.value);
      }
      var reserved := CheckModuleSlug(input.typ, slug.value);
      if reserved.Some? {
        return Err(reserved.value);
      }
      var misplaced := CheckParent(input.typ, parent);
      if misplaced.Some? {
        return Err(misplaced.value);
      }
      var found := FirstWhere(rows, (n: MemNode) => Takes(n, input.parentId, slug.value));
      var id;
      if found.None? {
        lastId := lastId + 1;
        id := lastId;
        var n := Node(id, input.parentId, input.typ, slug.value, input.title, data.value, sv.value, now, now);
        rows := rows[id := MemNode(n, false, id)];
      } else {
        id := found.value;
        HolderIs(rows, input.parentId, slug.value, id);
        var n := rows[id].node.(typ := input.typ, title := input.title, data := data.value, schemaVersion := sv.value);
        rows := rows[id := Set(rows[id], rows[id].(node := n, deleted := false), now)];
      }
      r := LiveNode(rows, id);
    }

    method UpdateNode(id: int, title: Option<string>, data: Option<string>, schemaVersion: Option<int>, now: string)
      returns (r: Result<Node, Error>)
      modifies this`rows
      ensures (St(), r) == SqlUpdate(rules, old(St()), id, title, data, schemaVersion, now)
    {
      var d: Option<string> := None;
      if data.Some? {
        d := rules.data(data.value);
        if d.None? {
          return Err(BadData);
        }
      }
      var v: Option<int> := None;
      if schemaVersion.Some? {
        var sv := CleanSchemaVersion(schemaVersion.value);
        if sv.Err? {
          return Err(sv.error);
        }
        v := Some(sv.value);
      }
      var found := LiveNode(rows, id);
      if found.Err? {
        return Err(found.error);
      }
      if title.Some? || d.Some? || v.Some? {
        var n := rows[id].node;
        n := if title.Some? then n.(title := title.value) else n;
        n := if d.Some? then n.(data := d.value) else n;
        n := if v.Some? then n.(schemaVersion := v.value) else n;
        rows := rows[id := Set(rows[id], rows[id].(node := n), now)];
      } else {
        assert rows[id := rows[id]] == rows;
      }
      r := LiveNode(rows, id);
    }

    /** SELECT id WHERE deleted_at IS NULL AND parent_id IN (...): each row once, in no given order. */
    method SelectChildren(frontier: seq<int>) returns (ids: seq<int>)
      ensures Distinct(ids)
      ensures forall c :: c in ids <==> Live(rows, c) && rows[c].node.parentId in frontier
    {
      var p := (n: MemNode) => !n.deleted && n.node.parentId in frontier;
      ids := AllWhere(rows, p);
      assert forall n :: p(n) <==> !n.deleted && n.node.parentId in frontier;
    }

    /** The UPDATE statements, 500 ids at a time. */
    method SoftDelete(all: seq<int>, now: string)
      modifies this`rows
      ensures rows == SoftDeleted(old(rows), SetOf(all), now)
    {
      ghost var n0 := rows;
      var i := 0;
      assert SetOf(all[..0]) == {};
      assert SoftDeleted(n0, {}, now) == n0;
      while i < |all|
        invariant 0 <= i
        invariant rows == SoftDeleted(n0, SetOf(all[..if i < |all| then i else |all|]), now)
      {
        var hi := if i + 500 < |all| then i + 500 else |all|;
        var chunk := all[i..hi];
        rows := SoftDeleted(rows, SetOf(chunk), now);
        SoftDeletedSum(n0, SetOf(all[..i]), SetOf(chunk), now);
        assert all[..hi] == all[..i] + chunk;
        assert SetOf(all[..hi]) == SetOf(all[..i]) + SetOf(chunk);
        i := i + 500;
      }
      assert all[..|all|] == all;
    }

    /** The frontier loop of DeleteNode, on every table. */
    method Collect(id: int) returns (all: seq<int>)
      ensures (SetOf(all), |all|) == Collected(rows, {id}, {id}, 1)
    {
      hide Collected, NextLevel;
      all := [id];
      var frontier := [id];
      assert SetOf([id]) == {id};
      while |frontier| > 0 && |all| < LIMIT
        invariant Collected(rows, SetOf(frontier), SetOf(all), |all|) == Collected(rows, {id}, {id}, 1)
        decreases if |all| < LIMIT then LIMIT - |all| else 0, |frontier|
      {
        var next := SelectChildren(frontier);
        LevelOfList(rows, frontier, next);
        CollectTurn(rows, SetOf(frontier), SetOf(all), |all|);
        assert SetOf(all + next) == SetOf(all) + SetOf(next);
        all := all + next;
        frontier := next;
      }
      CollectEnd(rows, SetOf(frontier), SetOf(all), |all|);
    }

    method DeleteNode(id: int, now: string) returns (r: Result<nat, Error>)
      modifies this`rows
      ensures (St(), r) == SqlDelete(old(St()), id, now)
    {
      var found := LiveNode(rows, id);
      if found.Err? {
        return Err(found.error);
      }
      var all := Collect(id);
      SoftDelete(all, now);
      r := Ok(|all|);
    }

    /** The unique key leaves at most one row to find. */
    method FindChild(parentId: int, typ: string, slug: string) returns (r: Result<Node, Error>)
      requires Valid()
      ensures r.Ok?
         <==> exists k :: k in rows && Takes(rows[k], parentId, slug) && !rows[k].deleted && rows[k].node.typ == typ
      ensures r.Ok? ==> forall k :: k in rows && Takes(rows[k], parentId, slug) ==> r.value == rows[k].node
      ensures r.Err? ==> r.error == NotFound
    {
      var p := (n: MemNode) => n.node.parentId == parentId && n.node.typ == typ && n.node.slug == slug && !n.deleted;
      var k := FirstWhere(rows, p);
      assert forall n :: p(n) <==> Takes(n, parentId, slug) && !n.deleted && n.node.typ == typ;
      if k.None? {
        assert forall j :: j in rows && Takes(rows[j], parentId, slug) ==> !p(rows[j]);
        return Err(NotFound);
      }
      assert p(rows[k.value]);
      forall j | j in rows && Takes(rows[j], parentId, slug)
        ensures j == k.value
      {
        HolderIs(rows, parentId, slug, j);
        HolderIs(rows, parentId, slug, k.value);
      }
      r := Ok(rows[k.value].node);
    }

    /** COUNT(*), and the rows of one page, the last created first. */
    method ListChildren(parentId: int, typ: string, page: int, size: int)
      returns (items: seq<Node>, pageOut: int, sizeOut: int, total: nat)
      ensures pageOut == if page < 1 then 1 else page
      ensures sizeOut == if size < 1 then 20 else if size > 100 then 100 else size
      ensures total == |LatestFirst(rows, parentId, typ)|
      ensures items == NodesAt(rows, PageSlice(LatestFirst(rows, parentId, typ), pageOut, sizeOut))
    {
      hide LatestFirst;
      var args := NodePageArgs(page, size);
      pageOut, sizeOut := args.0, args.1;
      var all := LatestFirst(rows, parentId, typ);
      total := |all|;
      WindowIsPage(all, pageOut, sizeOut);
      var found := Window(all, sizeOut, (pageOut - 1) * sizeOut);
      items := [];
      for i := 0 to |found|
        invariant |items| == i && items == NodesAt(rows, found)[..i]
      {
        assert found[i] in all;
        items := items + [rows[found[i]].node];
      }
    }

    /** The same function of the table as in memory, times included: updated_at is set to itself. */
    method MoveNode(id: int, parentId: int) returns (err: Option<Error>)
      requires Valid()
      modifies this
      ensures Valid()
      ensures (St(), err) == Move(old(St()), id, parentId)
    {
      MoveKeepsValid(St(), id, parentId);
      var found := LiveNode(rows, id);
      if found.Err? {
        return Some(found.error);
      }
      var n := found.value;
      if n.parentId == parentId {
        return None;
      }
      var p := (o: MemNode) => Takes(o, parentId, n.slug);
      var other := FirstWhere(rows, p);
      assert forall o :: p(o) <==> Takes(o, parentId, n.slug);
      if other.Some? {
        HolderIs(rows, parentId, n.slug, other.value);
        return Some(Conflict);
      }
      rows := rows[id := rows[id].(node := n.(parentId := parentId))];
      return None;
    }
  }

  lemma SqlPutKeepsValid(rules: Rules, st: Store, input: NodeInput, now: string)
    requires Numbered(st) && Unique(st.nodes)
    ensures Numbered(SqlPut(rules, st, input, now).0) && Unique(SqlPut(rules, st, input, now).0.nodes)
  {
    var checked := CheckPut(rules, st.nodes, input);
    if checked.Ok? {
      var after := SqlPut(rules, st, input, now).0.nodes;
      if Taken(st.nodes, input.parentId, checked.value.0) {
        SamePlaces(st.nodes, after);
      } else {
        NewPlace(st.nodes, st.nextId + 1, after[st.nextId + 1]);
      }
    }
  }

  lemma SoftDeletedSum(rows: Nodes, a: set<int>, b: set<int>, now: string)
    ensures SoftDeleted(SoftDeleted(rows, a, now), b, now) == SoftDeleted(rows, a + b, now)
  {
    var left, right := SoftDeleted(SoftDeleted(rows, a, now), b, now), SoftDeleted(rows, a + b, now);
    assert left.Keys == right.Keys;
    forall k | k in left
      ensures left[k] == right[k]
    {
    }
  }

  lemma LevelOfList(rows: Nodes, frontier: seq<int>, next: seq<int>)
    requires frontier != [] && Distinct(next)
    requires forall c :: c in next <==> Live(rows, c) && rows[c].node.parentId in frontier
    ensures SetOf(frontier) != {} && SetOf(next) == NextLevel(rows, SetOf(frontier)) && |next| == |SetOf(next)|
  {
    assert frontier[0] in SetOf(frontier);
    SizeOfList(next);
    assert forall c :: c in next <==> c in NextLevel(rows, SetOf(frontier));
  }

  lemma CollectTurn(rows: Nodes, frontier: set<int>, got: set<int>, count: nat)
    requires frontier != {} && count < LIMIT
    ensures var next := NextLevel(rows, frontier);
            Collected(rows, frontier, got, count) == Collected(rows, next, got + next, count + |next|)
  {
  }

  lemma CollectEnd(rows: Nodes, frontier: set<int>, got: set<int>, count: nat)
    requires frontier == {} || count >= LIMIT
    ensures Collected(rows, frontier, got, count) == (got, count)
  {
  }

  // ----- What the levels collect -----

  /** The node lies on a cycle of live child links. */
  ghost predicate OnCycle(rows: Nodes, id: int) {
    exists c :: Below(rows, id, c) && LiveChild(rows, c, id)
  }

  /** What the n-th query returns. */
  ghost function Level(rows: Nodes, id: int, n: nat): set<int> {
    if n == 0 then {id} else NextLevel(rows, Level(rows, id, n - 1))
  }

  /** The levels from 0 to n together. */
  ghost function Reach(rows: Nodes, id: int, n: nat): set<int> {
    if n == 0 then {id} else Reach(rows, id, n - 1) + Level(rows, id, n)
  }

  /** How many rows the levels from 0 to n have, a row found again counting again. */
  ghost function Count(rows: Nodes, id: int, n: nat): nat {
    if n == 0 then 1 else Count(rows, id, n - 1) + |Level(rows, id, n)|
  }

  /** No query up to the n-th returns the node itself. */
  ghost predicate NoReturn(rows: Nodes, id: int, n: nat) {
    forall i :: 1 <= i <= n ==> id !in Level(rows, id, i)
  }

  /** Level n is the first that is empty or brings the count to the limit. */
  ghost predicate StopsAt(rows: Nodes, id: int, n: nat) {
    && (Level(rows, id, n) == {} || Count(rows, id, n) >= LIMIT)
    && forall m :: 0 <= m < n ==> Level(rows, id, m) != {} && Count(rows, id, m) < LIMIT
  }

  /** The loop on every table: it ends after the first level that is empty or brings the count to the limit. */
  lemma {:induction false} CollectedIs(rows: Nodes, id: int, n: nat) returns (e: nat)
    requires forall m :: 0 <= m < n ==> Level(rows, id, m) != {} && Count(rows, id, m) < LIMIT
    ensures StopsAt(rows, id, e)
    ensures Collected(rows, Level(rows, id, n), Reach(rows, id, n), Count(rows, id, n))
         == (Reach(rows, id, e), Count(rows, id, e))
    decreases if Count(rows, id, n) < LIMIT then LIMIT - Count(rows, id, n) else 0, |Level(rows, id, n)|
  {
    hide Collected, NextLevel;
    if Level(rows, id, n) == {} || Count(rows, id, n) >= LIMIT {
      CollectEnd(rows, Level(rows, id, n), Reach(rows, id, n), Count(rows, id, n));
      e := n;
    } else {
      CollectTurn(rows, Level(rows, id, n), Reach(rows, id, n), Count(rows, id, n));
      assert Level(rows, id, n + 1) == {} || |Level(rows, id, n + 1)| > 0;
      e := CollectedIs(rows, id, n + 1);
    }
  }

  /** Only members of the subtree are found. */
  lemma {:induction false} ReachWithin(rows: Nodes, id: int, n: nat)
    requires Live(rows, id)
    ensures Level(rows, id, n) <= Reach(rows, id, n) <= Subtree(rows, id)
  {
    SubtreeTop(rows, id);
    if n > 0 {
      hide Subtree;
      ReachWithin(rows, id, n - 1);
      forall c | c in Level(rows, id, n)
        ensures c in Subtree(rows, id)
      {
        SubtreeChild(rows, id, rows[c].node.parentId, c);
      }
    }
  }

  lemma {:induction false} LevelInReach(rows: Nodes, id: int, j: nat, n: nat)
    requires j <= n
    ensures Level(rows, id, j) <= Reach(rows, id, n) && Count(rows, id, j) <= Count(rows, id, n)
  {
    if j < n {
      LevelInReach(rows, id, j, n - 1);
    }
  }

  lemma {:induction false} LevelOf(rows: Nodes, id: int, n: nat, c: int) returns (j: nat)
    requires c in Reach(rows, id, n)
    ensures j <= n && c in Level(rows, id, j)
  {
    if c in Level(rows, id, n) {
      j := n;
    } else {
      j := LevelOf(rows, id, n - 1, c);
    }
  }

  /** A row has one parent, so it is found at two levels only if the top itself is found again. */
  lemma {:induction false} LevelsApart(rows: Nodes, id: int, j: nat, n: nat, c: int)
    requires j < n && c in Level(rows, id, j) && c in Level(rows, id, n)
    ensures id in Level(rows, id, n - j)
  {
    if j > 0 {
      LevelsApart(rows, id, j - 1, n - 1, rows[c].node.parentId);
    }
  }

  /** A level is apart from the earlier ones exactly as long as the node itself is not found again. */
  lemma NewLevelIff(rows: Nodes, id: int, n: nat)
    requires n > 0 && NoReturn(rows, id, n - 1)
    ensures Level(rows, id, n) !! Reach(rows, id, n - 1) <==> NoReturn(rows, id, n)
  {
    hide NextLevel;
    if NoReturn(rows, id, n) {
      forall c | c in Level(rows, id, n) && c in Reach(rows, id, n - 1)
        ensures false
      {
        var j := LevelOf(rows, id, n - 1, c);
        LevelsApart(rows, id, j, n, c);
      }
    }
    LevelInReach(rows, id, 0, n - 1);
  }

  /** The count is the number of rows found exactly as long as the node itself is not found again. */
  lemma {:induction false} CountIff(rows: Nodes, id: int, n: nat)
    ensures Count(rows, id, n) >= |Reach(rows, id, n)|
    ensures Count(rows, id, n) == |Reach(rows, id, n)| <==> NoReturn(rows, id, n)
  {
    if n > 0 {
      hide Level;
      CountIff(rows, id, n - 1);
      SizeOfSum(Reach(rows, id, n - 1), Level(rows, id, n));
      if NoReturn(rows, id, n - 1) {
        NewLevelIff(rows, id, n);
      }
    }
  }

  /** The levels hold the whole subtree exactly when the next level brings nothing new. */
  lemma ReachAllIff(rows: Nodes, id: int, n: nat)
    requires Live(rows, id)
    ensures Reach(rows, id, n) == Subtree(rows, id) <==> Level(rows, id, n + 1) <= Reach(rows, id, n)
  {
    var got := Reach(rows, id, n);
    ReachWithin(rows, id, n);
    ReachWithin(rows, id, n + 1);
    if Level(rows, id, n + 1) <= got {
      forall p, c | p in got && LiveChild(rows, p, c)
        ensures c in got
      {
        var j := LevelOf(rows, id, n, p);
        assert c in Level(rows, id, j + 1);
        if j < n {
          LevelInReach(rows, id, j + 1, n);
        }
      }
      LevelInReach(rows, id, 0, n);
      forall x | x in Subtree(rows, id)
        ensures x in got
      {
        var path :| Walk(rows, path) && path[0] == id && path[|path| - 1] == x;
        ClosedHasWalk(rows, got, path);
      }
    }
  }

  /** The cycle, as a walk from the node down to a node whose live child it is. */
  ghost predicate CycleWalk(rows: Nodes, id: int, path: seq<int>) {
    Walk(rows, path) && path[0] == id && LiveChild(rows, path[|path| - 1], id)
  }

  /** On a cycle every level has a row, round and round. */
  lemma {:induction false} CycleLevels(rows: Nodes, id: int, path: seq<int>, n: nat) returns (i: nat)
    requires CycleWalk(rows, id, path)
    ensures i < |path| && path[i] in Level(rows, id, n)
  {
    if n == 0 {
      i := 0;
    } else {
      var j := CycleLevels(rows, id, path, n - 1);
      i := if j + 1 < |path| then j + 1 else 0;
      assert LiveChild(rows, path[j], path[i]);
    }
  }

  lemma OnCycleNeverEmpty(rows: Nodes, id: int, n: nat)
    requires OnCycle(rows, id)
    ensures Level(rows, id, n) != {}
  {
    var c :| Below(rows, id, c) && LiveChild(rows, c, id);
    var path :| Walk(rows, path) && path[0] == id && path[|path| - 1] == c;
    assert CycleWalk(rows, id, path);
    var i := CycleLevels(rows, id, path, n);
  }

  lemma OffCycleNoReturn(rows: Nodes, id: int, n: nat)
    requires Live(rows, id) && !OnCycle(rows, id)
    ensures NoReturn(rows, id, n)
  {
    forall i | 1 <= i <= n
      ensures id !in Level(rows, id, i)
    {
      if id in Level(rows, id, i) {
        var p := rows[id].node.parentId;
        ReachWithin(rows, id, i - 1);
        assert p in Subtree(rows, id) && LiveChild(rows, p, id);
      }
    }
  }

  /**
   * Down to some level there is the whole subtree, the levels above it stay under the limit and do not lead back
   * to the node, and on a cycle the limit is reached before they do.
   */
  ghost predicate CompleteAt(rows: Nodes, id: int, n: nat) {
    && Reach(rows, id, n) == Subtree(rows, id)
    && (n > 0 ==> Count(rows, id, n - 1) < LIMIT)
    && NoReturn(rows, id, n)
    && (OnCycle(rows, id) ==> Count(rows, id, n) >= LIMIT)
  }

  ghost predicate Complete(rows: Nodes, id: int) {
    exists n: nat :: CompleteAt(rows, id, n)
  }

  lemma CompleteIsCollected(rows: Nodes, id: int, e: nat, n: nat)
    requires Live(rows, id) && StopsAt(rows, id, e) && CompleteAt(rows, id, n)
    ensures Reach(rows, id, e) == Subtree(rows, id) && Count(rows, id, e) == |Subtree(rows, id)|
  {
    hide Subtree, NextLevel, OnCycle;
    if OnCycle(rows, id) {
      OnCycleNeverEmpty(rows, id, e);
    }
    if e < n {
      LevelInReach(rows, id, e, n - 1);
      EmptyIsAll(rows, id, e);
    } else if e > n {
      OffCycleNoReturn(rows, id, n + 1);
      CountIff(rows, id, n);
      CountIff(rows, id, n + 1);
      ReachAllIff(rows, id, n);
      assert Reach(rows, id, n + 1) == Reach(rows, id, n);
      assert Level(rows, id, n + 1) == {};
      assert e == n + 1;
    }
    CountIff(rows, id, e);
  }

  lemma EmptyIsAll(rows: Nodes, id: int, n: nat)
    requires Live(rows, id) && Level(rows, id, n) == {}
    ensures Reach(rows, id, n) == Subtree(rows, id)
  {
    ReachAllIff(rows, id, n);
  }

  /**
   * The set and the count for every live node of every table: within the subtree always, the whole subtree with
   * its size exactly when it is complete, and under the limit exactly when the node is on no cycle.
   */
  lemma DeleteIff(rows: Nodes, id: int)
    requires Live(rows, id)
    ensures var c := Collected(rows, {id}, {id}, 1);
            && id in c.0 && c.0 <= Subtree(rows, id)
            && (OnCycle(rows, id) ==> c.1 >= LIMIT)
            && (!OnCycle(rows, id) ==> c.1 == |c.0|)
            && (c == (Subtree(rows, id), |Subtree(rows, id)|) <==> Complete(rows, id))
            && (|Subtree(rows, id)| < LIMIT ==> (Complete(rows, id) <==> !OnCycle(rows, id)))
  {
    hide Subtree, NextLevel, OnCycle, Collected;
    var e := CollectedIs(rows, id, 0);
    var c := Collected(rows, {id}, {id}, 1);
    LevelInReach(rows, id, 0, e);
    ReachWithin(rows, id, e);
    CountIff(rows, id, e);
    if OnCycle(rows, id) {
      OnCycleNeverEmpty(rows, id, e);
    } else {
      OffCycleNoReturn(rows, id, e);
      SubsetSize(c.0, Subtree(rows, id));
      if Level(rows, id, e) == {} {
        EmptyIsAll(rows, id, e);
      }
    }
    if n: nat :| CompleteAt(rows, id, n) {
      CompleteIsCollected(rows, id, e, n);
    }
    if c == (Subtree(rows, id), |Subtree(rows, id)|) {
      assert CompleteAt(rows, id, e);
    }
  }
}
