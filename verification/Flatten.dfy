/**
 * The migration of projects/board/content_flatten.go, over either content store: details of legacy lists move up to
 * their module.
 */
module Flatten {
  import opened Wrappers
  import opened Content
  import opened MemStore
  import opened MysqlStore

  // ----- The interface ContentStore -----

  /** Which store is migrated; on MySQL the clock tells when each list is deleted. */
  datatype Backend = Memory | Mysql(clock: int -> string)

  /** The live children of a type in the order in which the store lists them. */
  function Listed(b: Backend, nodes: Nodes, parent: int, typ: string): seq<int> {
    match b
    case Memory => NewestFirst(nodes, parent, typ)
    case Mysql(_) => LatestFirst(nodes, parent, typ)
  }

  ghost function Erase(b: Backend, st: Store, id: int): (Store, Result<nat, Error>) {
    match b
    case Memory => Delete(st, id)
    case Mysql(clock) => SqlDelete(st, id, clock(id))
  }

  datatype ContentStore = InMemory(mem: MemContent) | OnMysql(sql: MysqlContent, clock: int -> string)

  function Obj(c: ContentStore): object {
    match c
    case InMemory(mem) => mem
    case OnMysql(sql, _) => sql
  }

  function BackendOf(c: ContentStore): Backend {
    match c
    case InMemory(_) => Memory
    case OnMysql(_, clock) => Mysql(clock)
  }

  ghost function St(c: ContentStore): Store
    reads Obj(c)
  {
    match c
    case InMemory(mem) => mem.St()
    case OnMysql(sql, _) => sql.St()
  }

  ghost predicate Valid(c: ContentStore)
    reads Obj(c)
  {
    Numbered(St(c)) && Unique(St(c).nodes)
  }

  method ListChildren(c: ContentStore, parent: int, typ: string, page: int, size: int)
    returns (items: seq<Node>, pageOut: int, sizeOut: int, total: nat)
    requires Valid(c)
    ensures pageOut == if page < 1 then 1 else page
    ensures sizeOut == if size < 1 then 20 else if size > 100 then 100 else size
    ensures total == |Listed(BackendOf(c), St(c).nodes, parent, typ)|
    ensures items == NodesAt(St(c).nodes, PageSlice(Listed(BackendOf(c), St(c).nodes, parent, typ), pageOut, sizeOut))
  {
    hide NewestFirst, LatestFirst, PageSlice, NodesAt;
    match c
    case InMemory(mem) => items, pageOut, sizeOut, total := mem.ListChildren(parent, typ, page, size);
    case OnMysql(sql, _) => items, pageOut, sizeOut, total := sql.ListChildren(parent, typ, page, size);
  }

  method MoveNode(c: ContentStore, id: int, parent: int) returns (err: Option<Error>)
    requires Valid(c)
    modifies Obj(c)
    ensures Valid(c)
    ensures (St(c), err) == Move(old(St(c)), id, parent)
  {
    hide Move, Numbered, Unique;
    match c
    case InMemory(mem) => err := mem.MoveNode(id, parent);
    case OnMysql(sql, _) => err := sql.MoveNode(id, parent);
  }

  method DeleteNode(c: ContentStore, id: int) returns (r: Result<nat, Error>)
    requires Valid(c)
    modifies Obj(c)
    ensures Valid(c)
    ensures (St(c), r) == Erase(BackendOf(c), old(St(c)), id)
  {
    hide Delete, SqlDelete;
    match c
    case InMemory(mem) => r := mem.DeleteNode(id);
    case OnMysql(sql, clock) =>
      SqlDeleteKeepsValid(sql.St(), id, clock(id));
      r := sql.DeleteNode(id, clock(id));
  }

  lemma SqlDeleteKeepsValid(st: Store, id: int, now: string)
    requires Numbered(st) && Unique(st.nodes)
    ensures Numbered(SqlDelete(st, id, now).0) && Unique(SqlDelete(st, id, now).0.nodes)
  {
    hide Collected;
    SamePlaces(st.nodes, SqlDelete(st, id, now).0.nodes);
  }

  // ----- Pagination -----

  /** Pages 1 to n of a list, put together. */
  function Pages<T>(s: seq<T>, size: int, n: nat): seq<T>
    requires size >= 1
  {
    if n == 0 then [] else Pages(s, size, n - 1) + PageSlice(s, n, size)
  }

  /** Pagination is lossless: the first n pages are the first n * size elements, with no gap and no repeat. */
  lemma {:induction false} PagesAreAPrefix<T>(s: seq<T>, size: int, n: nat)
    requires size >= 1
    ensures Pages(s, size, n) == if n * size <= |s| then s[..n * size] else s
  {
    if n > 0 {
      PagesAreAPrefix(s, size, n - 1);
      SliceBounds(n, size);
    }
  }

  /** The inner pager of flattenLists: it ends, and returns every matching child once, in the order of the store. */
  method All(c: ContentStore, parent: int, typ: string) returns (out: seq<Node>)
    requires Valid(c)
    ensures out == NodesAt(St(c).nodes, Listed(BackendOf(c), St(c).nodes, parent, typ))
  {
    hide Listed, PageSlice, Unique, Numbered;
    ghost var ids := Listed(BackendOf(c), St(c).nodes, parent, typ);
    out := [];
    var page := 1;
    while true
      invariant page >= 1
      invariant out == NodesAt(St(c).nodes, Pages(ids, 100, page - 1))
      decreases |ids| - (page - 1) * 100
    {
      PagesAreAPrefix(ids, 100, page - 1);
      PagesAreAPrefix(ids, 100, page);
      PageLength(ids, page);
      var items, pageOut, sizeOut, total := ListChildren(c, parent, typ, page, 100);
      NodesAppend(St(c).nodes, Pages(ids, 100, page - 1), PageSlice(ids, page, 100));
      out := out + items;
      if |items| == 0 || pageOut * sizeOut >= total {
        return;
      }
      page := page + 1;
    }
  }

  lemma PageLength<T>(s: seq<T>, page: int)
    requires page >= 1
    ensures |PageSlice(s, page, 100)| == 0 ==> (page - 1) * 100 >= |s|
  {
  }

  lemma NodesAppend(nodes: Nodes, a: seq<int>, b: seq<int>)
    ensures NodesAt(nodes, a + b) == NodesAt(nodes, a) + NodesAt(nodes, b)
  {
  }

  // ----- The migration as a function of the store -----

  datatype Outcome = Outcome(st: Store, moved: nat, skipped: nat, err: Option<Error>)

  /** The loop over the details of one list. */
  ghost function MoveAll(st: Store, m: int, ds: seq<int>): Outcome
    decreases |ds|
  {
    if ds == [] then Outcome(st, 0, 0, None)
    else
      var (st', err) := Move(st, ds[0], m);
      if err.Some? && err.value != Conflict then Outcome(st', 0, 0, err)
      else
        var r := MoveAll(st', m, ds[1..]);
        if err.None? then r.(moved := r.moved + 1) else r.(skipped := r.skipped + 1)
  }

  /** One list: move its details, and delete it if none was left. */
  ghost function OneList(b: Backend, st: Store, m: int, l: int): Outcome {
    var r := MoveAll(st, m, Listed(b, st.nodes, l, DETAIL));
    if r.err.Some? || r.skipped > 0 then r
    else
      var d := Erase(b, r.st, l);
      r.(st := d.0, err := if d.1.Err? then Some(d.1.error) else None)
  }

  /** The lists of one module. */
  ghost function Lists(b: Backend, st: Store, m: int, ls: seq<int>): Outcome
    decreases |ls|
  {
    if ls == [] then Outcome(st, 0, 0, None)
    else
      var r := OneList(b, st, m, ls[0]);
      if r.err.Some? then r
      else
        var later := Lists(b, r.st, m, ls[1..]);
        Outcome(later.st, r.moved + later.moved, r.skipped + later.skipped, later.err)
  }

  ghost function Modules(b: Backend, st: Store, ms: seq<int>): Outcome
    decreases |ms|
  {
    if ms == [] then Outcome(st, 0, 0, None)
    else
      var r := Lists(b, st, ms[0], Listed(b, st.nodes, ms[0], LEGACY_LIST));
      if r.err.Some? then r
      else
        var later := Modules(b, r.st, ms[1..]);
        Outcome(later.st, r.moved + later.moved, r.skipped + later.skipped, later.err)
  }

  ghost function Migrated(b: Backend, st: Store): Outcome {
    Modules(b, st, Listed(b, st.nodes, 0, MODULE))
  }

  // ----- The nested loops -----

  ghost function Plus(moved: nat, skipped: nat, r: Outcome): Outcome {
    r.(moved := moved + r.moved, skipped := skipped + r.skipped)
  }

  lemma ListedIds(b: Backend, st: Store, parent: int, typ: string)
    requires Numbered(st)
    ensures var ids := Listed(b, st.nodes, parent, typ);
            forall i :: 0 <= i < |ids| ==> NodesAt(st.nodes, ids)[i].id == ids[i]
  {
    var ids := Listed(b, st.nodes, parent, typ);
    forall i | 0 <= i < |ids|
      ensures NodesAt(st.nodes, ids)[i].id == ids[i]
    {
      assert ids[i] in ids;
    }
  }

  method FlattenDetails(c: ContentStore, m: int, l: int) returns (moved: nat, skipped: nat, err: Option<Error>)
    requires Valid(c)
    modifies Obj(c)
    ensures Valid(c)
    ensures Outcome(St(c), moved, skipped, err) == OneList(BackendOf(c), old(St(c)), m, l)
  {
    hide Move, Erase, Unique, Numbered, Listed, NodesAt;
    var ds := All(c, l, DETAIL);
    ghost var ids := Listed(BackendOf(c), St(c).nodes, l, DETAIL);
    ListedIds(BackendOf(c), St(c), l, DETAIL);
    moved, skipped, err := 0, 0, None;
    for k := 0 to |ds|
      invariant Valid(c) && err == None
      invariant Plus(moved, skipped, MoveAll(St(c), m, ids[k..])) == MoveAll(old(St(c)), m, ids)
    {
      assert ids[k..][1..] == ids[k + 1..];
      var e := MoveNode(c, ds[k].id, m);
      if e.None? {
        moved := moved + 1;
      } else if e == Some(Conflict) {
        skipped := skipped + 1;
      } else {
        err := e;
        return;
      }
    }
    assert ids[|ds|..] == [];
    assert MoveAll(St(c), m, []) == Outcome(St(c), 0, 0, None);
    if skipped == 0 {
      var gone := DeleteNode(c, l);
      if gone.Err? {
        err := Some(gone.error);
      }
    }
  }

  method FlattenModule(c: ContentStore, m: int) returns (moved: nat, skipped: nat, err: Option<Error>)
    requires Valid(c)
    modifies Obj(c)
    ensures Valid(c)
    ensures Outcome(St(c), moved, skipped, err)
         == Lists(BackendOf(c), old(St(c)), m, Listed(BackendOf(c), old(St(c)).nodes, m, LEGACY_LIST))
  {
    hide OneList, Unique, Numbered, Listed, NodesAt;
    var lists := All(c, m, LEGACY_LIST);
    ghost var ids := Listed(BackendOf(c), St(c).nodes, m, LEGACY_LIST);
    ListedIds(BackendOf(c), St(c), m, LEGACY_LIST);
    moved, skipped, err := 0, 0, None;
    for k := 0 to |lists|
      invariant Valid(c) && err == None
      invariant Plus(moved, skipped, Lists(BackendOf(c), St(c), m, ids[k..])) == Lists(BackendOf(c), old(St(c)), m, ids)
    {
      assert ids[k..][1..] == ids[k + 1..];
      var mv, sk, e := FlattenDetails(c, m, lists[k].id);
      moved, skipped, err := moved + mv, skipped + sk, e;
      if err.Some? {
        return;
      }
    }
    assert ids[|lists|..] == [];
    assert Lists(BackendOf(c), St(c), m, []) == Outcome(St(c), 0, 0, None);
  }

  method FlattenLists(c: ContentStore) returns (moved: nat, skipped: nat, err: Option<Error>)
    requires Valid(c)
    modifies Obj(c)
    ensures Valid(c)
    ensures Outcome(St(c), moved, skipped, err) == Migrated(BackendOf(c), old(St(c)))
  {
    hide Lists, Unique, Numbered, Listed, NodesAt;
    var mods := All(c, 0, MODULE);
    ghost var ids := Listed(BackendOf(c), St(c).nodes, 0, MODULE);
    ListedIds(BackendOf(c), St(c), 0, MODULE);
    moved, skipped, err := 0, 0, None;
    for k := 0 to |mods|
      invariant Valid(c) && err == None
      invariant Plus(moved, skipped, Modules(BackendOf(c), St(c), ids[k..])) == Modules(BackendOf(c), old(St(c)), ids)
    {
      assert ids[k..][1..] == ids[k + 1..];
      var mv, sk, e := FlattenModule(c, mods[k].id);
      moved, skipped, err := moved + mv, skipped + sk, e;
      if err.Some? {
        return;
      }
    }
    assert ids[|mods|..] == [];
    assert Modules(BackendOf(c), St(c), []) == Outcome(St(c), 0, 0, None);
  }
}
