/**
 * The content tree of projects/board: the node types and checks of content.go, and what each operation of the
 * store does to the table of nodes.
 */
module Content {
  import opened Wrappers
  import opened Sorting

  const MODULE: string := "module"
  const DETAIL: string := "detail"
  const BLOCK: string := "block"
  const LEGACY_LIST: string := "list"

  datatype Node = Node(
    id: int,
    parentId: int,
    typ: string,
    slug: string,
    title: string,
    data: string,
    schemaVersion: int,
    createdAt: string,
    updatedAt: string)

  datatype NodeInput = NodeInput(parentId: int, typ: string, slug: string, title: string, data: string,
                                 schemaVersion: int)

  datatype Error = NotFound | Conflict | BadSlug | BadData | BadSchemaVersion | ReservedSlug | BadType | BadParent

  /** A stored node: soft deletion keeps the record, and sequence orders nodes by creation. */
  datatype MemNode = MemNode(node: Node, deleted: bool, sequence: int)

  type Nodes = map<int, MemNode>

  datatype Store = Store(nextId: int, nodes: Nodes)

  /** The checks on slugs and JSON data, which give the cleaned value or refuse. */
  datatype Rules = Rules(slug: string -> Option<string>, data: string -> Option<string>)

  // ----- content.go -----

  /** The type a node's parent must have; a module's is empty because it hangs on the root. */
  function ParentType(typ: string): Option<string> {
    if typ == MODULE then Some("")
    else if typ == DETAIL then Some(MODULE)
    else if typ == BLOCK then Some(DETAIL)
    else None
  }

  function CheckParent(typ: string, parent: Option<Node>): Option<Error> {
    match ParentType(typ)
    case None => Some(BadType)
    case Some(want) =>
      if want == "" then (if parent.Some? then Some(BadParent) else None)
      else if parent.None? then Some(BadParent)
      else if parent.value.typ != want then Some(BadParent)
      else None
  }

  function CheckModuleSlug(typ: string, slug: string): Option<Error> {
    if typ == MODULE && slug == "modules" then Some(ReservedSlug) else None
  }

  function CleanSchemaVersion(v: int): Result<int, Error> {
    if v == 0 then Ok(1) else if v < 0 then Err(BadSchemaVersion) else Ok(v)
  }

  function NodePageArgs(page: int, size: int): (int, int) {
    (if page < 1 then 1 else page, if size < 1 then 20 else if size > 100 then 100 else size)
  }

  // ----- The tree -----

  predicate Live(nodes: Nodes, id: int) {
    id in nodes && !nodes[id].deleted
  }

  predicate LiveChild(nodes: Nodes, p: int, c: int) {
    Live(nodes, c) && nodes[c].node.parentId == p
  }

  /** A walk from parent to live child at every step. */
  ghost predicate Walk(nodes: Nodes, path: seq<int>) {
    |path| > 0 && forall i :: 0 <= i < |path| - 1 ==> LiveChild(nodes, path[i], path[i + 1])
  }

  ghost predicate Below(nodes: Nodes, top: int, x: int) {
    exists path :: Walk(nodes, path) && path[0] == top && path[|path| - 1] == x
  }

  /** The node and everything reachable from it over live child links. */
  ghost function Subtree(nodes: Nodes, id: int): (s: set<int>)
    ensures s <= nodes.Keys
  {
    set x | x in nodes && Below(nodes, id, x)
  }

  function MarkDeleted(nodes: Nodes, ids: set<int>): Nodes {
    map k | k in nodes :: if k in ids then nodes[k].(deleted := true) else nodes[k]
  }

  // ----- What the operations do -----

  predicate Takes(n: MemNode, parentId: int, slug: string) {
    n.node.parentId == parentId && n.node.slug == slug
  }

  /** Some node, deleted or not, has this place under this parent. */
  ghost predicate Taken(nodes: Nodes, parentId: int, slug: string) {
    exists k :: k in nodes && Takes(nodes[k], parentId, slug)
  }

  /** The node that has the place; it is the only one in a store with unique places. */
  ghost function Holder(nodes: Nodes, parentId: int, slug: string): (k: int)
    requires Taken(nodes, parentId, slug)
    ensures k in nodes && Takes(nodes[k], parentId, slug)
  {
    var k :| k in nodes && Takes(nodes[k], parentId, slug);
    k
  }

  /** (parent, slug) is unique, counting deleted nodes. */
  ghost predicate Unique(nodes: Nodes) {
    forall j, k :: j in nodes && k in nodes && Takes(nodes[j], nodes[k].node.parentId, nodes[k].node.slug) ==> j == k
  }

  ghost predicate Numbered(st: Store) {
    && st.nextId >= 0
    && forall k :: k in st.nodes ==> 0 < k <= st.nextId && st.nodes[k].node.id == k && st.nodes[k].sequence == k
  }

  function LiveNode(nodes: Nodes, id: int): Result<Node, Error> {
    if Live(nodes, id) then Ok(nodes[id].node) else Err(NotFound)
  }

  /** The parent that PutNode checks against: none for the root. */
  function ParentOf(nodes: Nodes, parentId: int): Result<Option<Node>, Error> {
    if parentId == 0 then Ok(None)
    else if Live(nodes, parentId) then Ok(Some(nodes[parentId].node))
    else Err(NotFound)
  }

  /** All the checks of PutNode, in its order; the cleaned slug, data and version if they pass. */
  function CheckPut(rules: Rules, nodes: Nodes, input: NodeInput): Result<(string, string, int), Error> {
    match rules.slug(input.slug)
    case None => Err(BadSlug)
    case Some(slug) =>
      match rules.data(input.data)
      case None => Err(BadData)
      case Some(data) =>
        match CleanSchemaVersion(input.schemaVersion)
        case Err(e) => Err(e)
        case Ok(sv) =>
          match ParentOf(nodes, input.parentId)
          case Err(e) => Err(e)
          case Ok(parent) =>
            match CheckModuleSlug(input.typ, slug)
            case Some(e) => Err(e)
            case None =>
              match CheckParent(input.typ, parent)
              case Some(e) => Err(e)
              case None => Ok((slug, data, sv))
  }

  /** The record after an upsert of an existing place: overwritten, and alive again. */
  function Overwritten(n: MemNode, input: NodeInput, clean: (string, string, int), now: string): MemNode {
    n.(node := n.node.(typ := input.typ, title := input.title, data := clean.1, schemaVersion := clean.2,
                       updatedAt := now),
       deleted := false)
  }

  function NewNode(id: int, input: NodeInput, clean: (string, string, int), now: string): MemNode {
    MemNode(Node(id, input.parentId, input.typ, clean.0, input.title, clean.1, clean.2, now, now), false, id)
  }

  ghost function Put(rules: Rules, st: Store, input: NodeInput, now: string): (Store, Result<Node, Error>) {
    match CheckPut(rules, st.nodes, input)
    case Err(e) => (st, Err(e))
    case Ok(clean) =>
      if Taken(st.nodes, input.parentId, clean.0) then
        var k := Holder(st.nodes, input.parentId, clean.0);
        var n := Overwritten(st.nodes[k], input, clean, now);
        (st.(nodes := st.nodes[k := n]), Ok(n.node))
      else
        var n := NewNode(st.nextId + 1, input, clean, now);
        (Store(st.nextId + 1, st.nodes[st.nextId + 1 := n]), Ok(n.node))
  }

  /** UpdateNode of the memory store stores the data before it looks at the schema version. */
  function Update(rules: Rules, st: Store, id: int, title: Option<string>, data: Option<string>,
                  schemaVersion: Option<int>, now: string)
    : (Store, Result<Node, Error>)
  {
    if !Live(st.nodes, id) then (st, Err(NotFound))
    else
      var n := st.nodes[id];
      if data.Some? && rules.data(data.value).None? then (st, Err(BadData))
      else
        var n1 := if data.Some? then n.(node := n.node.(data := rules.data(data.value).value)) else n;
        if schemaVersion.Some? && CleanSchemaVersion(schemaVersion.value).Err? then
          (st.(nodes := st.nodes[id := n1]), Err(BadSchemaVersion))
        else
          var n2 := if schemaVersion.Some?
                    then n1.(node := n1.node.(schemaVersion := CleanSchemaVersion(schemaVersion.value).value))
                    else n1;
          var n3 := if title.Some? then n2.(node := n2.node.(title := title.value)) else n2;
          var n4 := n3.(node := n3.node.(updatedAt := now));
          (st.(nodes := st.nodes[id := n4]), Ok(n4.node))
  }

  ghost function Delete(st: Store, id: int): (Store, Result<nat, Error>) {
    if !Live(st.nodes, id) then (st, Err(NotFound))
    else (st.(nodes := MarkDeleted(st.nodes, Subtree(st.nodes, id))), Ok(|Subtree(st.nodes, id)|))
  }

  /** MoveNode checks only that the place is free under the new parent, not what the new parent is. */
  ghost function Move(st: Store, id: int, parentId: int): (Store, Option<Error>) {
    if !Live(st.nodes, id) then (st, Some(NotFound))
    else if st.nodes[id].node.parentId == parentId then (st, None)
    else if Taken(st.nodes, parentId, st.nodes[id].node.slug) then (st, Some(Conflict))
    else (st.(nodes := Reparented(st.nodes, id, parentId)), None)
  }

  function Reparented(nodes: Nodes, id: int, parentId: int): Nodes
    requires id in nodes
  {
    nodes[id := nodes[id].(node := nodes[id].node.(parentId := parentId))]
  }

  // ----- Listing -----

  function ChildIds(nodes: Nodes, parentId: int, typ: string): set<int> {
    set k | k in nodes && !nodes[k].deleted && nodes[k].node.parentId == parentId && nodes[k].node.typ == typ
  }

  /** The live children of a type, newest first. */
  function NewestFirst(nodes: Nodes, parentId: int, typ: string): seq<int> {
    Descending(ChildIds(nodes, parentId, typ))
  }

  /** The slice of s that page number page of the given size holds. */
  function PageSlice<T>(s: seq<T>, page: int, size: int): seq<T>
    requires page >= 1 && size >= 1
  {
    var lo := (page - 1) * size;
    var hi := page * size;
    SliceBounds(page, size);
    if |s| <= lo then [] else if |s| <= hi then s[lo..] else s[lo..hi]
  }

  lemma SliceBounds(page: int, size: int)
    requires page >= 1 && size >= 1
    ensures 0 <= (page - 1) * size < page * size == (page - 1) * size + size
  {
  }
}
