/**
 * What the migration conserves, what it reports, which layout it leaves and what a second run does, on either store
 * and in whatever order that store lists.
 */
module FlattenProperties {
  import opened Wrappers
  import opened Sets
  import opened Content
  import opened MemStore
  import opened MysqlStore
  import opened ContentInvariants
  import opened Flatten

  predicate IsList(nodes: Nodes, k: int) {
    Live(nodes, k) && nodes[k].node.typ == LEGACY_LIST
  }

  /** A legacy store: every live list hangs on a live module at the root, and holds only details. */
  ghost predicate Legacy(st: Store) {
    && Numbered(st)
    && Unique(st.nodes)
    && (forall l :: IsList(st.nodes, l) ==> ListPlaced(st.nodes, l))
    && forall l, c :: IsList(st.nodes, l) && LiveChild(st.nodes, l, c) ==> st.nodes[c].node.typ == DETAIL
  }

  predicate ListPlaced(nodes: Nodes, l: int)
    requires l in nodes
  {
    var m := nodes[l].node.parentId;
    Live(nodes, m) && nodes[m].node.typ == MODULE && nodes[m].node.parentId == 0
  }

  function AllLists(nodes: Nodes): set<int> {
    set l | l in nodes && IsList(nodes, l)
  }

  /** The live details under the lists L. */
  function DetailsUnder(nodes: Nodes, L: set<int>): set<int> {
    set d | d in nodes && !nodes[d].deleted && nodes[d].node.typ == DETAIL && nodes[d].node.parentId in L
  }

  /** The node is as it was. */
  predicate Kept(a: Nodes, b: Nodes, k: int) {
    k in a && k in b && b[k] == a[k]
  }

  /** A live detail of a live list that now hangs directly under the list's module, otherwise as it was. */
  predicate MovedUp(a: Nodes, b: Nodes, k: int) {
    && Live(a, k) && k in b && a[k].node.typ == DETAIL
    && var l := a[k].node.parentId;
    && IsList(a, l)
    && b[k] == a[k].(node := a[k].node.(parentId := a[l].node.parentId))
  }

  /** The record after its deletion, which on MySQL also sets the time. */
  function Gone(bk: Backend, k: int, n: MemNode): MemNode {
    match bk
    case Memory => n.(deleted := true)
    case Mysql(clock) => n.(deleted := true, node := n.node.(updatedAt := clock(k)))
  }

  /** A live list that is now deleted, has no live child left, and is otherwise as it was. */
  ghost predicate Removed(bk: Backend, a: Nodes, b: Nodes, k: int) {
    && IsList(a, k) && k in b
    && b[k] == Gone(bk, k, a[k])
    && forall c :: !LiveChild(b, k, c)
  }

  /** Nothing else ever happens to a node. */
  ghost predicate Conserved(bk: Backend, a: Store, b: Store) {
    && a.nextId == b.nextId
    && a.nodes.Keys == b.nodes.Keys
    && forall k :: k in a.nodes ==>
      Kept(a.nodes, b.nodes, k) || MovedUp(a.nodes, b.nodes, k) || Removed(bk, a.nodes, b.nodes, k)
  }

  /** A list that is still alive has a detail, and each of its details has a slug that is taken in the module. */
  ghost predicate Stuck(nodes: Nodes, l: int)
    requires l in nodes
  {
    && (exists d :: LiveChild(nodes, l, d))
    && forall d :: LiveChild(nodes, l, d) ==> Taken(nodes, nodes[l].node.parentId, nodes[d].node.slug)
  }

  ghost predicate Settled(nodes: Nodes, L: set<int>) {
    forall l :: l in L && IsList(nodes, l) ==> Stuck(nodes, l)
  }

  function MovedIds(a: Nodes, b: Nodes): set<int> {
    set k | k in a && k in b && a[k].node.parentId != b[k].node.parentId
  }

  /** Only the lists L and the nodes under them may differ. */
  predicate OnlyTouches(a: Nodes, b: Nodes, L: set<int>) {
    forall k :: k in a && k in b && b[k] != a[k] ==> k in L || a[k].node.parentId in L
  }

  /** The complete account of migrating the lists L. */
  ghost predicate Account(bk: Backend, a: Store, r: Outcome, L: set<int>) {
    && r.err.None?
    && Legacy(r.st)
    && Conserved(bk, a, r.st)
    && Settled(r.st.nodes, L)
    && OnlyTouches(a.nodes, r.st.nodes, L)
    && r.moved == |MovedIds(a.nodes, r.st.nodes)|
    && r.skipped == |DetailsUnder(r.st.nodes, L)|
  }

  // ----- Moving the details of one list -----

  /** How the table looks after some of the details ds of list l were tried. */
  ghost predicate Tried(a: Store, b: Store, m: int, ds: set<int>) {
    && Numbered(b) && Unique(b.nodes)
    && a.nextId == b.nextId
    && a.nodes.Keys == b.nodes.Keys
    && forall k :: k in a.nodes ==>
         || b.nodes[k] == a.nodes[k]
         || (k in ds && b.nodes[k] == a.nodes[k].(node := a.nodes[k].node.(parentId := m)))
  }

  /** The outcome of trying the details ds of list l: the counts, and why a detail is still there. */
  ghost predicate TriedAll(a: Store, r: Outcome, m: int, l: int, ds: seq<int>) {
    && r.err.None?
    && Tried(a, r.st, m, set d | d in ds)
    && r.moved == |MovedIds(a.nodes, r.st.nodes)|
    && r.moved + r.skipped == |ds|
    && forall d :: d in ds && d in a.nodes && d in r.st.nodes && r.st.nodes[d].node.parentId == l ==>
         Taken(r.st.nodes, m, a.nodes[d].node.slug)
  }

  lemma {:induction false} MoveAllTried(a: Store, m: int, l: int, ds: seq<int>)
    requires Numbered(a) && Unique(a.nodes) && l != m && Distinct(ds)
    requires forall d :: d in ds ==> LiveChild(a.nodes, l, d)
    ensures TriedAll(a, MoveAll(a, m, ds), m, l, ds)
    decreases |ds|
  {
    if ds == [] {
      assert MovedIds(a.nodes, a.nodes) == {};
    } else {
      hide Move, MoveAll, TriedAll, Numbered, Unique, Distinct;
      MoveKeepsValid(a, ds[0], m);
      MoveAllFirst(a, m, l, ds);
      MoveAllTried(Move(a, ds[0], m).0, m, l, ds[1..]);
      TriedFirst(a, m, l, ds, MoveAll(Move(a, ds[0], m).0, m, ds[1..]));
    }
  }

  lemma TriedFirst(a: Store, m: int, l: int, ds: seq<int>, r: Outcome)
    requires l != m && ds != [] && Distinct(ds) && forall d :: d in ds ==> LiveChild(a.nodes, l, d)
    requires TriedAll(Move(a, ds[0], m).0, r, m, l, ds[1..])
    ensures var first := Move(a, ds[0], m).1.None?;
            TriedAll(a, if first then r.(moved := r.moved + 1) else r.(skipped := r.skipped + 1), m, l, ds)
  {
    FirstMoves(a, m, l, ds, r);
    FirstTaken(a, m, l, ds, r);
  }

  lemma FirstMoves(a: Store, m: int, l: int, ds: seq<int>, r: Outcome)
    requires l != m && ds != [] && Distinct(ds) && forall d :: d in ds ==> LiveChild(a.nodes, l, d)
    requires TriedAll(Move(a, ds[0], m).0, r, m, l, ds[1..])
    ensures Tried(a, r.st, m, set d | d in ds)
    ensures |MovedIds(a.nodes, r.st.nodes)| == r.moved + (if Move(a, ds[0], m).1.None? then 1 else 0)
  {
    MoveAllFirst(a, m, l, ds);
    hide Distinct, Move, MoveAll, MovedIds, Taken, Tried;
    var d, rest := ds[0], set x | x in ds[1..];
    assert d in ds && (set x | x in ds) == {d} + rest;
    MovesAdd(a, Move(a, d, m).0, r.st, d, m, rest);
  }

  lemma FirstTaken(a: Store, m: int, l: int, ds: seq<int>, r: Outcome)
    requires l != m && ds != [] && Distinct(ds) && forall d :: d in ds ==> LiveChild(a.nodes, l, d)
    requires TriedAll(Move(a, ds[0], m).0, r, m, l, ds[1..])
    ensures forall x :: x in ds && x in r.st.nodes && r.st.nodes[x].node.parentId == l ==>
              Taken(r.st.nodes, m, a.nodes[x].node.slug)
  {
    MoveAllFirst(a, m, l, ds);
    hide Distinct, Move, MoveAll, MovedIds, Taken, Tried;
    var d := ds[0];
    assert d in ds;
    forall x | x in ds && x in r.st.nodes && r.st.nodes[x].node.parentId == l
      ensures Taken(r.st.nodes, m, a.nodes[x].node.slug)
    {
      if x == d {
        StayedIsTaken(a, r.st, d, m, set y | y in ds[1..]);
      } else {
        OtherUntouched(a, d, m, x);
      }
    }
  }

  lemma OtherUntouched(a: Store, d: int, m: int, x: int)
    requires x in a.nodes && x != d
    ensures x in Move(a, d, m).0.nodes && Move(a, d, m).0.nodes[x] == a.nodes[x]
  {
  }

  lemma MoveAllFirst(a: Store, m: int, l: int, ds: seq<int>)
    requires l != m && ds != [] && Distinct(ds) && forall d :: d in ds ==> LiveChild(a.nodes, l, d)
    ensures var (b, err) := Move(a, ds[0], m);
            var r := MoveAll(b, m, ds[1..]);
            && MoveAll(a, m, ds) == (if err.None? then r.(moved := r.moved + 1) else r.(skipped := r.skipped + 1))
            && Distinct(ds[1..])
            && forall x :: x in ds[1..] ==> x in ds && x != ds[0] && LiveChild(b.nodes, l, x)
  {
    assert ds[0] in ds;
    forall x | x in ds[1..]
      ensures x in ds && x != ds[0] && LiveChild(Move(a, ds[0], m).0.nodes, l, x)
    {
      var i :| 0 <= i < |ds[1..]| && ds[1..][i] == x;
      assert ds[i + 1] == x;
    }
  }

  /** A detail that is still where it was found its slug taken. */
  lemma StayedIsTaken(a: Store, c: Store, d: int, m: int, ds: set<int>)
    requires Live(a.nodes, d) && a.nodes[d].node.parentId != m && d !in ds
    requires Tried(Move(a, d, m).0, c, m, ds) && d in c.nodes && c.nodes[d].node.parentId == a.nodes[d].node.parentId
    ensures Taken(c.nodes, m, a.nodes[d].node.slug)
  {
    var b := Move(a, d, m).0;
    assert c.nodes[d] == b.nodes[d];
    TakenStays(b, c, m, ds, a.nodes[d].node.slug);
  }

  lemma TakenStays(a: Store, b: Store, m: int, ds: set<int>, slug: string)
    requires Tried(a, b, m, ds) && Taken(a.nodes, m, slug)
    ensures Taken(b.nodes, m, slug)
  {
    var k := Holder(a.nodes, m, slug);
    assert Takes(b.nodes[k], m, slug);
  }

  /** One move followed by the moves of other details. */
  lemma MovesAdd(a: Store, b: Store, c: Store, d: int, m: int, ds: set<int>)
    requires Live(a.nodes, d) && a.nodes[d].node.parentId != m && d !in ds
    requires b == Move(a, d, m).0 && Tried(b, c, m, ds)
    requires forall x :: x in ds ==> x in a.nodes && a.nodes[x].node.parentId != m
    ensures Tried(a, c, m, {d} + ds)
    ensures |MovedIds(a.nodes, c.nodes)| == |MovedIds(b.nodes, c.nodes)| + (if Move(a, d, m).1.None? then 1 else 0)
  {
    if Move(a, d, m).1.None? {
      assert MovedIds(a.nodes, c.nodes) == MovedIds(b.nodes, c.nodes) + {d};
    }
  }

  /** In every store, moving live nodes never fails but for conflicts, and each is either moved or skipped. */
  lemma {:induction false} MoveAllNeverFails(st: Store, m: int, ds: seq<int>)
    requires forall d :: d in ds ==> Live(st.nodes, d)
    ensures var r := MoveAll(st, m, ds);
            r.err.None? && r.moved + r.skipped == |ds| && forall k :: Live(r.st.nodes, k) <==> Live(st.nodes, k)
    decreases |ds|
  {
    if ds != [] {
      hide Taken;
      assert ds[0] in ds && forall d :: d in ds[1..] ==> d in ds;
      var st' := Move(st, ds[0], m).0;
      assert forall k :: Live(st'.nodes, k) <==> Live(st.nodes, k);
      MoveAllNeverFails(st', m, ds[1..]);
    }
  }

  /** In every store, the only error of one list is that it is gone when it should be deleted. */
  lemma OneListFailsIff(bk: Backend, st: Store, m: int, l: int)
    ensures var r := OneList(bk, st, m, l);
            r.err == if r.skipped == 0 && !Live(st.nodes, l) then Some(NotFound) else None
  {
    hide Subtree, Collected;
    var ds := Listed(bk, st.nodes, l, DETAIL);
    forall d | d in ds
      ensures Live(st.nodes, d)
    {
      assert d in ChildIds(st.nodes, l, DETAIL);
    }
    MoveAllNeverFails(st, m, ds);
  }

  // ----- One list -----

  lemma LonelySubtree(nodes: Nodes, l: int)
    requires Live(nodes, l) && forall c :: !LiveChild(nodes, l, c)
    ensures Subtree(nodes, l) == {l}
  {
    SubtreeTop(nodes, l);
    forall x | x in Subtree(nodes, l)
      ensures x == l
    {
      var path :| Walk(nodes, path) && path[0] == l && path[|path| - 1] == x;
      ClosedHasWalk(nodes, {l}, path);
    }
  }

  lemma TriedIsConserved(bk: Backend, a: Store, b: Store, l: int, ds: set<int>)
    requires Legacy(a) && IsList(a.nodes, l) && Tried(a, b, a.nodes[l].node.parentId, ds)
    requires forall d :: d in ds ==> LiveChild(a.nodes, l, d)
    ensures Conserved(bk, a, b) && Legacy(b) && OnlyTouches(a.nodes, b.nodes, {l})
  {
    var m := a.nodes[l].node.parentId;
    assert ListPlaced(a.nodes, l);
    forall k | k in a.nodes
      ensures Kept(a.nodes, b.nodes, k) || MovedUp(a.nodes, b.nodes, k)
    {
      if b.nodes[k] != a.nodes[k] {
        assert LiveChild(a.nodes, l, k);
      }
    }
    ConservedKeepsLists(bk, a, b);
  }

  /** Lists keep their place and their children stay details. */
  lemma ConservedKeepsLists(bk: Backend, a: Store, b: Store)
    requires Legacy(a) && Conserved(bk, a, b) && Numbered(b) && Unique(b.nodes)
    ensures Legacy(b)
  {
    forall l | IsList(b.nodes, l)
      ensures IsList(a.nodes, l) && ListPlaced(b.nodes, l)
    {
      assert Kept(a.nodes, b.nodes, l) || MovedUp(a.nodes, b.nodes, l) || Removed(bk, a.nodes, b.nodes, l);
      assert ListPlaced(a.nodes, l);
      var m := a.nodes[l].node.parentId;
      assert Kept(a.nodes, b.nodes, m) || MovedUp(a.nodes, b.nodes, m) || Removed(bk, a.nodes, b.nodes, m);
    }
    forall l, c | IsList(b.nodes, l) && LiveChild(b.nodes, l, c)
      ensures b.nodes[c].node.typ == DETAIL
    {
      assert IsList(a.nodes, l) && ListPlaced(b.nodes, l);
      assert Kept(a.nodes, b.nodes, c) || MovedUp(a.nodes, b.nodes, c) || Removed(bk, a.nodes, b.nodes, c);
      if Kept(a.nodes, b.nodes, c) {
        assert LiveChild(a.nodes, l, c);
      }
    }
  }

  /** The details found under a list are exactly its live children. */
  lemma DetailsAreChildren(bk: Backend, a: Store, l: int)
    requires Legacy(a) && IsList(a.nodes, l)
    ensures forall d :: d in Listed(bk, a.nodes, l, DETAIL) <==> LiveChild(a.nodes, l, d)
  {
    var ids := ChildIds(a.nodes, l, DETAIL);
    forall d
      ensures d in ids <==> LiveChild(a.nodes, l, d)
    {
    }
  }

  lemma StayedAreSkipped(a: Store, b: Store, l: int, ds: seq<int>, moved: nat, skipped: nat)
    requires Legacy(a) && IsList(a.nodes, l) && Tried(a, b, a.nodes[l].node.parentId, set d | d in ds)
    requires forall d :: d in ds <==> LiveChild(a.nodes, l, d)
    requires Distinct(ds)
    requires moved == |MovedIds(a.nodes, b.nodes)| && moved + skipped == |ds|
    ensures skipped == |DetailsUnder(b.nodes, {l})|
    ensures forall d :: LiveChild(b.nodes, l, d) <==> d in DetailsUnder(b.nodes, {l})
    ensures forall d :: d in DetailsUnder(b.nodes, {l}) ==> d in ds && b.nodes[d] == a.nodes[d]
  {
    assert ListPlaced(a.nodes, l);
    var all := set d | d in ds;
    SizeOfList(ds);
    var stay, gone := DetailsUnder(b.nodes, {l}), MovedIds(a.nodes, b.nodes);
    forall d
      ensures LiveChild(b.nodes, l, d) <==> d in stay
      ensures d in stay ==> d in ds && b.nodes[d] == a.nodes[d]
      ensures d in all <==> d in stay || d in gone
      ensures !(d in stay && d in gone)
    {
      if d in ds {
        assert LiveChild(a.nodes, l, d) && a.nodes[d].node.typ == DETAIL;
      }
    }
    assert all == stay + gone;
  }

  lemma OneListAccount(bk: Backend, a: Store, l: int)
    requires Legacy(a) && IsList(a.nodes, l)
    ensures Account(bk, a, OneList(bk, a, a.nodes[l].node.parentId, l), {l})
  {
    hide Move, Erase, Taken, Listed;
    var m := a.nodes[l].node.parentId;
    assert ListPlaced(a.nodes, l);
    var ds := Listed(bk, a.nodes, l, DETAIL);
    DetailsAreChildren(bk, a, l);
    DescendingDistinct(bk, a.nodes, l);
    MoveAllTried(a, m, l, ds);
    var t := MoveAll(a, m, ds);
    TriedIsConserved(bk, a, t.st, l, set d | d in ds);
    StayedAreSkipped(a, t.st, l, ds, t.moved, t.skipped);
    if t.skipped > 0 {
      StuckList(a, t.st, l, ds);
    } else {
      EmptyListRemoved(bk, a, t.st, l, t.moved);
    }
  }

  lemma DescendingDistinct(bk: Backend, nodes: Nodes, l: int)
    ensures var ds := Listed(bk, nodes, l, DETAIL); Distinct(ds)
  {
  }

  lemma StuckList(a: Store, b: Store, l: int, ds: seq<int>)
    requires Legacy(a) && IsList(a.nodes, l) && Kept(a.nodes, b.nodes, l) && DetailsUnder(b.nodes, {l}) != {}
    requires forall d :: LiveChild(b.nodes, l, d) <==> d in DetailsUnder(b.nodes, {l})
    requires forall d :: d in DetailsUnder(b.nodes, {l}) ==> d in ds && Kept(a.nodes, b.nodes, d)
    requires forall d :: d in ds && d in b.nodes && b.nodes[d].node.parentId == l ==>
        d in a.nodes && Taken(b.nodes, a.nodes[l].node.parentId, a.nodes[d].node.slug)
    ensures Settled(b.nodes, {l})
  {
    var d := HasElement(DetailsUnder(b.nodes, {l}));
    assert LiveChild(b.nodes, l, d);
  }

  /** Deleting a list without live children only marks the list, in both stores. */
  lemma DeleteLonely(bk: Backend, b: Store, l: int)
    requires Live(b.nodes, l) && forall c :: !LiveChild(b.nodes, l, c)
    ensures Erase(bk, b, l) == (b.(nodes := b.nodes[l := Gone(bk, l, b.nodes[l])]), Wrappers.Ok(1))
  {
    if bk.Memory? {
      LonelySubtree(b.nodes, l);
      assert MarkDeleted(b.nodes, {l}) == b.nodes[l := Gone(bk, l, b.nodes[l])];
      assert |{l}| == 1;
    } else {
      NothingBelow(b.nodes, l);
      CollectTurn(b.nodes, {l}, {l}, 1);
      CollectEnd(b.nodes, {}, {l} + {}, 1);
      assert {l} + {} == {l};
      assert SoftDeleted(b.nodes, {l}, bk.clock(l)) == b.nodes[l := Gone(bk, l, b.nodes[l])];
    }
  }

  lemma NothingBelow(nodes: Nodes, l: int)
    requires forall c :: !LiveChild(nodes, l, c)
    ensures NextLevel(nodes, {l}) == {}
  {
    if NextLevel(nodes, {l}) != {} {
      var c := HasElement(NextLevel(nodes, {l}));
      assert LiveChild(nodes, l, c);
    }
  }

  lemma RemovedIsConserved(bk: Backend, a: Store, b: Store, c: Store, l: int)
    requires Conserved(bk, a, b) && IsList(a.nodes, l) && Kept(a.nodes, b.nodes, l)
    requires forall x :: !LiveChild(b.nodes, l, x)
    requires c == b.(nodes := b.nodes[l := Gone(bk, l, b.nodes[l])])
    ensures Conserved(bk, a, c)
  {
    forall x
      ensures !LiveChild(c.nodes, l, x)
    {
      assert !LiveChild(b.nodes, l, x);
    }
    forall k | k in a.nodes
      ensures Kept(a.nodes, c.nodes, k) || MovedUp(a.nodes, c.nodes, k) || Removed(bk, a.nodes, c.nodes, k)
    {
      assert Kept(a.nodes, b.nodes, k) || MovedUp(a.nodes, b.nodes, k) || Removed(bk, a.nodes, b.nodes, k);
      if k != l && Removed(bk, a.nodes, b.nodes, k) {
        forall x
          ensures !LiveChild(c.nodes, k, x)
        {
          assert !LiveChild(b.nodes, k, x);
        }
      }
    }
  }

  lemma EmptyListRemoved(bk: Backend, a: Store, b: Store, l: int, moved: nat)
    requires Legacy(a) && IsList(a.nodes, l) && Conserved(bk, a, b) && Legacy(b) && OnlyTouches(a.nodes, b.nodes, {l})
    requires Kept(a.nodes, b.nodes, l) && DetailsUnder(b.nodes, {l}) == {}
    requires forall d :: LiveChild(b.nodes, l, d) <==> d in DetailsUnder(b.nodes, {l})
    requires moved == |MovedIds(a.nodes, b.nodes)|
    ensures Erase(bk, b, l).1.Ok? && Account(bk, a, Outcome(Erase(bk, b, l).0, moved, 0, None), {l})
  {
    hide Erase, Conserved, Legacy;
    DeleteLonely(bk, b, l);
    var c := Erase(bk, b, l).0;
    LegacyIsValid(b);
    SamePlaces(b.nodes, c.nodes);
    RemovedIsConserved(bk, a, b, c, l);
    ConservedKeepsLists(bk, a, c);
    assert MovedIds(a.nodes, c.nodes) == MovedIds(a.nodes, b.nodes);
    assert DetailsUnder(c.nodes, {l}) == {};
  }

  lemma LegacyIsValid(b: Store)
    requires Legacy(b)
    ensures Numbered(b) && Unique(b.nodes)
  {
  }

  // ----- Accounts add up -----

  lemma ConservedTrans(bk: Backend, a: Store, b: Store, c: Store)
    requires Legacy(a) && Legacy(b) && Conserved(bk, a, b) && Conserved(bk, b, c)
    ensures Conserved(bk, a, c)
  {
    forall k | k in a.nodes
      ensures Kept(a.nodes, c.nodes, k) || MovedUp(a.nodes, c.nodes, k) || Removed(bk, a.nodes, c.nodes, k)
    {
      ConservedNode(bk, a, b, c, k);
    }
  }

  lemma ConservedNode(bk: Backend, a: Store, b: Store, c: Store, k: int)
    requires Legacy(a) && Legacy(b) && Conserved(bk, a, b) && Conserved(bk, b, c) && k in a.nodes
    ensures Kept(a.nodes, c.nodes, k) || MovedUp(a.nodes, c.nodes, k) || Removed(bk, a.nodes, c.nodes, k)
  {
    assert Kept(b.nodes, c.nodes, k) || MovedUp(b.nodes, c.nodes, k) || Removed(bk, b.nodes, c.nodes, k);
    if Kept(a.nodes, b.nodes, k) {
      if MovedUp(b.nodes, c.nodes, k) {
        var l := b.nodes[k].node.parentId;
        assert Kept(a.nodes, b.nodes, l) || MovedUp(a.nodes, b.nodes, l) || Removed(bk, a.nodes, b.nodes, l);
      }
    } else if MovedUp(a.nodes, b.nodes, k) {
      var l := a.nodes[k].node.parentId;
      assert ListPlaced(a.nodes, l);
      var m := a.nodes[l].node.parentId;
      assert Kept(a.nodes, b.nodes, m) || MovedUp(a.nodes, b.nodes, m) || Removed(bk, a.nodes, b.nodes, m);
    } else {
      forall x
        ensures !LiveChild(c.nodes, k, x)
      {
        NoNewChildren(bk, b, c, k, x);
      }
    }
  }

  /** A node only ever gets a new parent that is a module, so a list never gains children. */
  lemma NoNewChildren(bk: Backend, b: Store, c: Store, l: int, x: int)
    requires Legacy(b) && Conserved(bk, b, c) && l in b.nodes && b.nodes[l].node.typ == LEGACY_LIST
    ensures LiveChild(c.nodes, l, x) ==> LiveChild(b.nodes, l, x)
  {
    if x in b.nodes {
      assert Kept(b.nodes, c.nodes, x) || MovedUp(b.nodes, c.nodes, x) || Removed(bk, b.nodes, c.nodes, x);
      var p := b.nodes[x].node.parentId;
      assert IsList(b.nodes, p) ==> ListPlaced(b.nodes, p);
    }
  }

  /** A place taken in a module stays taken. */
  lemma TakenInModule(bk: Backend, a: Store, b: Store, m: int, slug: string)
    requires Legacy(a) && Conserved(bk, a, b) && m in a.nodes && a.nodes[m].node.typ == MODULE
    requires Taken(a.nodes, m, slug)
    ensures Taken(b.nodes, m, slug)
  {
    var k := Holder(a.nodes, m, slug);
    assert Kept(a.nodes, b.nodes, k) || MovedUp(a.nodes, b.nodes, k) || Removed(bk, a.nodes, b.nodes, k);
    assert Takes(b.nodes[k], m, slug);
  }

  /** What was settled stays settled when only other lists are touched. */
  lemma SettledStays(bk: Backend, b: Store, c: Store, L: set<int>, M: set<int>)
    requires Legacy(b) && Conserved(bk, b, c) && Settled(b.nodes, L) && OnlyTouches(b.nodes, c.nodes, M)
    requires L !! M && (forall l :: l in L ==> l in b.nodes && b.nodes[l].node.typ == LEGACY_LIST)
    requires forall l :: l in M ==> l in b.nodes && b.nodes[l].node.typ == LEGACY_LIST
    ensures Settled(c.nodes, L) && DetailsUnder(c.nodes, L) == DetailsUnder(b.nodes, L)
  {
    forall l, d | l in L
      ensures LiveChild(c.nodes, l, d) <==> LiveChild(b.nodes, l, d)
      ensures LiveChild(c.nodes, l, d) && IsList(b.nodes, l) ==> c.nodes[d] == b.nodes[d]
    {
      SameChild(bk, b, c, l, M, d);
    }
    forall l | l in L && IsList(c.nodes, l)
      ensures Stuck(c.nodes, l)
    {
      StuckStays(bk, b, c, l, M);
    }
    forall d
      ensures d in DetailsUnder(c.nodes, L) <==> d in DetailsUnder(b.nodes, L)
    {
      SameDetail(bk, b, c, L, M, d);
    }
  }

  lemma SameChild(bk: Backend, b: Store, c: Store, l: int, M: set<int>, d: int)
    requires Legacy(b) && Conserved(bk, b, c) && OnlyTouches(b.nodes, c.nodes, M)
    requires l !in M && l in b.nodes && b.nodes[l].node.typ == LEGACY_LIST
    requires forall x :: x in M ==> x in b.nodes && b.nodes[x].node.typ == LEGACY_LIST
    ensures LiveChild(c.nodes, l, d) ==> LiveChild(b.nodes, l, d)
    ensures LiveChild(b.nodes, l, d) && d !in M ==> LiveChild(c.nodes, l, d) && c.nodes[d] == b.nodes[d]
    ensures LiveChild(b.nodes, l, d) && IsList(b.nodes, l) ==> d !in M
    ensures LiveChild(b.nodes, l, d) ==> LiveChild(c.nodes, l, d)
  {
    NoNewChildren(bk, b, c, l, d);
    assert IsList(b.nodes, d) ==> ListPlaced(b.nodes, d);
  }

  lemma StuckStays(bk: Backend, b: Store, c: Store, l: int, M: set<int>)
    requires Legacy(b) && Conserved(bk, b, c) && OnlyTouches(b.nodes, c.nodes, M) && l !in M && l in b.nodes
    requires forall x :: x in M ==> x in b.nodes && b.nodes[x].node.typ == LEGACY_LIST
    requires IsList(c.nodes, l) && b.nodes[l].node.typ == LEGACY_LIST && (IsList(b.nodes, l) ==> Stuck(b.nodes, l))
    ensures Stuck(c.nodes, l)
  {
    assert Kept(b.nodes, c.nodes, l) || MovedUp(b.nodes, c.nodes, l) || Removed(bk, b.nodes, c.nodes, l);
    assert Kept(b.nodes, c.nodes, l);
    var d0 :| LiveChild(b.nodes, l, d0);
    SameChild(bk, b, c, l, M, d0);
    assert ListPlaced(b.nodes, l);
    forall d | LiveChild(c.nodes, l, d)
      ensures Taken(c.nodes, c.nodes[l].node.parentId, c.nodes[d].node.slug)
    {
      SameChild(bk, b, c, l, M, d);
      TakenInModule(bk, b, c, b.nodes[l].node.parentId, b.nodes[d].node.slug);
    }
  }

  lemma SameDetail(bk: Backend, b: Store, c: Store, L: set<int>, M: set<int>, d: int)
    requires Legacy(b) && Conserved(bk, b, c) && OnlyTouches(b.nodes, c.nodes, M) && L !! M
    requires forall l :: l in L ==> l in b.nodes && b.nodes[l].node.typ == LEGACY_LIST
    requires forall l :: l in M ==> l in b.nodes && b.nodes[l].node.typ == LEGACY_LIST
    ensures d in DetailsUnder(c.nodes, L) <==> d in DetailsUnder(b.nodes, L)
  {
    if d in DetailsUnder(c.nodes, L) {
      SameChild(bk, b, c, c.nodes[d].node.parentId, M, d);
      assert Kept(b.nodes, c.nodes, d) || MovedUp(b.nodes, c.nodes, d) || Removed(bk, b.nodes, c.nodes, d);
    }
    if d in DetailsUnder(b.nodes, L) {
      SameChild(bk, b, c, b.nodes[d].node.parentId, M, d);
    }
  }

  predicate ListsOf(nodes: Nodes, L: set<int>) {
    forall l :: l in L ==> IsList(nodes, l)
  }

  lemma ListsStayLists(bk: Backend, a: Store, b: Store, L: set<int>)
    requires Conserved(bk, a, b) && ListsOf(a.nodes, L)
    ensures forall l :: l in L ==> l in b.nodes && b.nodes[l].node.typ == LEGACY_LIST
  {
    forall l | l in L
      ensures l in b.nodes && b.nodes[l].node.typ == LEGACY_LIST
    {
      assert Kept(a.nodes, b.nodes, l) || MovedUp(a.nodes, b.nodes, l) || Removed(bk, a.nodes, b.nodes, l);
    }
  }

  lemma DetailsSum(nodes: Nodes, L: set<int>, M: set<int>)
    requires L !! M
    ensures |DetailsUnder(nodes, L + M)| == |DetailsUnder(nodes, L)| + |DetailsUnder(nodes, M)|
  {
    assert DetailsUnder(nodes, L + M) == DetailsUnder(nodes, L) + DetailsUnder(nodes, M);
    assert DetailsUnder(nodes, L) !! DetailsUnder(nodes, M);
  }

  lemma SettledSum(nodes: Nodes, L: set<int>, M: set<int>)
    requires Settled(nodes, L) && Settled(nodes, M)
    ensures Settled(nodes, L + M)
  {
  }

  lemma AccountsAdd(bk: Backend, a: Store, r1: Outcome, L: set<int>, r2: Outcome, M: set<int>)
    requires Legacy(a) && ListsOf(a.nodes, L) && ListsOf(r1.st.nodes, M) && L !! M
    requires Account(bk, a, r1, L) && Account(bk, r1.st, r2, M)
    ensures Account(bk, a, Outcome(r2.st, r1.moved + r2.moved, r1.skipped + r2.skipped, None), L + M)
  {
    hide Legacy, Conserved, Settled, OnlyTouches, DetailsUnder, Reparented, ListsOf;
    var b, c := r1.st, r2.st;
    ConservedTrans(bk, a, b, c);
    ListsStayLists(bk, a, b, L);
    ListsAreLists(b.nodes, M);
    SettledStays(bk, b, c, L, M);
    SettledSum(c.nodes, L, M);
    MovesSum(bk, a, b, c);
    DetailsSum(c.nodes, L, M);
    TouchesSum(bk, a, b, c, L, M);
  }

  lemma ListsAreLists(nodes: Nodes, M: set<int>)
    requires ListsOf(nodes, M)
    ensures forall l :: l in M ==> l in nodes && nodes[l].node.typ == LEGACY_LIST
  {
  }

  lemma TouchesSum(bk: Backend, a: Store, b: Store, c: Store, L: set<int>, M: set<int>)
    requires Legacy(a) && Legacy(b) && Conserved(bk, a, b) && Conserved(bk, b, c)
    requires OnlyTouches(a.nodes, b.nodes, L) && OnlyTouches(b.nodes, c.nodes, M)
    ensures OnlyTouches(a.nodes, c.nodes, L + M)
  {
    forall k | k in a.nodes && k in c.nodes && c.nodes[k] != a.nodes[k]
      ensures k in L + M || a.nodes[k].node.parentId in L + M
    {
      if b.nodes[k] == a.nodes[k] {
        assert c.nodes[k] != b.nodes[k];
      }
    }
  }

  /** No detail is moved twice: after a move its parent is a module. */
  lemma MovesSum(bk: Backend, a: Store, b: Store, c: Store)
    requires Legacy(a) && Legacy(b) && Conserved(bk, a, b) && Conserved(bk, b, c)
    ensures |MovedIds(a.nodes, c.nodes)| == |MovedIds(a.nodes, b.nodes)| + |MovedIds(b.nodes, c.nodes)|
  {
    var first, second := MovedIds(a.nodes, b.nodes), MovedIds(b.nodes, c.nodes);
    forall k
      ensures !(k in first && k in second)
    {
      if k in first && k in second {
        assert MovedUp(a.nodes, b.nodes, k) by {
          assert Kept(a.nodes, b.nodes, k) || MovedUp(a.nodes, b.nodes, k) || Removed(bk, a.nodes, b.nodes, k);
        }
        MovedOnce(bk, a, b, c, k);
      }
    }
    assert MovedIds(a.nodes, c.nodes) == first + second by {
      forall k
        ensures k in MovedIds(a.nodes, c.nodes) <==> k in first || k in second
      {
        if k in first {
          assert Kept(a.nodes, b.nodes, k) || MovedUp(a.nodes, b.nodes, k) || Removed(bk, a.nodes, b.nodes, k);
          MovedOnce(bk, a, b, c, k);
        }
      }
    }
    assert first !! second;
  }

  lemma MovedOnce(bk: Backend, a: Store, b: Store, c: Store, k: int)
    requires Legacy(a) && Conserved(bk, a, b) && Conserved(bk, b, c) && MovedUp(a.nodes, b.nodes, k)
    ensures Kept(b.nodes, c.nodes, k)
  {
    var l := a.nodes[k].node.parentId;
    assert ListPlaced(a.nodes, l);
    var m := a.nodes[l].node.parentId;
    assert Kept(a.nodes, b.nodes, m) || MovedUp(a.nodes, b.nodes, m) || Removed(bk, a.nodes, b.nodes, m);
    assert Kept(b.nodes, c.nodes, k) || MovedUp(b.nodes, c.nodes, k) || Removed(bk, b.nodes, c.nodes, k);
  }

  // ----- The whole migration -----

  lemma UntouchedLists(bk: Backend, a: Store, b: Store, L: set<int>, x: int)
    requires Legacy(a) && Conserved(bk, a, b) && OnlyTouches(a.nodes, b.nodes, L) && ListsOf(a.nodes, L)
    requires IsList(a.nodes, x) && x !in L
    ensures Kept(a.nodes, b.nodes, x) && IsList(b.nodes, x)
  {
    assert ListPlaced(a.nodes, x);
    assert Kept(a.nodes, b.nodes, x) || MovedUp(a.nodes, b.nodes, x) || Removed(bk, a.nodes, b.nodes, x);
  }

  lemma NothingToDo(bk: Backend, a: Store)
    requires Legacy(a)
    ensures Account(bk, a, Outcome(a, 0, 0, None), {})
  {
    assert MovedIds(a.nodes, a.nodes) == {};
    assert DetailsUnder(a.nodes, {}) == {};
    forall k | k in a.nodes
      ensures Kept(a.nodes, a.nodes, k)
    {
    }
  }

  lemma {:induction false} ListsAccount(bk: Backend, a: Store, m: int, ls: seq<int>)
    requires Legacy(a)
    requires Distinct(ls)
    requires forall l :: l in ls ==> IsList(a.nodes, l) && a.nodes[l].node.parentId == m
    ensures Account(bk, a, Lists(bk, a, m, ls), set l | l in ls)
    decreases |ls|
  {
    hide Account, OneList, Legacy, Conserved;
    if ls == [] {
      NothingToDo(bk, a);
      assert (set l | l in ls) == {};
    } else {
      var l, rest := ls[0], ls[1..];
      assert l in ls;
      OneListAccount(bk, a, l);
      var r := OneList(bk, a, m, l);
      forall x | x in rest
        ensures IsList(r.st.nodes, x) && r.st.nodes[x].node.parentId == m
      {
        assert x in ls && x != l;
        UntouchedAfter(bk, a, r, {l}, x);
      }
      AccountFacts(bk, a, r, {l});
      ListsAccount(bk, r.st, m, rest);
      AccountsAdd(bk, a, r, {l}, Lists(bk, r.st, m, rest), set x | x in rest);
      assert (set x | x in ls) == {l} + (set x | x in rest);
      AccountFacts(bk, r.st, Lists(bk, r.st, m, rest), set x | x in rest);
    }
  }

  lemma AccountFacts(bk: Backend, a: Store, r: Outcome, L: set<int>)
    requires Account(bk, a, r, L)
    ensures r.err.None? && Legacy(r.st)
  {
  }

  lemma UntouchedAfter(bk: Backend, a: Store, r: Outcome, L: set<int>, x: int)
    requires Legacy(a) && Account(bk, a, r, L) && ListsOf(a.nodes, L) && IsList(a.nodes, x) && x !in L
    ensures IsList(r.st.nodes, x) && r.st.nodes[x].node.parentId == a.nodes[x].node.parentId
  {
    UntouchedLists(bk, a, r.st, L, x);
  }

  function ListsIn(nodes: Nodes, ms: seq<int>): set<int> {
    set l | l in nodes && IsList(nodes, l) && nodes[l].node.parentId in ms
  }

  /** Migrating some modules leaves the lists of the others as they were. */
  lemma OtherListsSame(bk: Backend, a: Store, r: Outcome, m: int, ms: seq<int>)
    requires Legacy(a) && Account(bk, a, r, ListsIn(a.nodes, [m])) && m !in ms
    ensures ListsIn(r.st.nodes, ms) == ListsIn(a.nodes, ms)
  {
    forall l
      ensures l in ListsIn(r.st.nodes, ms) <==> l in ListsIn(a.nodes, ms)
    {
      if l in ListsIn(a.nodes, ms) {
        UntouchedAfter(bk, a, r, ListsIn(a.nodes, [m]), l);
      }
      if l in ListsIn(r.st.nodes, ms) {
        assert Kept(a.nodes, r.st.nodes, l) || MovedUp(a.nodes, r.st.nodes, l) || Removed(bk, a.nodes, r.st.nodes, l);
      }
    }
  }

  lemma {:induction false} ModulesAccount(bk: Backend, a: Store, ms: seq<int>)
    requires Legacy(a) && Distinct(ms)
    ensures Account(bk, a, Modules(bk, a, ms), ListsIn(a.nodes, ms))
    decreases |ms|
  {
    hide Account, Lists, Legacy, Listed;
    if ms == [] {
      NothingToDo(bk, a);
      assert ListsIn(a.nodes, ms) == {};
    } else {
      var m, rest := ms[0], ms[1..];
      var ls := Listed(bk, a.nodes, m, LEGACY_LIST);
      ListsFound(bk, a.nodes, m);
      ListsAccount(bk, a, m, ls);
      var r := Lists(bk, a, m, ls);
      AccountFacts(bk, a, r, ListsIn(a.nodes, [m]));
      assert m !in rest;
      OtherListsSame(bk, a, r, m, rest);
      ModulesAccount(bk, r.st, rest);
      AccountFacts(bk, r.st, Modules(bk, r.st, rest), ListsIn(a.nodes, rest));
      AccountsAdd(bk, a, r, ListsIn(a.nodes, [m]), Modules(bk, r.st, rest), ListsIn(a.nodes, rest));
      assert ms == [m] + rest;
      assert ListsIn(a.nodes, ms) == ListsIn(a.nodes, [m]) + ListsIn(a.nodes, rest);
    }
  }

  lemma ListsFound(bk: Backend, nodes: Nodes, m: int)
    ensures var ls := Listed(bk, nodes, m, LEGACY_LIST);
            && Distinct(ls)
            && (forall l :: l in ls ==> IsList(nodes, l) && nodes[l].node.parentId == m)
            && (set l | l in ls) == ListsIn(nodes, [m])
  {
    assert ChildIds(nodes, m, LEGACY_LIST) == ListsIn(nodes, [m]);
  }

  /** The complete account of the migration: every live list of the store is dealt with. */
  lemma MigrationAccount(bk: Backend, a: Store)
    requires Legacy(a)
    ensures Account(bk, a, Migrated(bk, a), AllLists(a.nodes))
  {
    var ms := Listed(bk, a.nodes, 0, MODULE);
    ModulesAccount(bk, a, ms);
    forall l | IsList(a.nodes, l)
      ensures a.nodes[l].node.parentId in ms
    {
      assert ListPlaced(a.nodes, l);
      assert a.nodes[l].node.parentId in ChildIds(a.nodes, 0, MODULE);
    }
    assert ListsIn(a.nodes, ms) == AllLists(a.nodes);
  }

  // ----- Main results -----

  /** Moved and skipped details add up to the live details under live lists. */
  lemma MovedPlusSkipped(bk: Backend, a: Store)
    requires Legacy(a)
    ensures Migrated(bk, a).moved + Migrated(bk, a).skipped == |DetailsUnder(a.nodes, AllLists(a.nodes))|
  {
    hide Migrated, Legacy, Conserved, Settled, OnlyTouches, MovedIds, DetailsUnder, AllLists;
    MigrationAccount(bk, a);
    var b, L := Migrated(bk, a).st, AllLists(a.nodes);
    var before, moved, stayed := DetailsUnder(a.nodes, L), MovedIds(a.nodes, b.nodes), DetailsUnder(b.nodes, L);
    forall k
      ensures k in before <==> k in moved || k in stayed
      ensures !(k in moved && k in stayed)
    {
      MovedOrStayed(bk, a, b, k);
    }
    assert before == moved + stayed;
  }

  lemma MovedOrStayed(bk: Backend, a: Store, b: Store, k: int)
    requires Legacy(a) && Conserved(bk, a, b)
    ensures var L := AllLists(a.nodes);
            var moved, stayed := k in MovedIds(a.nodes, b.nodes), k in DetailsUnder(b.nodes, L);
            (k in DetailsUnder(a.nodes, L) <==> moved || stayed) && !(moved && stayed)
  {
    if k in a.nodes {
      assert Kept(a.nodes, b.nodes, k) || MovedUp(a.nodes, b.nodes, k) || Removed(bk, a.nodes, b.nodes, k);
      if MovedUp(a.nodes, b.nodes, k) {
        assert ListPlaced(a.nodes, a.nodes[k].node.parentId);
      }
    }
  }

  /**
   * Conservation: no node disappears; the only nodes that become deleted are lists without live children; a
   * moved detail hangs directly under its list's module; nothing else changes.
   */
  lemma MigrationConserves(bk: Backend, a: Store, k: int)
    requires Legacy(a) && k in a.nodes
    ensures Migrated(bk, a).err.None? && k in Migrated(bk, a).st.nodes && Migrated(bk, a).st.nodes.Keys == a.nodes.Keys
    ensures var b := Migrated(bk, a).st.nodes;
            Kept(a.nodes, b, k) || MovedUp(a.nodes, b, k) || Removed(bk, a.nodes, b, k)
  {
    MigrationAccount(bk, a);
  }

  lemma StuckHasDetail(b: Store, L: set<int>, l: int)
    requires Legacy(b) && Settled(b.nodes, L) && l in L && IsList(b.nodes, l)
    ensures DetailsUnder(b.nodes, L) != {}
  {
    assert Stuck(b.nodes, l);
    var d :| LiveChild(b.nodes, l, d);
    assert d in DetailsUnder(b.nodes, L);
  }

  /** When nothing was skipped, no live list is left. */
  lemma NoListLeft(bk: Backend, a: Store, l: int)
    requires Legacy(a) && Migrated(bk, a).skipped == 0
    ensures !IsList(Migrated(bk, a).st.nodes, l)
  {
    hide Conserved, Settled, Legacy;
    MigrationAccount(bk, a);
    var b := Migrated(bk, a).st;
    if IsList(b.nodes, l) {
      ListWasThere(bk, a, b, l);
      StuckHasDetail(b, AllLists(a.nodes), l);
    }
  }

  lemma ListWasThere(bk: Backend, a: Store, b: Store, l: int)
    requires Conserved(bk, a, b) && IsList(b.nodes, l)
    ensures l in AllLists(a.nodes)
  {
    assert Kept(a.nodes, b.nodes, l) || MovedUp(a.nodes, b.nodes, l) || Removed(bk, a.nodes, b.nodes, l);
  }

  // ----- The layout that is left -----

  /** A legacy store that is otherwise a forest: apart from lists and their details, live nodes hang as they should. */
  ghost predicate LegacyForest(st: Store) {
    && Legacy(st)
    && forall k :: Live(st.nodes, k) && !IsList(st.nodes, k) && k !in DetailsUnder(st.nodes, AllLists(st.nodes)) ==>
         HangsRight(st.nodes, k)
  }

  ghost predicate HangsRight(nodes: Nodes, k: int)
    requires k in nodes
  {
    Placed(nodes, nodes[k].node) && Attached(nodes, nodes[k])
  }

  /** The store has the new layout: no live list, and every live node under a live node of the right type. */
  ghost predicate NewLayout(nodes: Nodes) {
    forall k :: Live(nodes, k) ==> HangsRight(nodes, k)
  }

  /** The migration reaches the new layout exactly when it skips nothing. */
  lemma NewLayoutIff(bk: Backend, a: Store)
    requires LegacyForest(a)
    ensures NewLayout(Migrated(bk, a).st.nodes) <==> Migrated(bk, a).skipped == 0
  {
    hide Conserved, Settled, Legacy, NewLayout, Migrated;
    MigrationAccount(bk, a);
    var b, L := Migrated(bk, a).st, AllLists(a.nodes);
    if Migrated(bk, a).skipped == 0 {
      forall l
        ensures !IsList(b.nodes, l)
      {
        NoListLeft(bk, a, l);
      }
      AllHangRight(bk, a, b);
    } else {
      assert DetailsUnder(b.nodes, L) != {};
      ListIsMisplaced(bk, a, b);
    }
  }

  lemma AllHangRight(bk: Backend, a: Store, b: Store)
    requires LegacyForest(a) && Conserved(bk, a, b) && forall l :: !IsList(b.nodes, l)
    ensures NewLayout(b.nodes)
  {
    forall k | Live(b.nodes, k)
      ensures HangsRight(b.nodes, k)
    {
      assert Kept(a.nodes, b.nodes, k) || MovedUp(a.nodes, b.nodes, k) || Removed(bk, a.nodes, b.nodes, k);
      if MovedUp(a.nodes, b.nodes, k) {
        var l := a.nodes[k].node.parentId;
        assert ListPlaced(a.nodes, l);
        var m := a.nodes[l].node.parentId;
        assert Kept(a.nodes, b.nodes, m) || MovedUp(a.nodes, b.nodes, m) || Removed(bk, a.nodes, b.nodes, m);
      } else {
        KeptHangsRight(bk, a, b, k);
      }
    }
  }

  lemma KeptHangsRight(bk: Backend, a: Store, b: Store, k: int)
    requires LegacyForest(a) && Conserved(bk, a, b) && Kept(a.nodes, b.nodes, k) && Live(b.nodes, k)
    requires forall l :: !IsList(b.nodes, l)
    ensures HangsRight(b.nodes, k)
  {
    var p := a.nodes[k].node.parentId;
    if p in a.nodes {
      assert Kept(a.nodes, b.nodes, p) || MovedUp(a.nodes, b.nodes, p) || Removed(bk, a.nodes, b.nodes, p);
      assert Removed(bk, a.nodes, b.nodes, p) ==> !LiveChild(b.nodes, p, k);
    }
    assert !IsList(b.nodes, k) && !IsList(b.nodes, p);
    assert k !in DetailsUnder(a.nodes, AllLists(a.nodes));
    assert HangsRight(a.nodes, k);
  }

  lemma ListIsMisplaced(bk: Backend, a: Store, b: Store)
    requires Legacy(a) && Conserved(bk, a, b) && DetailsUnder(b.nodes, AllLists(a.nodes)) != {}
    ensures !NewLayout(b.nodes)
  {
    var d := HasElement(DetailsUnder(b.nodes, AllLists(a.nodes)));
    var l := b.nodes[d].node.parentId;
    assert ListPlaced(a.nodes, l);
    assert Kept(a.nodes, b.nodes, l) || MovedUp(a.nodes, b.nodes, l) || Removed(bk, a.nodes, b.nodes, l);
    assert LiveChild(b.nodes, l, d);
    assert Live(b.nodes, l) && !HangsRight(b.nodes, l);
  }

  // ----- The numbers that are reported -----

  /** The place that a detail of a list is moved to. */
  function Wanted(nodes: Nodes, d: int): (int, string) {
    if d in nodes && nodes[d].node.parentId in nodes
    then (nodes[nodes[d].node.parentId].node.parentId, nodes[d].node.slug)
    else (0, "")
  }

  function PlaceOf(nodes: Nodes, k: int): (int, string) {
    if k in nodes then (nodes[k].node.parentId, nodes[k].node.slug) else (0, "")
  }

  /** The places that details of lists want and no node has. */
  ghost function FreePlaces(nodes: Nodes): set<(int, string)> {
    set d | d in DetailsUnder(nodes, AllLists(nodes)) && !Taken(nodes, Wanted(nodes, d).0, Wanted(nodes, d).1)
      :: Wanted(nodes, d)
  }

  /**
   * As many details are moved as there are free places that some detail wants, whichever of them comes first: the
   * numbers do not depend on the order in which the store lists, nor on the store.
   */
  lemma MovedIsFreePlaces(bk: Backend, a: Store)
    requires Legacy(a)
    ensures Migrated(bk, a).moved == |FreePlaces(a.nodes)|
    ensures Migrated(bk, a).skipped == |DetailsUnder(a.nodes, AllLists(a.nodes))| - |FreePlaces(a.nodes)|
  {
    hide Conserved, Settled, Legacy, Migrated, FreePlaces;
    MigrationAccount(bk, a);
    MovedPlusSkipped(bk, a);
    var b := Migrated(bk, a).st;
    var moved := MovedIds(a.nodes, b.nodes);
    var f := (k: int) => PlaceOf(b.nodes, k);
    UniquePlaces(b, moved);
    SizeOfImage(moved, f);
    var places := Image(moved, f);
    forall x
      ensures x in places <==> x in FreePlaces(a.nodes)
    {
      if x in places {
        var k :| k in moved && f(k) == x;
        MovedToFree(bk, a, b, k);
      }
      if x in FreePlaces(a.nodes) {
        var k := FreeIsFilled(bk, a, b, x);
        assert f(k) in places;
      }
    }
    assert places == FreePlaces(a.nodes);
  }

  lemma UniquePlaces(b: Store, s: set<int>)
    requires Legacy(b) && s <= b.nodes.Keys
    ensures forall j, k :: j in s && k in s && PlaceOf(b.nodes, j) == PlaceOf(b.nodes, k) ==> j == k
  {
    forall j, k | j in s && k in s && PlaceOf(b.nodes, j) == PlaceOf(b.nodes, k)
      ensures j == k
    {
      assert Takes(b.nodes[j], b.nodes[k].node.parentId, b.nodes[k].node.slug);
    }
  }

  lemma MovedToFree(bk: Backend, a: Store, b: Store, k: int)
    requires Legacy(a) && Legacy(b) && Conserved(bk, a, b) && k in MovedIds(a.nodes, b.nodes)
    ensures PlaceOf(b.nodes, k) in FreePlaces(a.nodes)
  {
    assert Kept(a.nodes, b.nodes, k) || MovedUp(a.nodes, b.nodes, k) || Removed(bk, a.nodes, b.nodes, k);
    var l := a.nodes[k].node.parentId;
    assert ListPlaced(a.nodes, l);
    var (m, slug) := Wanted(a.nodes, k);
    if Taken(a.nodes, m, slug) {
      var o := Holder(a.nodes, m, slug);
      assert Kept(a.nodes, b.nodes, o) || MovedUp(a.nodes, b.nodes, o) || Removed(bk, a.nodes, b.nodes, o);
      assert Takes(b.nodes[o], b.nodes[k].node.parentId, b.nodes[k].node.slug);
    }
    assert k in DetailsUnder(a.nodes, AllLists(a.nodes));
  }

  /** A detail that wanted the place has it, or is stuck because another one that was moved has it. */
  lemma FreeIsFilled(bk: Backend, a: Store, b: Store, x: (int, string)) returns (k: int)
    requires Legacy(a) && Legacy(b) && Conserved(bk, a, b) && Settled(b.nodes, AllLists(a.nodes))
    requires x in FreePlaces(a.nodes)
    ensures k in MovedIds(a.nodes, b.nodes) && PlaceOf(b.nodes, k) == x
  {
    var d :| d in DetailsUnder(a.nodes, AllLists(a.nodes)) && Wanted(a.nodes, d) == x && !Taken(a.nodes, x.0, x.1);
    var l := a.nodes[d].node.parentId;
    assert ListPlaced(a.nodes, l);
    assert Kept(a.nodes, b.nodes, d) || MovedUp(a.nodes, b.nodes, d) || Removed(bk, a.nodes, b.nodes, d);
    if MovedUp(a.nodes, b.nodes, d) {
      k := d;
    } else {
      assert LiveChild(b.nodes, l, d);
      assert Kept(a.nodes, b.nodes, l) || MovedUp(a.nodes, b.nodes, l) || Removed(bk, a.nodes, b.nodes, l);
      assert Stuck(b.nodes, l);
      k := Holder(b.nodes, x.0, x.1);
      assert Kept(a.nodes, b.nodes, k) || MovedUp(a.nodes, b.nodes, k) || Removed(bk, a.nodes, b.nodes, k);
      assert !Takes(a.nodes[k], x.0, x.1);
    }
  }

  /** Both stores report the same numbers for the same nodes. */
  lemma SameNumbers(a: Store, clock: int -> string)
    requires Legacy(a)
    ensures Migrated(Memory, a).moved == Migrated(Mysql(clock), a).moved
    ensures Migrated(Memory, a).skipped == Migrated(Mysql(clock), a).skipped
  {
    MovedIsFreePlaces(Memory, a);
    MovedIsFreePlaces(Mysql(clock), a);
  }

  // ----- A second run -----

  /** Idempotence: a second run moves nothing, skips the same details again, and leaves the store as it is. */
  lemma SecondRunChangesNothing(bk: Backend, a: Store)
    requires Legacy(a)
    ensures Migrated(bk, Migrated(bk, a).st) == Outcome(Migrated(bk, a).st, 0, Migrated(bk, a).skipped, None)
  {
    hide Conserved, Settled, Legacy, Migrated;
    MigrationAccount(bk, a);
    var b := Migrated(bk, a).st;
    MigrationAccount(bk, b);
    var c := Migrated(bk, b).st;
    SameKeys(bk, b, c);
    forall k | k in b.nodes
      ensures k in c.nodes && c.nodes[k] == b.nodes[k]
    {
      SecondRunKeeps(bk, a, b, c, k);
    }
    assert c.nodes == b.nodes;
    assert MovedIds(b.nodes, c.nodes) == {};
    assert DetailsUnder(b.nodes, AllLists(b.nodes)) == DetailsUnder(b.nodes, AllLists(a.nodes)) by {
      forall d
        ensures d in DetailsUnder(b.nodes, AllLists(b.nodes)) <==> d in DetailsUnder(b.nodes, AllLists(a.nodes))
      {
        SameStayed(bk, a, b, d);
      }
    }
  }

  lemma SameKeys(bk: Backend, b: Store, c: Store)
    requires Conserved(bk, b, c)
    ensures b.nodes.Keys == c.nodes.Keys && b.nextId == c.nextId
  {
  }

  lemma SameStayed(bk: Backend, a: Store, b: Store, d: int)
    requires Conserved(bk, a, b)
    ensures d in DetailsUnder(b.nodes, AllLists(b.nodes)) <==> d in DetailsUnder(b.nodes, AllLists(a.nodes))
  {
    if d in DetailsUnder(b.nodes, AllLists(b.nodes)) {
      ListWasThere(bk, a, b, b.nodes[d].node.parentId);
    }
    if d in DetailsUnder(b.nodes, AllLists(a.nodes)) {
      var l := b.nodes[d].node.parentId;
      assert Kept(a.nodes, b.nodes, l) || MovedUp(a.nodes, b.nodes, l) || Removed(bk, a.nodes, b.nodes, l);
      assert LiveChild(b.nodes, l, d);
    }
  }

  lemma SecondRunKeeps(bk: Backend, a: Store, b: Store, c: Store, k: int)
    requires Legacy(a) && Legacy(b) && Legacy(c) && Conserved(bk, a, b) && Conserved(bk, b, c) && k in b.nodes
    requires Settled(b.nodes, AllLists(a.nodes))
    ensures Kept(b.nodes, c.nodes, k)
  {
    assert Kept(b.nodes, c.nodes, k) || MovedUp(b.nodes, c.nodes, k) || Removed(bk, b.nodes, c.nodes, k);
    if MovedUp(b.nodes, c.nodes, k) {
      NoSecondMove(bk, a, b, c, k);
    } else if Removed(bk, b.nodes, c.nodes, k) {
      ListWasThere(bk, a, b, k);
      assert Stuck(b.nodes, k);
      var d :| LiveChild(b.nodes, k, d);
      assert Kept(b.nodes, c.nodes, d) || MovedUp(b.nodes, c.nodes, d) || Removed(bk, b.nodes, c.nodes, d);
      assert !LiveChild(c.nodes, k, d);
      NoSecondMove(bk, a, b, c, d);
    }
  }

  /** The slug that stopped a detail the first time stops it again. */
  lemma NoSecondMove(bk: Backend, a: Store, b: Store, c: Store, k: int)
    requires Legacy(a) && Legacy(b) && Legacy(c) && Conserved(bk, a, b) && Conserved(bk, b, c)
    requires Settled(b.nodes, AllLists(a.nodes))
    ensures !MovedUp(b.nodes, c.nodes, k)
  {
    if MovedUp(b.nodes, c.nodes, k) {
      var l := b.nodes[k].node.parentId;
      ListWasThere(bk, a, b, l);
      assert Stuck(b.nodes, l) && LiveChild(b.nodes, l, k);
      assert ListPlaced(b.nodes, l);
      var m, slug := b.nodes[l].node.parentId, b.nodes[k].node.slug;
      var o := Holder(b.nodes, m, slug);
      assert Kept(b.nodes, c.nodes, o) || MovedUp(b.nodes, c.nodes, o) || Removed(bk, b.nodes, c.nodes, o);
      assert Takes(c.nodes[o], c.nodes[k].node.parentId, c.nodes[k].node.slug);
    }
  }
}
