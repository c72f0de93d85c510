/**
 * The set of connections of the order service and its round robin: applyAddrs and pickUser in
 * example/order/main.go.
 */
module Peers {
  import opened Wrappers
  import opened Bytes
  import opened Sets

  /** A connection: a number that tells it from every other one, and the address it was dialled at. */
  datatype Peer = Peer(conn: nat, addr: string)

  /** lastConn counts the connections ever dialled; closes lists the Close calls, in order. */
  datatype Pool = Pool(users: seq<Peer>, open: set<Peer>, closes: seq<Peer>, lastConn: nat)

  const NO_PEERS := Pool([], {}, [], 0)

  /** The map built from the users: a later user with the same address replaces an earlier one. */
  function Have(users: seq<Peer>): map<string, Peer> {
    if users == [] then map[] else Have(users[..|users| - 1])[users[|users| - 1].addr := users[|users| - 1]]
  }

  /** What the loop over the addresses has built: the new users, the connections dialled for them, and the count. */
  datatype Build = Build(users: seq<Peer>, dialled: set<Peer>, last: nat)

  function Built(have: map<string, Peer>, addrs: seq<string>, dials: nat -> bool, n: nat, lastConn: nat): Build
    requires n <= |addrs|
  {
    if n == 0 then Build([], {}, lastConn)
    else
      var b := Built(have, addrs, dials, n - 1, lastConn);
      if addrs[n - 1] in have then b.(users := b.users + [have[addrs[n - 1]]])
      else if dials(n - 1) then
        var p := Peer(b.last + 1, addrs[n - 1]);
        Build(b.users + [p], b.dialled + {p}, b.last + 1)
      else b
  }

  /** The old users whose address is not in the list, in order: the ones that are closed. */
  function Dropped(users: seq<Peer>, addrs: seq<string>): seq<Peer> {
    if users == [] then []
    else Dropped(users[..|users| - 1], addrs) + (if users[|users| - 1].addr in addrs then [] else [users[|users| - 1]])
  }

  function SetOf(s: seq<Peer>): set<Peer> {
    set p | p in s
  }

  function Apply(pool: Pool, addrs: seq<string>, dials: nat -> bool): Pool {
    var b := Built(Have(pool.users), addrs, dials, |addrs|, pool.lastConn);
    var dropped := Dropped(pool.users, addrs);
    Pool(b.users, pool.open + b.dialled - SetOf(dropped), pool.closes + dropped, b.last)
  }

  class Handler {
    var users: seq<Peer>
    var rr: uint64
    var open: set<Peer>
    var closes: seq<Peer>
    var lastConn: nat

    ghost function St(): Pool
      reads this
    {
      Pool(users, open, closes, lastConn)
    }

    constructor ()
      ensures St() == NO_PEERS && Inv(St()) && rr == 0
    {
      users, open, closes, lastConn, rr := [], {}, [], 0, 0;
      new;
      NobodyYet();
    }

    /** dials tells which dials succeed, by position in the list. */
    method ApplyAddrs(addrs: seq<string>, dials: nat -> bool)
      modifies this
      ensures St() == Apply(old(St()), addrs, dials) && rr == old(rr)
    {
      var have: map<string, Peer> := map[];
      for i := 0 to |users|
        invariant have == Have(users[..i])
        invariant unchanged(this)
      {
        assert users[..i + 1][..i] == users[..i];
        have := have[users[i].addr := users[i]];
      }
      assert users[..|users|] == users;
      var next: seq<Peer> := [];
      ghost var pool := St();
      for i := 0 to |addrs|
        invariant users == pool.users && closes == pool.closes && rr == old(rr)
        invariant var b := Built(have, addrs, dials, i, pool.lastConn);
                  next == b.users && lastConn == b.last && open == pool.open + b.dialled
      {
        if addrs[i] in have {
          var p := have[addrs[i]];
          next := next + [p];
        } else if dials(i) {
          lastConn := lastConn + 1;
          var p := Peer(lastConn, addrs[i]);
          open := open + {p};
          next := next + [p];
        }
      }
      var before := users;
      users := next;
      ghost var all := open;
      for i := 0 to |before|
        invariant closes == pool.closes + Dropped(before[..i], addrs)
        invariant open == all - SetOf(Dropped(before[..i], addrs))
        invariant users == next && rr == old(rr) && lastConn == Built(have, addrs, dials, |addrs|, pool.lastConn).last
      {
        assert before[..i + 1][..i] == before[..i];
        if before[i].addr !in addrs {
          open := open - {before[i]};
          closes := closes + [before[i]];
        }
      }
      assert before[..|before|] == before;
    }

    method PickUser() returns (r: Option<Peer>)
      modifies this`rr
      ensures users == [] ==> r == None && rr == old(rr)
      ensures users != [] ==> r == Some(users[old(rr) % |users|]) && rr == (old(rr) + 1) % 0x1_0000_0000_0000_0000
    {
      if |users| == 0 {
        return None;
      }
      rr := (rr + 1) % 0x1_0000_0000_0000_0000;
      var n: int := rr;
      var before := (n - 1) % 0x1_0000_0000_0000_0000;
      r := Some(users[before % |users|]);
    }
  }

  // ----- Conservation of connections -----

  /**
   * The open connections are those of the users; and every connection ever dialled is either open or has been
   * closed, exactly once.
   */
  ghost predicate Accounted(pool: Pool) {
    && pool.open == SetOf(pool.users)
    && Distinct(pool.closes)
    && pool.open !! SetOf(pool.closes)
    && Numbered(pool)
  }

  /** Every number given out belongs to one connection, open or closed. */
  ghost predicate Numbered(pool: Pool) {
    var all := pool.open + SetOf(pool.closes);
    && (forall p :: p in all ==> 1 <= p.conn <= pool.lastConn)
    && (forall p, q :: p in all && q in all && p.conn == q.conn ==> p == q)
    && (forall c :: 1 <= c <= pool.lastConn ==> HasConn(all, c))
  }

  /** Accounted for, with one user for each address. */
  ghost predicate Inv(pool: Pool) {
    Accounted(pool) && DistinctAddrs(pool.users)
  }

  lemma NobodyYet()
    ensures Inv(NO_PEERS)
  {
  }

  /** The connection with this number is in the set. */
  predicate HasConn(s: set<Peer>, c: int) {
    exists p :: p in s && p.conn == c
  }

  predicate DistinctAddrs(users: seq<Peer>) {
    forall i, j :: 0 <= i < j < |users| ==> users[i].addr != users[j].addr
  }

  lemma {:induction false} HaveIs(users: seq<Peer>)
    requires DistinctAddrs(users)
    ensures forall p :: p in users <==> p.addr in Have(users) && Have(users)[p.addr] == p
    ensures forall a :: a in Have(users) ==> Have(users)[a].addr == a && Have(users)[a] in users
  {
    if users != [] {
      var init, last := users[..|users| - 1], users[|users| - 1];
      HaveIs(init);
      assert users == init + [last];
      forall p | p in init
        ensures p.addr != last.addr
      {
      }
    }
  }

  /** The map has one user for each address that the users have. */
  lemma {:induction false} HaveOne(users: seq<Peer>)
    ensures forall p :: p in users ==> p.addr in Have(users)
    ensures forall a :: a in Have(users) ==> Have(users)[a].addr == a && Have(users)[a] in users
  {
    if users != [] {
      HaveOne(users[..|users| - 1]);
      assert users == users[..|users| - 1] + [users[|users| - 1]];
    }
  }

  lemma {:induction false} DroppedIs(users: seq<Peer>, addrs: seq<string>)
    ensures forall p :: p in Dropped(users, addrs) <==> p in users && p.addr !in addrs
  {
    if users != [] {
      DroppedIs(users[..|users| - 1], addrs);
      assert users == users[..|users| - 1] + [users[|users| - 1]];
    }
  }

  /** No user stands in the list of users twice and is dropped. */
  predicate NoneDroppedTwice(users: seq<Peer>, addrs: seq<string>) {
    forall i, j :: 0 <= i < j < |users| && users[i] == users[j] ==> users[i].addr in addrs
  }

  lemma NoneDroppedTwiceLast(init: seq<Peer>, last: Peer, addrs: seq<string>)
    ensures NoneDroppedTwice(init + [last], addrs)
        <==> NoneDroppedTwice(init, addrs) && (last in init ==> last.addr in addrs)
  {
    var users := init + [last];
    assert forall i :: 0 <= i < |init| ==> users[i] == init[i];
    if last in init {
      var i :| 0 <= i < |init| && init[i] == last;
      assert users[i] == users[|init|];
    }
  }

  lemma {:induction false} DroppedOnceIff(users: seq<Peer>, addrs: seq<string>)
    ensures Distinct(Dropped(users, addrs)) <==> NoneDroppedTwice(users, addrs)
  {
    if users != [] {
      hide NoneDroppedTwice, Distinct;
      var init, last := users[..|users| - 1], users[|users| - 1];
      DroppedOnceIff(init, addrs);
      DroppedIs(init, addrs);
      assert users == init + [last];
      NoneDroppedTwiceLast(init, last, addrs);
      DistinctLast(Dropped(init, addrs), last);
      assert Dropped(init, addrs) + [] == Dropped(init, addrs);
    }
  }

  /** New connections get new numbers, one after the other. */
  lemma {:induction false} BuiltNumbers(have: map<string, Peer>, addrs: seq<string>, dials: nat -> bool, n: nat,
                                        lastConn: nat)
    requires n <= |addrs|
    ensures var b := Built(have, addrs, dials, n, lastConn);
            && b.last >= lastConn
            && (forall p :: p in b.dialled ==> lastConn < p.conn <= b.last)
            && (forall p, q :: p in b.dialled && q in b.dialled && p.conn == q.conn ==> p == q)
            && (forall c :: lastConn < c <= b.last ==> HasConn(b.dialled, c))
  {
    if n > 0 {
      BuiltNumbers(have, addrs, dials, n - 1, lastConn);
      var b0 := Built(have, addrs, dials, n - 1, lastConn);
      var b := Built(have, addrs, dials, n, lastConn);
      forall c | lastConn < c <= b.last
        ensures HasConn(b.dialled, c)
      {
        if c <= b0.last {
          assert HasConn(b0.dialled, c);
        } else {
          assert Peer(c, addrs[n - 1]) in b.dialled;
        }
      }
    }
  }

  /** Every new user was kept as it was or is newly dialled, for an address of the list. */
  lemma {:induction false} BuiltUsers(have: map<string, Peer>, addrs: seq<string>, dials: nat -> bool, n: nat,
                                      lastConn: nat)
    requires n <= |addrs|
    requires forall a :: a in have ==> have[a].addr == a
    ensures var b := Built(have, addrs, dials, n, lastConn);
            && (forall p :: p in b.users ==> p.addr in addrs[..n])
            && (forall p :: p in b.users ==> p in b.dialled || (p.addr in have && have[p.addr] == p))
            && (forall p :: p in b.dialled ==> p in b.users && p.addr !in have)
            && (forall a :: a in addrs[..n] && a in have ==> have[a] in b.users)
  {
    if n > 0 {
      BuiltUsers(have, addrs, dials, n - 1, lastConn);
      var b0, b := Built(have, addrs, dials, n - 1, lastConn), Built(have, addrs, dials, n, lastConn);
      assert addrs[..n] == addrs[..n - 1] + [addrs[n - 1]];
      assert b0.users <= b.users;
      forall p | p in b.dialled
        ensures p in b.users
      {
        assert p in b0.dialled || p == b.users[|b0.users|];
      }
    }
  }

  /** A list without repeats gives every address one user. */
  lemma {:induction false} BuiltOnce(have: map<string, Peer>, addrs: seq<string>, dials: nat -> bool, n: nat,
                                     lastConn: nat)
    requires n <= |addrs| && Distinct(addrs)
    requires forall a :: a in have ==> have[a].addr == a
    ensures DistinctAddrs(Built(have, addrs, dials, n, lastConn).users)
  {
    if n > 0 {
      BuiltOnce(have, addrs, dials, n - 1, lastConn);
      BuiltUsers(have, addrs, dials, n - 1, lastConn);
      assert addrs[n - 1] !in addrs[..n - 1];
      assert forall p :: p in Built(have, addrs, dials, n - 1, lastConn).users ==> p.addr != addrs[n - 1];
    }
  }

  // ----- One call -----

  /** No two different users share an address of the list. */
  predicate NoneShadowed(users: seq<Peer>, addrs: seq<string>) {
    forall p, q :: p in users && q in users && p.addr == q.addr && p.addr in addrs ==> p == q
  }

  /**
   * When a call leaks: after it the open connections are those of the users exactly when no two different users
   * shared an address of the list. Only the last of them is kept, and the others are not closed.
   */
  lemma NoLeakIff(pool: Pool, addrs: seq<string>, dials: nat -> bool)
    requires Accounted(pool)
    ensures Apply(pool, addrs, dials).open == SetOf(Apply(pool, addrs, dials).users)
        <==> NoneShadowed(pool.users, addrs)
  {
    if NoneShadowed(pool.users, addrs) {
      NoLeak(pool, addrs, dials);
    } else {
      var p, q :| p in pool.users && q in pool.users && p.addr == q.addr && p.addr in addrs && p != q;
      HaveOne(pool.users);
      Leaks(pool, addrs, dials, if Have(pool.users)[p.addr] == p then q else p);
    }
  }

  lemma NoLeak(pool: Pool, addrs: seq<string>, dials: nat -> bool)
    requires Accounted(pool) && NoneShadowed(pool.users, addrs)
    ensures Apply(pool, addrs, dials).open == SetOf(Apply(pool, addrs, dials).users)
  {
    var have := Have(pool.users);
    var b, pool' := Built(have, addrs, dials, |addrs|, pool.lastConn), Apply(pool, addrs, dials);
    HaveOne(pool.users);
    DroppedIs(pool.users, addrs);
    BuiltNumbers(have, addrs, dials, |addrs|, pool.lastConn);
    BuiltUsers(have, addrs, dials, |addrs|, pool.lastConn);
    assert addrs[..|addrs|] == addrs;
    forall p
      ensures p in pool'.open <==> p in b.users
    {
      if p in pool.users && p.addr in addrs {
        assert have[p.addr] == p && have[p.addr] in b.users;
      }
    }
  }

  /** A user that another one with its address hides in the map stays open without being a user. */
  lemma Leaks(pool: Pool, addrs: seq<string>, dials: nat -> bool, p: Peer)
    requires Accounted(pool) && p in pool.users && p.addr in addrs
    requires p.addr in Have(pool.users) ==> Have(pool.users)[p.addr] != p
    ensures p in Apply(pool, addrs, dials).open && p !in Apply(pool, addrs, dials).users
  {
    var have := Have(pool.users);
    HaveOne(pool.users);
    DroppedIs(pool.users, addrs);
    BuiltNumbers(have, addrs, dials, |addrs|, pool.lastConn);
    BuiltUsers(have, addrs, dials, |addrs|, pool.lastConn);
    assert p in pool.open;
  }

  /** When a call closes a connection a second time: exactly when a user listed twice among the users is dropped. */
  lemma NoDoubleCloseIff(pool: Pool, addrs: seq<string>, dials: nat -> bool)
    requires Accounted(pool)
    ensures Distinct(Apply(pool, addrs, dials).closes) <==> NoneDroppedTwice(pool.users, addrs)
  {
    hide Distinct, NoneDroppedTwice, Dropped;
    var dropped := Dropped(pool.users, addrs);
    DroppedIs(pool.users, addrs);
    DroppedOnceIff(pool.users, addrs);
    assert forall p :: p in dropped ==> p in pool.open;
    if Distinct(dropped) {
      DistinctJoin(pool.closes, dropped);
    } else {
      RepeatStays(pool.closes, dropped);
    }
  }

  lemma RepeatStays(a: seq<Peer>, b: seq<Peer>)
    requires !Distinct(b)
    ensures !Distinct(a + b)
  {
    var i, j :| 0 <= i < j < |b| && b[i] == b[j];
    assert (a + b)[|a| + i] == (a + b)[|a| + j];
  }

  lemma NumbersKept(pool: Pool, addrs: seq<string>, dials: nat -> bool)
    requires Accounted(pool)
    ensures Numbered(Apply(pool, addrs, dials))
        && Apply(pool, addrs, dials).open !! SetOf(Apply(pool, addrs, dials).closes)
  {
    var b, pool' := Built(Have(pool.users), addrs, dials, |addrs|, pool.lastConn), Apply(pool, addrs, dials);
    DroppedIs(pool.users, addrs);
    BuiltNumbers(Have(pool.users), addrs, dials, |addrs|, pool.lastConn);
    var all, all' := pool.open + SetOf(pool.closes), pool'.open + SetOf(pool'.closes);
    assert forall p :: p in SetOf(pool'.closes) <==> p in SetOf(pool.closes) || p in Dropped(pool.users, addrs);
    assert all' == all + b.dialled;
    forall c | 1 <= c <= pool'.lastConn
      ensures HasConn(all', c)
    {
      if c <= pool.lastConn {
        assert HasConn(all, c);
      } else {
        assert HasConn(b.dialled, c);
      }
    }
  }

  /** The complete condition, on the users and the list alone: how the dials go makes no difference. */
  lemma AccountedIff(pool: Pool, addrs: seq<string>, dials: nat -> bool)
    requires Accounted(pool)
    ensures Accounted(Apply(pool, addrs, dials))
        <==> NoneShadowed(pool.users, addrs) && NoneDroppedTwice(pool.users, addrs)
  {
    hide Accounted, Apply, NoneShadowed, NoneDroppedTwice, Numbered, Distinct;
    NoLeakIff(pool, addrs, dials);
    NoDoubleCloseIff(pool, addrs, dials);
    NumbersKept(pool, addrs, dials);
    AccountedMeans(Apply(pool, addrs, dials));
  }

  lemma AccountedMeans(pool: Pool)
    requires pool.open !! SetOf(pool.closes) && Numbered(pool)
    ensures Accounted(pool) <==> pool.open == SetOf(pool.users) && Distinct(pool.closes)
  {
  }

  /** One user per address is enough to stay accounted for, and a list without repeats keeps it so. */
  lemma DistinctKeepsInv(pool: Pool, addrs: seq<string>, dials: nat -> bool)
    requires Inv(pool) && Distinct(addrs)
    ensures Inv(Apply(pool, addrs, dials))
  {
    HaveIs(pool.users);
    AccountedIff(pool, addrs, dials);
    BuiltOnce(Have(pool.users), addrs, dials, |addrs|, pool.lastConn);
  }

  // ----- Sequences of calls -----

  datatype Update = Update(addrs: seq<string>, dials: nat -> bool)

  ghost function Run(pool: Pool, updates: seq<Update>): Pool
    decreases |updates|
  {
    if updates == [] then pool else Run(Apply(pool, updates[0].addrs, updates[0].dials), updates[1..])
  }

  ghost predicate AlwaysAccounted(pool: Pool, updates: seq<Update>)
    decreases |updates|
  {
    Accounted(pool) && (updates != [] ==>
      AlwaysAccounted(Apply(pool, updates[0].addrs, updates[0].dials), updates[1..]))
  }

  /** Before each call, no users that share a listed address, and no user listed twice that is dropped. */
  ghost predicate AlwaysSafe(pool: Pool, updates: seq<Update>)
    decreases |updates|
  {
    updates != [] ==>
      && NoneShadowed(pool.users, updates[0].addrs)
      && NoneDroppedTwice(pool.users, updates[0].addrs)
      && AlwaysSafe(Apply(pool, updates[0].addrs, updates[0].dials), updates[1..])
  }

  /** Any sequence of lists, with any failing dials: every state is accounted for exactly when every call was safe. */
  lemma {:induction false} RunAccountedIff(pool: Pool, updates: seq<Update>)
    requires Accounted(pool)
    ensures AlwaysAccounted(pool, updates) <==> AlwaysSafe(pool, updates)
    decreases |updates|
  {
    if updates != [] {
      hide Accounted, Apply;
      var next := Apply(pool, updates[0].addrs, updates[0].dials);
      AccountedIff(pool, updates[0].addrs, updates[0].dials);
      if Accounted(next) {
        RunAccountedIff(next, updates[1..]);
      } else {
        assert !AlwaysAccounted(next, updates[1..]);
      }
    }
  }

  /** Over every sequence of duplicate-free lists: no connection leaks and none is closed twice. */
  lemma {:induction false} ConnectionsConserved(pool: Pool, updates: seq<Update>)
    requires Inv(pool) && forall u :: u in updates ==> Distinct(u.addrs)
    ensures Inv(Run(pool, updates))
    decreases |updates|
  {
    if updates != [] {
      hide Inv, Apply;
      assert updates[0] in updates;
      DistinctKeepsInv(pool, updates[0].addrs, updates[0].dials);
      ConnectionsConserved(Apply(pool, updates[0].addrs, updates[0].dials), updates[1..]);
    }
  }

  /**
   * So from the start: the open connections are always those of the users, and every connection ever dialled is one
   * of them or has been closed, once.
   */
  lemma ConservedFromTheStart(updates: seq<Update>)
    requires forall u :: u in updates ==> Distinct(u.addrs)
    ensures var pool := Run(NO_PEERS, updates);
            && pool.open == SetOf(pool.users) && Distinct(pool.closes) && pool.open !! SetOf(pool.closes)
            && forall c :: 1 <= c <= pool.lastConn ==> HasConn(pool.open + SetOf(pool.closes), c)
  {
    NobodyYet();
    ConnectionsConserved(NO_PEERS, updates);
  }

  /** Kept peers keep their identity, dropped ones are closed now, and only listed addresses are users. */
  lemma KeptAndDropped(pool: Pool, addrs: seq<string>, dials: nat -> bool, p: Peer)
    requires Inv(pool) && p in pool.users
    ensures var pool' := Apply(pool, addrs, dials);
            if p.addr in addrs then p in pool'.users && p !in pool'.closes
            else p !in pool'.users && p in pool'.closes[|pool.closes|..]
  {
    var have := Have(pool.users);
    HaveIs(pool.users);
    DroppedIs(pool.users, addrs);
    BuiltUsers(have, addrs, dials, |addrs|, pool.lastConn);
    assert addrs[..|addrs|] == addrs;
    assert p in pool.open;
    assert Apply(pool, addrs, dials).closes[|pool.closes|..] == Dropped(pool.users, addrs);
    assert p.addr in addrs ==> have[p.addr] in Apply(pool, addrs, dials).users;
  }

  /** Some user has the address. */
  predicate HasUser(users: seq<Peer>, a: string) {
    exists p :: p in users && p.addr == a
  }

  /**
   * Who the users are after a call, whatever the list, the dials and the users before: they stand in the order of
   * the list, one for each position whose address had a user or could be dialled. An address that had a user keeps
   * one of its users; any other user is new.
   */
  lemma UsersInListOrder(pool: Pool, addrs: seq<string>, dials: nat -> bool) returns (at: seq<nat>)
    ensures var users := Apply(pool, addrs, dials).users;
            && |at| == |users|
            && (forall j, k :: 0 <= j < k < |at| ==> at[j] < at[k])
            && (forall k :: 0 <= k < |at| ==> at[k] < |addrs| && users[k].addr == addrs[at[k]])
            && (forall i :: 0 <= i < |addrs| ==> (i in at <==> HasUser(pool.users, addrs[i]) || dials(i)))
            && (forall p :: p in users ==>
                  if HasUser(pool.users, p.addr) then p in pool.users else p.conn > pool.lastConn)
  {
    HaveOne(pool.users);
    at := BuiltInOrder(pool.users, addrs, dials, |addrs|, pool.lastConn);
  }

  lemma {:induction false} BuiltInOrder(before: seq<Peer>, addrs: seq<string>, dials: nat -> bool, n: nat,
                                        lastConn: nat) returns (at: seq<nat>)
    requires n <= |addrs|
    requires forall p :: p in before ==> p.addr in Have(before)
    requires forall a :: a in Have(before) ==> Have(before)[a].addr == a && Have(before)[a] in before
    ensures var b := Built(Have(before), addrs, dials, n, lastConn);
            && b.last >= lastConn
            && |at| == |b.users|
            && (forall j, k :: 0 <= j < k < |at| ==> at[j] < at[k])
            && (forall k :: 0 <= k < |at| ==> at[k] < n && b.users[k].addr == addrs[at[k]])
            && (forall i :: 0 <= i < n ==> (i in at <==> HasUser(before, addrs[i]) || dials(i)))
            && (forall p :: p in b.users ==> if HasUser(before, p.addr) then p in before else p.conn > lastConn)
  {
    hide Have;
    if n == 0 {
      at := [];
    } else {
      at := BuiltInOrder(before, addrs, dials, n - 1, lastConn);
      var a := addrs[n - 1];
      assert HasUser(before, a) <==> a in Have(before);
      if a in Have(before) || dials(n - 1) {
        at := at + [n - 1];
      }
    }
  }

  /** A listed address has a user exactly when it had one or one of its positions could be dialled. */
  lemma ListedHasUserIff(pool: Pool, addrs: seq<string>, dials: nat -> bool, a: string)
    ensures HasUser(Apply(pool, addrs, dials).users, a)
       <==> a in addrs && (HasUser(pool.users, a) || exists i :: 0 <= i < |addrs| && addrs[i] == a && dials(i))
  {
    hide Apply;
    var users := Apply(pool, addrs, dials).users;
    var at := UsersInListOrder(pool, addrs, dials);
    if HasUser(users, a) {
      var k :| 0 <= k < |users| && users[k].addr == a;
      assert at[k] in at && addrs[at[k]] == a;
    }
    if i :| 0 <= i < |addrs| && addrs[i] == a && (HasUser(pool.users, a) || dials(i)) {
      var k :| 0 <= k < |at| && at[k] == i;
      assert users[k] in users && users[k].addr == a;
    }
  }

  /** A list that repeats a new address leaks: the first of its connections outlives the users that held it. */
  lemma RepeatedAddressLeaks(a: string)
    ensures var dials := (i: nat) => true;
            var pool := Run(NO_PEERS, [Update([a, a], dials), Update([a], dials), Update([], dials)]);
            pool.users == [] && Peer(1, a) in pool.open
  {
    hide Apply, Run;
    var dials := (i: nat) => true;
    RunOfThree(Update([a, a], dials), Update([a], dials), Update([], dials));
    BothDialled(a, dials);
    LastOneKept(a, dials);
    LastOneDropped(a, dials);
  }

  lemma RunOfThree(u: Update, v: Update, w: Update)
    ensures Run(NO_PEERS, [u, v, w])
         == Apply(Apply(Apply(NO_PEERS, u.addrs, u.dials), v.addrs, v.dials), w.addrs, w.dials)
  {
    hide Apply;
    assert [u, v, w][1..] == [v, w] && [v, w][1..] == [w] && [w][1..] == [];
    var one := Apply(NO_PEERS, u.addrs, u.dials);
    var two := Apply(one, v.addrs, v.dials);
    assert Run(two, [w]) == Run(Apply(two, w.addrs, w.dials), []);
    assert Run(one, [v, w]) == Run(two, [w]);
  }

  lemma BothDialled(a: string, dials: nat -> bool)
    requires dials(0) && dials(1)
    ensures Apply(NO_PEERS, [a, a], dials) == Pool([Peer(1, a), Peer(2, a)], {Peer(1, a), Peer(2, a)}, [], 2)
  {
    assert Built(map[], [a, a], dials, 1, 0) == Build([Peer(1, a)], {Peer(1, a)}, 1);
    assert Built(map[], [a, a], dials, 2, 0) == Build([Peer(1, a), Peer(2, a)], {Peer(1, a), Peer(2, a)}, 2);
    assert Have([]) == map[] && Dropped([], [a, a]) == [];
  }

  lemma LastOneKept(a: string, dials: nat -> bool)
    ensures Apply(Pool([Peer(1, a), Peer(2, a)], {Peer(1, a), Peer(2, a)}, [], 2), [a], dials)
         == Pool([Peer(2, a)], {Peer(1, a), Peer(2, a)}, [], 2)
  {
    var two := [Peer(1, a), Peer(2, a)];
    assert two[..1] == [Peer(1, a)] && two[..1][..0] == [];
    assert Have(two[..1]) == map[a := Peer(1, a)];
    assert Have(two) == map[a := Peer(2, a)];
    assert Built(Have(two), [a], dials, 0, 2) == Build([], {}, 2);
    assert Built(Have(two), [a], dials, 1, 2) == Build([Peer(2, a)], {}, 2);
    assert Dropped(two[..1], [a]) == [];
    assert Dropped(two, [a]) == [];
  }

  lemma LastOneDropped(a: string, dials: nat -> bool)
    ensures Apply(Pool([Peer(2, a)], {Peer(1, a), Peer(2, a)}, [], 2), [], dials)
        == Pool([], {Peer(1, a)}, [Peer(2, a)], 2)
  {
    var one := [Peer(2, a)];
    assert one[..0] == [] && Dropped(one, []) == [] + [Peer(2, a)];
    assert SetOf([Peer(2, a)]) == {Peer(2, a)};
  }

  /** A list that repeats a connected address: its one connection is closed twice when the address goes. */
  lemma RepeatedAddressClosesTwice(a: string)
    ensures var dials := (i: nat) => true;
            var pool := Run(NO_PEERS, [Update([a], dials), Update([a, a], dials), Update([], dials)]);
            pool.closes == [Peer(1, a), Peer(1, a)]
  {
    hide Run, Apply;
    var dials := (i: nat) => true;
    RunOfThree(Update([a], dials), Update([a, a], dials), Update([], dials));
    OneDialled(a, dials);
    OneKeptTwice(a, dials);
    BothClosed(a, dials);
  }

  lemma OneDialled(a: string, dials: nat -> bool)
    requires dials(0)
    ensures Apply(NO_PEERS, [a], dials) == Pool([Peer(1, a)], {Peer(1, a)}, [], 1)
  {
    assert Built(map[], [a], dials, 0, 0) == Build([], {}, 0);
    assert Built(map[], [a], dials, 1, 0) == Build([Peer(1, a)], {Peer(1, a)}, 1);
    assert Have([]) == map[] && Dropped([], [a]) == [];
  }

  lemma OneKeptTwice(a: string, dials: nat -> bool)
    ensures Apply(Pool([Peer(1, a)], {Peer(1, a)}, [], 1), [a, a], dials)
         == Pool([Peer(1, a), Peer(1, a)], {Peer(1, a)}, [], 1)
  {
    var p := Peer(1, a);
    assert [p][..0] == [] && Have([p]) == map[a := p];
    assert Built(Have([p]), [a, a], dials, 0, 1) == Build([], {}, 1);
    assert Built(Have([p]), [a, a], dials, 1, 1) == Build([p], {}, 1);
    assert Built(Have([p]), [a, a], dials, 2, 1) == Build([p, p], {}, 1);
    assert Dropped([p], [a, a]) == [];
  }

  lemma BothClosed(a: string, dials: nat -> bool)
    ensures Apply(Pool([Peer(1, a), Peer(1, a)], {Peer(1, a)}, [], 1), [], dials).closes == [Peer(1, a), Peer(1, a)]
  {
    var p := Peer(1, a);
    assert [p, p][..1] == [p] && [p][..0] == [];
    assert Dropped([p], []) == [] + [p];
    assert Dropped([p, p], []) == [p] + [p];
  }

  // ----- Round robin -----

  /** How many of the picks with counter values from start on, len of them, choose position j of n. */
  function Picks(start: nat, len: nat, n: nat, j: nat): nat
    requires n > 0
  {
    if len == 0 then 0 else Picks(start, len - 1, n, j) + (if (start + len - 1) % n == j then 1 else 0)
  }

  lemma {:induction false} PicksJoin(start: nat, a: nat, b: nat, n: nat, j: nat)
    requires n > 0
    ensures Picks(start, a + b, n, j) == Picks(start, a, n, j) + Picks(start + a, b, n, j)
  {
    if b > 0 {
      PicksJoin(start, a, b - 1, n, j);
    }
  }

  lemma {:induction false} PicksFromZero(len: nat, n: nat, j: nat)
    requires n > 0 && len <= n
    ensures Picks(0, len, n, j) == if j < len then 1 else 0
  {
    if len > 0 {
      PicksFromZero(len - 1, n, j);
      SmallMod(len - 1, n);
    }
  }

  lemma SmallMod(x: nat, n: nat)
    requires x < n
    ensures x % n == x
  {
  }

  /** A full turn picks every position once, wherever it starts. */
  lemma {:induction false} OneTurn(start: nat, n: nat, j: nat)
    requires j < n
    ensures Picks(start, n, n, j) == 1
  {
    if start == 0 {
      PicksFromZero(n, n, j);
    } else {
      OneTurn(start - 1, n, j);
      PicksJoin(start - 1, 1, n - 1, n, j);
      PicksJoin(start, n - 1, 1, n, j);
      SameRemainder(start - 1, n);
      assert Picks(start - 1, 1, n, j) == (if (start - 1) % n == j then 1 else 0) by {
        assert Picks(start - 1, 0, n, j) == 0;
      }
      assert Picks(start + n - 1, 1, n, j) == (if (start + n - 1) % n == j then 1 else 0) by {
        assert Picks(start + n - 1, 0, n, j) == 0;
      }
    }
  }

  lemma SameRemainder(x: nat, n: nat)
    requires n > 0
    ensures (x + n) % n == x % n
  {
    DivModUnique(x + n, n, x / n + 1, x % n);
  }

  /** Any k turns over a fixed list of n peers choose each peer exactly k times. */
  lemma {:induction false} RoundRobinIsFair(start: nat, k: nat, n: nat, j: nat)
    requires j < n
    ensures Picks(start, k * n, n, j) == k
  {
    if k > 0 {
      RoundRobinIsFair(start, k - 1, n, j);
      assert k * n == (k - 1) * n + n;
      PicksJoin(start, (k - 1) * n, n, n, j);
      OneTurn(start + (k - 1) * n, n, j);
    }
  }

  function Count(chosen: seq<Peer>, p: Peer): nat {
    if chosen == [] then 0 else Count(chosen[..|chosen| - 1], p) + (if chosen[|chosen| - 1] == p then 1 else 0)
  }

  /** k * n calls of pickUser in a row, over n peers and before the counter wraps, return each peer exactly k times. */
  method PickTurns(h: Handler, k: nat) returns (chosen: seq<Peer>)
    requires h.users != [] && DistinctAddrs(h.users) && h.rr + k * |h.users| < 0x1_0000_0000_0000_0000
    modifies h`rr
    ensures |chosen| == k * |h.users|
    ensures forall j :: 0 <= j < |h.users| ==> Count(chosen, h.users[j]) == k
  {
    chosen := [];
    var n := |h.users|;
    var i := 0;
    while i < k * n
      invariant 0 <= i <= k * n && h.rr == old(h.rr) + i && |chosen| == i
      invariant forall j :: 0 <= j < n ==> Count(chosen, h.users[j]) == Picks(old(h.rr), i, n, j)
    {
      var r := h.PickUser();
      ghost var at := (old(h.rr) + i) % n;
      assert (chosen + [r.value])[..|chosen|] == chosen;
      assert forall j :: 0 <= j < n ==> (h.users[j] == r.value <==> j == at);
      chosen := chosen + [r.value];
      i := i + 1;
    }
    forall j | 0 <= j < n
      ensures Count(chosen, h.users[j]) == k
    {
      RoundRobinIsFair(old(h.rr), k, n, j);
    }
  }
}
