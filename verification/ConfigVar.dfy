/** A configuration value that follows a key of etcd: Var, sync and watch in config/etcd.go. */
module ConfigVar {
  import opened Wrappers

  // ----- The server -----

  /** The change that made a revision: a put or a delete of the key, or something about other keys. */
  datatype Change = Put(val: string) | Del | Other

  /** The key's value at revision r, the state after the first r changes. */
  function ValueAt(history: seq<Change>, r: nat): Option<string>
    requires r <= |history|
  {
    if r == 0 then None
    else
      match history[r - 1]
      case Put(val) => Some(val)
      case Del => None
      case Other => ValueAt(history, r - 1)
  }

  function ValueOr(history: seq<Change>, r: nat, fallback: string): string
    requires r <= |history|
  {
    match ValueAt(history, r)
    case Some(val) => val
    case None => fallback
  }

  /** What a watch delivers for the revisions above lo up to hi: the changes of the key, in order. */
  function KeyEvents(history: seq<Change>, lo: nat, hi: nat): seq<Change>
    requires lo <= hi <= |history|
  {
    if lo == hi then []
    else KeyEvents(history, lo, hi - 1) + (if history[hi - 1].Other? then [] else [history[hi - 1]])
  }

  /** What the read before the watch returns. */
  datatype Read = Failed | Missing | Found(val: string)

  function ReadOf(history: seq<Change>, r: nat): Read
    requires r <= |history|
  {
    match ValueAt(history, r)
    case Some(val) => Found(val)
    case None => Missing
  }

  // ----- The client -----

  /** The callback that sync gives to watch. */
  function Apply1(v: string, fallback: string, e: Change): string {
    match e
    case Put(val) => val
    case Del => fallback
    case Other => v
  }

  function Apply(v: string, fallback: string, es: seq<Change>): string {
    if es == [] then v else Apply1(Apply(v, fallback, es[..|es| - 1]), fallback, es[|es| - 1])
  }

  /** An event as the watch delivers it: a delete, or a put with its value if that is valid base64. */
  datatype Notice = Deleted | Stored(decoded: Option<string>)

  /** The changes that the client makes of them: a value that does not decode is passed over. */
  function ChangesOf(notices: seq<Notice>): seq<Change> {
    if notices == [] then []
    else
      var last := notices[|notices| - 1];
      ChangesOf(notices[..|notices| - 1])
        + (if last.Deleted? then [Del] else if last.decoded.Some? then [Put(last.decoded.value)] else [])
  }

  function Flatten(messages: seq<seq<Notice>>): seq<Notice> {
    if messages == [] then [] else Flatten(messages[..|messages| - 1]) + messages[|messages| - 1]
  }

  lemma {:induction false} ChangesAppend(a: seq<Notice>, b: seq<Notice>)
    ensures ChangesOf(a + b) == ChangesOf(a) + ChangesOf(b)
  {
    if b == [] {
      assert a + b == a;
    } else {
      assert (a + b)[..|a + b| - 1] == a + b[..|b| - 1];
      ChangesAppend(a, b[..|b| - 1]);
    }
  }

  /** The order of the messages, and of the events in each, is kept, and nothing is lost between them. */
  lemma {:induction false} FlattenJoins(a: seq<seq<Notice>>, b: seq<seq<Notice>>, m: seq<Notice>)
    ensures Flatten([m]) == m && Flatten(a + b) == Flatten(a) + Flatten(b)
  {
    assert [m][..0] == [] && Flatten([m]) == Flatten([]) + m;
    if b == [] {
      assert a + b == a;
    } else {
      assert (a + b)[..|a + b| - 1] == a + b[..|b| - 1];
      FlattenJoins(a, b[..|b| - 1], m);
    }
  }

  lemma {:induction false} ApplyAppend(v: string, fallback: string, a: seq<Change>, b: seq<Change>)
    ensures Apply(v, fallback, a + b) == Apply(Apply(v, fallback, a), fallback, b)
  {
    if b == [] {
      assert a + b == a;
    } else {
      assert (a + b)[..|a + b| - 1] == a + b[..|b| - 1];
      ApplyAppend(v, fallback, a, b[..|b| - 1]);
    }
  }

  class Var {
    const fallback: string
    var v: string

    constructor (fallback: string)
      ensures this.fallback == fallback && v == fallback
    {
      this.fallback := fallback;
      v := fallback;
    }

    method Get() returns (s: string)
      ensures s == v
    {
      s := v;
    }

    method Set(s: string)
      modifies this
      ensures v == s
    {
      if v == s {
        return;
      }
      v := s;
    }

    /**
     * One session: the snapshot, then every event of every message until the stream breaks. A read that fails and
     * a missing key leave the value alone. Whatever the grouping into messages, a watch that delivers the changes
     * after the snapshot up to revision hi leaves the key's value there, or the fallback, exactly when the key
     * existed at the snapshot, or changed since, or the fallback was held before.
     */
    method Sync(read: Read, messages: seq<seq<Notice>>)
      modifies this
      ensures v == if read.Failed? then old(v)
                   else Apply(if read.Found? then read.val else old(v), fallback, ChangesOf(Flatten(messages)))
      ensures forall history: seq<Change>, lo: nat, hi: nat ::
                lo <= hi <= |history| && read == ReadOf(history, lo)
                  && ChangesOf(Flatten(messages)) == KeyEvents(history, lo, hi) ==>
                  (v == ValueOr(history, hi, fallback)
                   <==> ValueAt(history, lo).Some? || KeyEvents(history, lo, hi) != [] || old(v) == fallback)
    {
      if read.Failed? {
        return;
      }
      if read.Found? {
        Set(read.val);
      }
      ghost var v0 := v;
      for i := 0 to |messages|
        invariant v == Apply(v0, fallback, ChangesOf(Flatten(messages[..i])))
      {
        ghost var v1 := v;
        for j := 0 to |messages[i]|
          invariant v == Apply(v1, fallback, ChangesOf(messages[i][..j]))
        {
          var ev := messages[i][j];
          assert messages[i][..j + 1][..j] == messages[i][..j];
          ApplyNext(v1, fallback, messages[i][..j], ev);
          if ev.Deleted? {
            Set(fallback);
            continue;
          }
          if ev.decoded.None? {
            continue;
          }
          Set(ev.decoded.value);
        }
        assert messages[i][..|messages[i]|] == messages[i];
        assert messages[..i + 1][..i] == messages[..i];
        ChangesAppend(Flatten(messages[..i]), messages[i]);
        ApplyAppend(v0, fallback, ChangesOf(Flatten(messages[..i])), ChangesOf(messages[i]));
      }
      assert messages[..|messages|] == messages;
      SyncReplicates(read, old(v), v, fallback, ChangesOf(Flatten(messages)));
    }
  }

  lemma ApplyNext(v: string, fallback: string, notices: seq<Notice>, ev: Notice)
    ensures Apply(v, fallback, ChangesOf(notices + [ev]))
         == if ev.Deleted? then fallback
            else if ev.decoded.Some? then ev.decoded.value
            else Apply(v, fallback, ChangesOf(notices))
  {
    assert (notices + [ev])[..|notices|] == notices;
    var es := ChangesOf(notices);
    if ev.Deleted? {
      assert (es + [Del])[..|es|] == es;
    } else if ev.decoded.Some? {
      assert (es + [Put(ev.decoded.value)])[..|es|] == es;
    } else {
      assert es + [] == es;
    }
  }

  // ----- One session -----

  /** The value held after a session that took its snapshot at revision lo and has followed the key up to hi. */
  function Followed(history: seq<Change>, v0: string, fallback: string, lo: nat, hi: nat): string
    requires lo <= hi <= |history|
  {
    var v := match ValueAt(history, lo) case Some(val) => val case None => v0;
    Apply(v, fallback, KeyEvents(history, lo, hi))
  }

  lemma FollowNone(history: seq<Change>, v0: string, fallback: string, lo: nat)
    requires lo <= |history|
    ensures Followed(history, v0, fallback, lo, lo) == match ValueAt(history, lo) case Some(val) => val case None => v0
  {
  }

  lemma FollowOne(history: seq<Change>, v0: string, fallback: string, lo: nat, hi: nat)
    requires lo < hi <= |history|
    ensures Followed(history, v0, fallback, lo, hi)
        == Apply1(Followed(history, v0, fallback, lo, hi - 1), fallback, history[hi - 1])
  {
    var es := KeyEvents(history, lo, hi - 1);
    if history[hi - 1].Other? {
      assert KeyEvents(history, lo, hi) == es;
    } else {
      assert (es + [history[hi - 1]])[..|es|] == es;
    }
  }

  /**
   * Replication, and when it holds: after following up to revision hi the variable has the key's value, or the
   * fallback if the key is absent, exactly when the key existed at the snapshot, or changed since, or the
   * variable held the fallback before. Otherwise it still holds what an earlier session left there.
   */
  lemma {:induction false} ReplicatesIff(history: seq<Change>, v0: string, fallback: string, lo: nat, hi: nat)
    requires lo <= hi <= |history|
    ensures Followed(history, v0, fallback, lo, hi) == ValueOr(history, hi, fallback)
       <==> ValueAt(history, lo).Some? || KeyEvents(history, lo, hi) != [] || v0 == fallback
    ensures ValueAt(history, lo).None? && KeyEvents(history, lo, hi) == [] ==>
        Followed(history, v0, fallback, lo, hi) == v0
    ensures KeyEvents(history, lo, hi) == [] ==> ValueAt(history, hi) == ValueAt(history, lo)
  {
    if lo < hi {
      ReplicatesIff(history, v0, fallback, lo, hi - 1);
      FollowOne(history, v0, fallback, lo, hi);
    }
  }

  lemma SyncReplicates(read: Read, v0: string, v: string, fallback: string, es: seq<Change>)
    requires !read.Failed? && v == Apply(if read.Found? then read.val else v0, fallback, es)
    ensures forall history: seq<Change>, lo: nat, hi: nat ::
              lo <= hi <= |history| && read == ReadOf(history, lo) && es == KeyEvents(history, lo, hi) ==>
                (v == ValueOr(history, hi, fallback)
                 <==> ValueAt(history, lo).Some? || KeyEvents(history, lo, hi) != [] || v0 == fallback)
  {
    forall history: seq<Change>, lo: nat, hi: nat |
      lo <= hi <= |history| && read == ReadOf(history, lo) && es == KeyEvents(history, lo, hi)
      ensures v == ValueOr(history, hi, fallback)
         <==> ValueAt(history, lo).Some? || KeyEvents(history, lo, hi) != [] || v0 == fallback
    {
      ReplicatesIff(history, v0, fallback, lo, hi);
    }
  }

  /** A watch from the revision after the snapshot misses nothing and repeats nothing, wherever it is cut. */
  lemma {:induction false} EventsJoin(history: seq<Change>, lo: nat, mid: nat, hi: nat)
    requires lo <= mid <= hi <= |history|
    ensures KeyEvents(history, lo, hi) == KeyEvents(history, lo, mid) + KeyEvents(history, mid, hi)
    decreases hi
  {
    if mid < hi {
      EventsJoin(history, lo, mid, hi - 1);
    }
  }

  // ----- All sessions -----

  /**
   * The server's history, the variable, and the revision up to which a session has followed the key. The other
   * fields record the run: the greatest revision seen by any session, and the revision whose value is held.
   */
  datatype World = World(history: seq<Change>, v: string, session: Option<nat>, seen: nat, shown: nat)

  datatype Event = Commit(change: Change) | Connect(r: nat) | Deliver | Disconnect

  function InitialWorld(fallback: string): World {
    World([], fallback, None, 0, 0)
  }

  /** Reads are linearizable: a snapshot is never older than what was seen before. */
  function Step(w: World, fallback: string, e: Event): Option<World> {
    match e
    case Commit(change) => Some(w.(history := w.history + [change]))
    case Connect(r) =>
      if w.session.Some? || r < w.seen || r > |w.history| then None
      else
        var w1 := w.(session := Some(r), seen := r);
        Some(match ValueAt(w.history, r) case Some(val) => w1.(v := val, shown := r) case None => w1)
    case Deliver =>
      if w.session.None? || w.session.value >= |w.history| then None
      else
        var e := w.history[w.session.value];
        var r := w.session.value + 1;
        var w1 := w.(session := Some(r), seen := r);
        Some(if e.Other? then w1 else w1.(v := Apply1(w.v, fallback, e), shown := r))
    case Disconnect =>
      if w.session.None? then None else Some(w.(session := None))
  }

  function Run(w: World, fallback: string, events: seq<Event>): Option<World>
    decreases |events|
  {
    if events == [] then Some(w)
    else
      match Step(w, fallback, events[0])
      case None => None
      case Some(w') => Run(w', fallback, events[1..])
  }

  ghost predicate Inv(w: World, fallback: string) {
    && w.shown <= w.seen <= |w.history|
    && (w.session.Some? ==> w.session.value == w.seen)
    && w.v == ValueOr(w.history, w.shown, fallback)
  }

  lemma {:induction false} OlderValuesStay(history: seq<Change>, change: Change, r: nat)
    requires r <= |history|
    ensures ValueAt(history + [change], r) == ValueAt(history, r)
  {
    if r > 0 {
      OlderValuesStay(history, change, r - 1);
    }
  }

  lemma StepKeepsInv(w: World, fallback: string, e: Event)
    requires Inv(w, fallback) && Step(w, fallback, e).Some?
    ensures Inv(Step(w, fallback, e).value, fallback) && Step(w, fallback, e).value.shown >= w.shown
  {
    if e.Commit? {
      OlderValuesStay(w.history, e.change, w.shown);
    }
  }

  /**
   * What can happen in a state: a commit always; a session begins whenever there is none, at any revision from the
   * last one seen on; one that is behind is delivered the next change; and it can break off at any time.
   */
  lemma Enabled(w: World, fallback: string, change: Change, r: nat)
    ensures Step(w, fallback, Commit(change)).Some?
    ensures Step(w, fallback, Connect(r)).Some? <==> w.session.None? && w.seen <= r <= |w.history|
    ensures Step(w, fallback, Deliver).Some? <==> w.session.Some? && w.session.value < |w.history|
    ensures Step(w, fallback, Disconnect).Some? <==> w.session.Some?
  {
  }

  /**
   * Across all sessions, connections and losses: the variable always holds the key's value, or the fallback for
   * an absent key, as of some revision; and from one moment to any later one that revision never goes back.
   */
  lemma {:induction false} NeverGoesBack(w: World, fallback: string, events: seq<Event>)
    requires Inv(w, fallback) && Run(w, fallback, events).Some?
    ensures var w' := Run(w, fallback, events).value;
            && w.shown <= w'.shown <= |w'.history|
            && w'.v == ValueOr(w'.history, w'.shown, fallback)
            && Inv(w', fallback)
    decreases |events|
  {
    if events != [] {
      hide Step, Inv;
      StepKeepsInv(w, fallback, events[0]);
      NeverGoesBack(Step(w, fallback, events[0]).value, fallback, events[1..]);
    }
    InvMeans(Run(w, fallback, events).value, fallback);
  }

  lemma InvMeans(w: World, fallback: string)
    requires Inv(w, fallback)
    ensures w.shown <= |w.history| && w.v == ValueOr(w.history, w.shown, fallback)
  {
  }

  lemma FromTheStart(fallback: string, events: seq<Event>)
    requires Run(InitialWorld(fallback), fallback, events).Some?
    ensures var w := Run(InitialWorld(fallback), fallback, events).value;
            w.shown <= |w.history| && w.v == ValueOr(w.history, w.shown, fallback)
  {
    NeverGoesBack(InitialWorld(fallback), fallback, events);
  }

  /** The session took its snapshot at revision lo, when the variable held v0, and has applied what follows. */
  ghost predicate InSession(w: World, fallback: string, v0: string, lo: nat) {
    w.session.Some? && lo <= w.session.value <= |w.history|
      && w.v == Followed(w.history, v0, fallback, lo, w.session.value)
  }

  lemma {:induction false} FollowedStays(history: seq<Change>, change: Change, v0: string, fallback: string, lo: nat,
                                         hi: nat)
    requires lo <= hi <= |history|
    ensures Followed(history + [change], v0, fallback, lo, hi) == Followed(history, v0, fallback, lo, hi)
    decreases hi
  {
    hide Followed;
    OlderValuesStay(history, change, lo);
    FollowNone(history, v0, fallback, lo);
    FollowNone(history + [change], v0, fallback, lo);
    if lo < hi {
      FollowedStays(history, change, v0, fallback, lo, hi - 1);
      FollowOne(history, v0, fallback, lo, hi);
      FollowOne(history + [change], v0, fallback, lo, hi);
    }
  }

  lemma ConnectStarts(w: World, fallback: string, r: nat)
    requires Inv(w, fallback) && Step(w, fallback, Connect(r)).Some?
    ensures InSession(Step(w, fallback, Connect(r)).value, fallback, w.v, r)
  {
  }

  /**
   * However commits and deliveries interleave, an unbroken session holds what its snapshot and all later changes
   * give.
   */
  lemma {:induction false} SessionFollows(w: World, fallback: string, v0: string, lo: nat, events: seq<Event>)
    requires Inv(w, fallback) && InSession(w, fallback, v0, lo)
    requires (forall e :: e in events ==> e.Commit? || e.Deliver?) && Run(w, fallback, events).Some?
    ensures InSession(Run(w, fallback, events).value, fallback, v0, lo)
    decreases |events|
  {
    if events != [] {
      var e := events[0];
      assert e in events;
      StepKeepsInv(w, fallback, e);
      SessionStep(w, fallback, v0, lo, e);
      SessionFollows(Step(w, fallback, e).value, fallback, v0, lo, events[1..]);
    }
  }

  lemma SessionStep(w: World, fallback: string, v0: string, lo: nat, e: Event)
    requires InSession(w, fallback, v0, lo) && (e.Commit? || e.Deliver?) && Step(w, fallback, e).Some?
    ensures InSession(Step(w, fallback, e).value, fallback, v0, lo)
  {
    if e.Commit? {
      FollowedStays(w.history, e.change, v0, fallback, lo, w.session.value);
    } else {
      FollowOne(w.history, v0, fallback, lo, w.session.value + 1);
    }
  }

  /**
   * While a session that connected at revision lo is up, after any earlier run and however commits and deliveries
   * interleave: the variable has the key's value at the revision it has followed to, or the fallback, exactly when
   * the key existed at lo, or has changed since, or the fallback was held at the connection.
   */
  lemma ReplicatesWhileUp(fallback: string, before: seq<Event>, lo: nat, since: seq<Event>)
    requires Run(InitialWorld(fallback), fallback, before).Some?
    requires var w := Run(InitialWorld(fallback), fallback, before).value;
             Step(w, fallback, Connect(lo)).Some? && Run(Step(w, fallback, Connect(lo)).value, fallback, since).Some?
    requires forall e :: e in since ==> e.Commit? || e.Deliver?
    ensures var w := Run(InitialWorld(fallback), fallback, before).value;
            var w' := Run(Step(w, fallback, Connect(lo)).value, fallback, since).value;
            && w'.session.Some? && lo <= w'.session.value <= |w'.history|
            && (w'.v == ValueOr(w'.history, w'.session.value, fallback)
                <==> (|| ValueAt(w'.history, lo).Some?
                      || KeyEvents(w'.history, lo, w'.session.value) != []
                      || w.v == fallback))
  {
    NeverGoesBack(InitialWorld(fallback), fallback, before);
    var w := Run(InitialWorld(fallback), fallback, before).value;
    var w1 := Step(w, fallback, Connect(lo)).value;
    StepKeepsInv(w, fallback, Connect(lo));
    ConnectStarts(w, fallback, lo);
    SessionFollows(w1, fallback, w.v, lo, since);
    var w' := Run(w1, fallback, since).value;
    ReplicatesIff(w'.history, w.v, fallback, lo, w'.session.value);
  }

  /**
   * A key deleted while the client was away: the next session finds no key and keeps the old value, not the
   * fallback.
   */
  lemma StaleValueSurvives(fallback: string, old_: string)
    requires old_ != fallback
    ensures var events := [Commit(Put(old_)), Connect(1), Disconnect, Commit(Del), Connect(2)];
            var w := Run(InitialWorld(fallback), fallback, events);
            && w.Some? && w.value.session == Some(|w.value.history|)
            && w.value.v == old_ != ValueOr(w.value.history, |w.value.history|, fallback)
  {
    var w1 := Step(InitialWorld(fallback), fallback, Commit(Put(old_))).value;
    var w2 := Step(w1, fallback, Connect(1)).value;
    var w3 := Step(w2, fallback, Disconnect).value;
    var w4 := Step(w3, fallback, Commit(Del)).value;
    var w5 := Step(w4, fallback, Connect(2)).value;
    assert w4.history == [Put(old_), Del];
    RunCons(w4, fallback, Connect(2), []);
    assert [Connect(2)] + [] == [Connect(2)];
    RunCons(w3, fallback, Commit(Del), [Connect(2)]);
    RunCons(w2, fallback, Disconnect, [Commit(Del), Connect(2)]);
    RunCons(w1, fallback, Connect(1), [Disconnect, Commit(Del), Connect(2)]);
    RunCons(InitialWorld(fallback), fallback, Commit(Put(old_)), [Connect(1), Disconnect, Commit(Del), Connect(2)]);
    assert [Commit(Del)] + [Connect(2)] == [Commit(Del), Connect(2)];
    assert [Disconnect] + [Commit(Del), Connect(2)] == [Disconnect, Commit(Del), Connect(2)];
    assert [Connect(1)] + [Disconnect, Commit(Del), Connect(2)] == [Connect(1), Disconnect, Commit(Del), Connect(2)];
    assert [Commit(Put(old_))] + [Connect(1), Disconnect, Commit(Del), Connect(2)]
        == [Commit(Put(old_)), Connect(1), Disconnect, Commit(Del), Connect(2)];
  }

  lemma RunCons(w: World, fallback: string, e: Event, rest: seq<Event>)
    requires Step(w, fallback, e).Some?
    ensures Run(w, fallback, [e] + rest) == Run(Step(w, fallback, e).value, fallback, rest)
  {
    assert ([e] + rest)[1..] == rest;
  }
}
