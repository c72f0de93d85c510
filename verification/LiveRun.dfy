/**
 * The fan-out of a running job's log: liveRun in platform/server/ops.go, and the follower loop followLive in
 * platform/server/http.go.
 */
module LiveLog {
  import opened Wrappers
  import opened Sets
  import opened LiveLine

  const CAPACITY: nat := 64

  /** How a subscription ended, if it did, with the total length of deltas written until then. */
  datatype Phase = Open | Closed(upTo: nat) | Cancelled

  /**
   * A subscriber's channel: its queue and whether it is closed. The other fields record the subscription: the
   * snapshot it got, the total delta length at that time, what it has received, and whether a delta was lost.
   */
  datatype Chan = Chan(queue: seq<string>, closed: bool, snap: string, from: nat, received: seq<string>, lost: bool,
                       phase: Phase)

  /** written records all deltas, in order. */
  datatype Live = Live(line: Line, sent: nat, subs: seq<nat>, closed: bool, chans: seq<Chan>, written: string)

  const START := Live(Line([], []), 0, [], false, [], [])

  /** A non-blocking send to a bounded queue: a full queue loses the delta. */
  function Offer(ch: Chan, delta: string): Chan {
    if |ch.queue| < CAPACITY then ch.(queue := ch.queue + [delta]) else ch.(lost := true)
  }

  function OfferAll(chans: seq<Chan>, subs: seq<nat>, delta: string): (r: seq<Chan>)
    ensures |r| == |chans|
  {
    seq(|chans|, i requires 0 <= i < |chans| => if i in subs then Offer(chans[i], delta) else chans[i])
  }

  function CloseAll(chans: seq<Chan>, subs: seq<nat>, upTo: nat): (r: seq<Chan>)
    ensures |r| == |chans|
  {
    seq(|chans|, i requires 0 <= i < |chans| => if i in subs then chans[i].(closed := true, phase := Closed(upTo))
      else chans[i])
  }

  function Without(subs: seq<nat>, id: nat): seq<nat> {
    if subs == [] then [] else if subs[0] == id then subs[1..] else [subs[0]] + Without(subs[1..], id)
  }

  datatype Event = Write(p: string) | Subscribe | Cancel(id: nat) | Finish | Take(id: nat)

  function DoWrite(l: Live, p: string): Live {
    var line := Absorb(l.line, p);
    var full := Full(line);
    if |full| > l.sent then
      var delta := full[l.sent..];
      l.(line := line, sent := |full|, chans := OfferAll(l.chans, l.subs, delta), written := l.written + delta)
    else l.(line := line)
  }

  function DoSubscribe(l: Live): Live {
    var snap := Full(l.line);
    if l.closed then
      l.(chans := l.chans + [Chan([], true, snap, l.sent, [], false, Closed(l.sent))])
    else
      l.(chans := l.chans + [Chan([], false, snap, l.sent, [], false, Open)], subs := l.subs + [|l.chans|])
  }

  /** The cancel function of a subscription; it does nothing once the channel is out of subs. */
  function DoCancel(l: Live, id: nat): Live {
    if id in l.subs && id < |l.chans| then
      l.(subs := Without(l.subs, id), chans := l.chans[id := l.chans[id].(phase := Cancelled)])
    else l
  }

  function DoFinish(l: Live): Live {
    if l.closed then l else l.(closed := true, chans := CloseAll(l.chans, l.subs, l.sent), subs := [])
  }

  /** The subscriber receives the oldest queued delta, if there is one. */
  function DoTake(l: Live, id: nat): Live {
    if id < |l.chans| && l.chans[id].queue != [] then
      var ch := l.chans[id];
      l.(chans := l.chans[id := ch.(queue := ch.queue[1..], received := ch.received + [ch.queue[0]])])
    else l
  }

  function Do(l: Live, e: Event): Live {
    match e
    case Write(p) => DoWrite(l, p)
    case Subscribe => DoSubscribe(l)
    case Cancel(id) => DoCancel(l, id)
    case Finish => DoFinish(l)
    case Take(id) => DoTake(l, id)
  }

  function Run(events: seq<Event>): Live {
    if events == [] then START else Do(Run(events[..|events| - 1]), events[|events| - 1])
  }

  function Concat(q: seq<string>): string {
    if q == [] then [] else q[0] + Concat(q[1..])
  }

  lemma {:induction false} ConcatLast(q: seq<string>, d: string)
    ensures Concat(q + [d]) == Concat(q) + d
  {
    if q == [] {
      assert [d][1..] == [] && Concat([d]) == d + [];
      assert [] + [d] == [d];
    } else {
      assert (q + [d])[1..] == q[1..] + [d];
      ConcatLast(q[1..], d);
    }
  }

  // ----- What holds in every run -----

  /** What the channel was given: received and still queued. */
  function Given(ch: Chan): string {
    Concat(ch.received + ch.queue)
  }

  ghost predicate ChanInv(l: Live, i: nat)
    requires i < |l.chans|
  {
    var ch := l.chans[i];
    && |ch.queue| <= CAPACITY
    && ch.from <= |l.written|
    && (i in l.subs <==> ch.phase.Open?)
    && (ch.closed <==> ch.phase.Closed?)
    && (ch.phase.Closed? ==> ch.from <= ch.phase.upTo <= |l.written|)
    && (!ch.lost && ch.phase.Open? ==> Given(ch) == l.written[ch.from..])
    && (!ch.lost && ch.phase.Closed? ==> Given(ch) == l.written[ch.from..ch.phase.upTo])
  }

  ghost predicate Inv(l: Live) {
    && WellFormed(l.line)
    && l.sent == |l.written|
    && Distinct(l.subs)
    && (forall id :: id in l.subs ==> id < |l.chans|)
    && (l.closed ==> l.subs == [])
    && forall i :: 0 <= i < |l.chans| ==> ChanInv(l, i)
  }

  lemma WriteKeepsInv(l: Live, p: string)
    requires Inv(l)
    ensures Inv(DoWrite(l, p))
  {
    AbsorbCommits(l.line, p);
    var l' := DoWrite(l, p);
    forall i | 0 <= i < |l'.chans|
      ensures ChanInv(l', i)
    {
      WriteKeepsChan(l, p, i);
    }
  }

  lemma WriteKeepsChan(l: Live, p: string, i: nat)
    requires Inv(l) && i < |l.chans|
    ensures ChanInv(DoWrite(l, p), i)
  {
    hide Absorb, WellFormed;
    assert ChanInv(l, i);
    var full := Full(Absorb(l.line, p));
    var ch := l.chans[i];
    if |full| > l.sent {
      var delta := full[l.sent..];
      var w := l.written + delta;
      assert w[ch.from..] == l.written[ch.from..] + delta;
      if ch.phase.Closed? {
        assert w[ch.from..ch.phase.upTo] == l.written[ch.from..ch.phase.upTo];
      }
      ConcatLast(ch.received + ch.queue, delta);
      assert ch.received + (ch.queue + [delta]) == (ch.received + ch.queue) + [delta];
    }
  }

  lemma SubscribeKeepsInv(l: Live)
    requires Inv(l)
    ensures Inv(DoSubscribe(l))
  {
    var l' := DoSubscribe(l);
    DistinctJoin(l.subs, [|l.chans|]);
    forall i | 0 <= i < |l'.chans|
      ensures ChanInv(l', i)
    {
      if i < |l.chans| {
        assert ChanInv(l, i);
      } else {
        assert Given(l'.chans[i]) == [];
      }
    }
  }

  lemma {:induction false} WithoutIs(subs: seq<nat>, id: nat)
    requires Distinct(subs)
    ensures forall x :: x in Without(subs, id) <==> x in subs && x != id
    ensures Distinct(Without(subs, id))
  {
    if subs != [] {
      assert subs == [subs[0]] + subs[1..];
      WithoutIs(subs[1..], id);
      if subs[0] != id {
        DistinctJoin([subs[0]], Without(subs[1..], id));
      }
    }
  }

  lemma CancelKeepsInv(l: Live, id: nat)
    requires Inv(l)
    ensures Inv(DoCancel(l, id))
  {
    var l' := DoCancel(l, id);
    WithoutIs(l.subs, id);
    forall i | 0 <= i < |l'.chans|
      ensures ChanInv(l', i)
    {
      assert ChanInv(l, i);
    }
  }

  lemma FinishKeepsInv(l: Live)
    requires Inv(l)
    ensures Inv(DoFinish(l))
  {
    var l' := DoFinish(l);
    forall i | 0 <= i < |l'.chans|
      ensures ChanInv(l', i)
    {
      assert ChanInv(l, i);
      var ch := l.chans[i];
      assert l.written[ch.from..] == l.written[ch.from..|l.written|];
    }
  }

  lemma TakeKeepsInv(l: Live, id: nat)
    requires Inv(l)
    ensures Inv(DoTake(l, id))
  {
    var l' := DoTake(l, id);
    forall i | 0 <= i < |l'.chans|
      ensures ChanInv(l', i)
    {
      assert ChanInv(l, i);
      var ch := l.chans[i];
      if i == id && ch.queue != [] {
        assert (ch.received + [ch.queue[0]]) + ch.queue[1..] == ch.received + ch.queue;
      }
    }
  }

  lemma StepKeepsInv(l: Live, e: Event)
    requires Inv(l)
    ensures Inv(Do(l, e))
  {
    hide Inv;
    match e
    case Write(p) => WriteKeepsInv(l, p);
    case Subscribe => SubscribeKeepsInv(l);
    case Cancel(id) => CancelKeepsInv(l, id);
    case Finish => FinishKeepsInv(l);
    case Take(id) => TakeKeepsInv(l, id);
  }

  lemma {:induction false} RunInv(events: seq<Event>)
    ensures Inv(Run(events))
  {
    if events != [] {
      hide Inv, Do;
      RunInv(events[..|events| - 1]);
      StepKeepsInv(Run(events[..|events| - 1]), events[|events| - 1]);
    }
  }

  /** The longest text ever shown, over all the states of the run. */
  function LongestShown(events: seq<Event>): nat {
    if events == [] then 0
    else
      var before := LongestShown(events[..|events| - 1]);
      var now := |Full(Run(events).line)|;
      if now > before then now else before
  }

  /** One step raises sent exactly to the length shown after it, if that is longer. */
  lemma StepSent(l: Live, e: Event)
    requires |Full(l.line)| <= l.sent
    ensures var l' := Do(l, e);
            |Full(l'.line)| <= l'.sent == if |Full(l'.line)| > l.sent then |Full(l'.line)| else l.sent
  {
    hide Full, Absorb;
  }

  /** In all runs, bare carriage returns or not, the deltas add up to sent, which is the longest length ever shown. */
  lemma {:induction false} DeltasAddUp(events: seq<Event>)
    ensures |Run(events).written| == Run(events).sent == LongestShown(events)
    ensures |Full(Run(events).line)| <= Run(events).sent
  {
    SentIsWritten(events);
    if events != [] {
      hide Do, Full;
      DeltasAddUp(events[..|events| - 1]);
      StepSent(Run(events[..|events| - 1]), events[|events| - 1]);
    }
  }

  lemma SentIsWritten(events: seq<Event>)
    ensures |Run(events).written| == Run(events).sent
  {
    hide Run;
    RunInv(events);
  }

  // ----- Runs whose writes only append to what is shown -----

  /**
   * The first line of the chunk leaves the pending line in front: its carriage returns, if any, overwrite it with
   * itself.
   */
  predicate Appends(l: Live, p: string) {
    l.line.cur <= Pending(l.line.cur, Normalize(p))
  }

  ghost predicate AppendOnly(events: seq<Event>) {
    events != [] ==>
      var init, last := events[..|events| - 1], events[|events| - 1];
      AppendOnly(init) && (last.Write? ==> Appends(Run(init), last.p))
  }

  /** The deltas are the log, and every snapshot was the log at its time. */
  ghost predicate Faithful(l: Live) {
    && Full(l.line) == l.written
    && forall i :: 0 <= i < |l.chans| ==>
      l.chans[i].from <= |l.written| && l.chans[i].snap == l.written[..l.chans[i].from]
  }

  /**
   * Which chunks keep the deltas equal to the log: exactly those whose first line leaves the pending line in
   * front. Carriage returns after the first newline never matter.
   */
  lemma WriteFaithfulIff(l: Live, p: string)
    requires Inv(l) && Faithful(l)
    ensures Faithful(DoWrite(l, p)) <==> Appends(l, p)
  {
    ShownStaysIff(l.line, Normalize(p));
    var full, l' := Full(Absorb(l.line, p)), DoWrite(l, p);
    if |full| > l.sent {
      assert l'.written == l.written + full[l.sent..];
      if Appends(l, p) {
        assert full == l.written + full[l.sent..];
      }
      assert Full(l'.line) == l'.written ==> l.written <= full;
    } else {
      assert Appends(l, p) ==> full == l.written;
    }
  }

  lemma StepFaithfulIff(l: Live, e: Event)
    requires Inv(l) && Faithful(l)
    ensures Faithful(Do(l, e)) <==> (e.Write? ==> Appends(l, e.p))
  {
    if e.Write? {
      WriteFaithfulIff(l, e.p);
    } else if e.Subscribe? {
      assert l.written[..|l.written|] == l.written;
    }
  }

  /** The deltas were the log after every event of the run. */
  ghost predicate AlwaysFaithful(events: seq<Event>) {
    Faithful(Run(events)) && (events != [] ==> AlwaysFaithful(events[..|events| - 1]))
  }

  /** The runs whose deltas are the log all along are exactly those whose chunks all leave the pending line in front. */
  lemma {:induction false} RunFaithfulIff(events: seq<Event>)
    ensures AlwaysFaithful(events) <==> AppendOnly(events)
  {
    if events != [] {
      hide Do, Inv, Faithful, Appends;
      var init := events[..|events| - 1];
      RunInv(init);
      RunFaithfulIff(init);
      if AlwaysFaithful(init) {
        NowFaithful(init);
        StepFaithfulIff(Run(init), events[|events| - 1]);
      }
    } else {
      assert Full(START.line) == [];
    }
  }

  lemma NowFaithful(events: seq<Event>)
    requires AlwaysFaithful(events)
    ensures Faithful(Run(events))
  {
  }

  /** The first line of the chunk has no carriage return, or there is no pending line that one could discard. */
  predicate Harmless(l: Live, p: string) {
    var s := Normalize(p);
    l.line.cur == [] || exists k :: 0 <= k <= |s| && '\r' !in s[..k] && (k == |s| || s[k] == '\n')
  }

  lemma HarmlessAppends(l: Live, p: string)
    requires Harmless(l, p)
    ensures Appends(l, p)
  {
    if l.line.cur != [] {
      var s := Normalize(p);
      var k :| 0 <= k <= |s| && '\r' !in s[..k] && (k == |s| || s[k] == '\n');
      PendingGrows(l.line.cur, s, k);
    }
  }

  ghost predicate NoBareReturns(events: seq<Event>) {
    forall i :: 0 <= i < |events| && events[i].Write? ==> NoBareReturn(events[i].p)
  }

  /** Runs without bare carriage returns only append. */
  lemma {:induction false} NoBareReturnsAppend(events: seq<Event>)
    requires NoBareReturns(events)
    ensures AppendOnly(events)
  {
    if events != [] {
      hide Run;
      var init, last := events[..|events| - 1], events[|events| - 1];
      NoBareReturnsAppend(init);
      if last.Write? {
        var s := Normalize(last.p);
        NoReturnFirstLine(s);
        HarmlessAppends(Run(init), last.p);
      }
    }
  }

  lemma {:induction false} NoReturnFirstLine(s: string)
    requires '\r' !in s
    ensures exists k :: 0 <= k <= |s| && '\r' !in s[..k] && (k == |s| || s[k] == '\n')
  {
    assert s[..|s|] == s;
  }

  /**
   * Subscriber reassembly. In every interleaving of writes, subscriptions, cancellations and finish whose writes
   * only append, for a subscriber that lost nothing: while it is subscribed, snapshot and deltas are the log
   * so far; after the channel is closed, they are the log as it was when it was closed.
   */
  lemma Reassembly(events: seq<Event>, id: nat)
    requires AppendOnly(events) && id < |Run(events).chans| && !Run(events).chans[id].lost
    ensures var l := Run(events);
            var ch := l.chans[id];
            && (ch.phase.Open? ==> ch.snap + Given(ch) == Full(l.line))
            && (ch.phase.Closed? ==> ch.phase.upTo <= |Full(l.line)|)
            && (ch.phase.Closed? ==> ch.snap + Given(ch) == Full(l.line)[..ch.phase.upTo])
  {
    hide AppendOnly, Run;
    RunInv(events);
    RunFaithfulIff(events);
    var l := Run(events);
    assert ChanInv(l, id);
  }

  /** A bare carriage return over shown text: the subscriber keeps what the log no longer shows. */
  lemma ReturnBreaksReassembly()
    ensures var l := Run([Subscribe, Write("a"), Write("\r")]);
            |l.chans| == 1 && !l.chans[0].lost && l.chans[0].phase.Open?
              && l.chans[0].snap + Given(l.chans[0]) != Full(l.line)
  {
    var l1 := Do(START, Subscribe);
    assert Normalize("a") == ['a'] + Normalize([]);
    assert Absorb(START.line, "a") == Line([], "a");
    var l2 := Do(l1, Write("a"));
    assert Normalize("\r") == ['\r'] + Normalize([]);
    assert Absorb(l2.line, "\r") == Line([], []);
    var l3 := Do(l2, Write("\r"));
    assert Run([]) == START;
    assert [Subscribe][..0] == [] && Run([Subscribe]) == l1;
    assert [Subscribe, Write("a")][..1] == [Subscribe] && Run([Subscribe, Write("a")]) == l2;
    assert [Subscribe, Write("a"), Write("\r")][..2] == [Subscribe, Write("a")]
      && Run([Subscribe, Write("a"), Write("\r")]) == l3;
    assert l3.chans[0].queue == ["a"];
    assert Concat(["a"]) == "a" + Concat([]);
  }

  /** A delta is lost exactly when it finds the queue of a subscriber full, and then only for that subscriber. */
  lemma LostOnlyWhenFull(l: Live, p: string, id: nat)
    requires id < |l.chans| && !l.chans[id].lost
    ensures DoWrite(l, p).chans[id].lost
       <==> id in l.subs && |l.chans[id].queue| >= 64 && |Full(Absorb(l.line, p))| > l.sent
  {
  }

  /** Finish closes every channel that is listed, once, keeps what is queued, and empties the list. */
  lemma FinishCloses(l: Live)
    requires Inv(l)
    ensures var l' := DoFinish(l);
            && l'.closed && l'.subs == [] && |l'.chans| == |l.chans| && Full(l'.line) == Full(l.line)
            && forall i :: 0 <= i < |l.chans| ==>
                 && l'.chans[i].queue == l.chans[i].queue && l'.chans[i].received == l.chans[i].received
                 && (i in l.subs ==> !l.chans[i].closed && l'.chans[i].closed)
                 && (i !in l.subs ==> l'.chans[i] == l.chans[i])
  {
    assert l.closed ==> l.subs == [];
    forall i | 0 <= i < |l.chans|
      ensures i in l.subs ==> !l.chans[i].closed
    {
      assert ChanInv(l, i);
    }
  }

  /** A cancelled channel is never written to again nor closed, whatever comes, and the others do not notice. */
  lemma CancelStops(l: Live, id: nat, p: string)
    requires Inv(l) && id in l.subs && id < |l.chans|
    ensures var l1 := DoCancel(l, id);
            && id !in l1.subs && (forall i :: i in l.subs && i != id ==> i in l1.subs)
            && |l1.chans| == |l.chans| && l1.chans[id].queue == l.chans[id].queue
            && DoWrite(l1, p).chans[id] == DoFinish(l1).chans[id] == l1.chans[id]
            && !l1.chans[id].closed
            && forall i :: 0 <= i < |l.chans| && i != id ==>
                 DoWrite(l1, p).chans[i] == DoWrite(l, p).chans[i] && DoFinish(l1).chans[i] == DoFinish(l).chans[i]
  {
    hide Absorb, Full, Given;
    WithoutIs(l.subs, id);
    assert ChanInv(l, id);
  }

  lemma TakeOnce(events: seq<Event>, id: nat)
    requires id < |Run(events).chans| && Run(events).chans[id].queue != []
    ensures var l, ch := Run(events), Run(events).chans[id];
            Run(events + [Take(id)])
            == l.(chans := l.chans[id := ch.(queue := ch.queue[1..], received := ch.received + [ch.queue[0]])])
  {
    var once := events + [Take(id)];
    assert once[..|once| - 1] == events;
  }

  /** As many takes as there are queued deltas receive all of them, in order. */
  lemma {:induction false} TakesReceiveAll(events: seq<Event>, id: nat, n: nat)
    requires id < |Run(events).chans| && n == |Run(events).chans[id].queue|
    ensures var all := events + seq(n, i => Take(id));
            && Run(all) == Run(events).(chans := Run(all).chans) && |Run(all).chans| == |Run(events).chans|
            && Run(all).chans[id]
            == Run(events).chans[id].(queue := [], received := Run(events).chans[id].received
                                                               + Run(events).chans[id].queue)
    decreases n
  {
    hide Run;
    var takes := seq(n, i => Take(id));
    var ch := Run(events).chans[id];
    if n == 0 {
      assert events + takes == events;
      assert ch.received + [] == ch.received;
    } else {
      var once := events + [Take(id)];
      TakeOnce(events, id);
      TakesReceiveAll(once, id, n - 1);
      assert events + takes == once + seq(n - 1, i => Take(id));
      assert ch.received + [ch.queue[0]] + ch.queue[1..] == ch.received + ch.queue;
    }
  }

  /** A subscriber that has lost nothing can always come to have the whole log up to where its channel was closed. */
  lemma CanFollowToTheEnd(events: seq<Event>, id: nat)
    requires AppendOnly(events) && id < |Run(events).chans|
    requires !Run(events).chans[id].lost && Run(events).chans[id].phase.Closed?
    ensures var all := events + seq(|Run(events).chans[id].queue|, i => Take(id));
            && id < |Run(all).chans|
            && var ch := Run(all).chans[id];
            && ch.queue == [] && ch.phase == Run(events).chans[id].phase
            && ch.phase.upTo <= |Full(Run(events).line)|
            && ch.snap + Concat(ch.received) == Full(Run(events).line)[..ch.phase.upTo]
  {
    hide Run, AppendOnly;
    var ch := Run(events).chans[id];
    TakesReceiveAll(events, id, |ch.queue|);
    Reassembly(events, id);
  }

  // ----- The follower -----

  function TrimPrefix(s: string, prefix: string): string {
    if prefix <= s then s[|prefix|..] else s
  }

  /** What is stored about the job once it is over. */
  datatype Build = Build(status: string, error: string)

  datatype RunEvent = Text(text: string) | Done(status: string, error: string)

  function TextOf(events: seq<RunEvent>): string {
    if events == [] then []
    else (if events[0].Text? then events[0].text else []) + TextOf(events[1..])
  }

  lemma TextCons(e: RunEvent, rest: seq<RunEvent>)
    ensures TextOf([e] + rest) == (if e.Text? then e.text else []) + TextOf(rest)
  {
    assert ([e] + rest)[1..] == rest;
  }

  lemma {:induction false} TextAppend(a: seq<RunEvent>, e: RunEvent)
    ensures TextOf(a + [e]) == TextOf(a) + (if e.Text? then e.text else [])
  {
    if a == [] {
      TextCons(e, []);
      assert [] + [e] == [e] + [] == [e];
    } else {
      hide TextOf;
      TextAppend(a[1..], e);
      TextCons(a[0], a[1..]);
      TextCons(a[0], a[1..] + [e]);
      assert a == [a[0]] + a[1..] && a + [e] == [a[0]] + (a[1..] + [e]);
    }
  }

  function NonEmpty(text: string): seq<RunEvent> {
    if text == [] then [] else [Text(text)]
  }

  /** The text events for a subscription: the snapshot without its known prefix, and every delta that is not empty. */
  function TextEvents(snap: string, already: string, deltas: seq<string>): seq<RunEvent> {
    if deltas == [] then NonEmpty(TrimPrefix(snap, already))
    else TextEvents(snap, already, deltas[..|deltas| - 1]) + NonEmpty(deltas[|deltas| - 1])
  }

  /** The last event: a status other than ok stands in for a missing error text. */
  function DoneOf(b: Build): RunEvent {
    Done(b.status, if b.error == "" && b.status != "" && b.status != "ok" then b.status else b.error)
  }

  lemma DoneEnds(sent: seq<RunEvent>, b: Build)
    requires sent != [] && sent[|sent| - 1] == DoneOf(b)
    ensures EndsWith(sent, b)
  {
  }

  lemma {:induction false} TextEventsGrow(snap: string, already: string, deltas: seq<string>, i: nat)
    requires i <= |deltas|
    ensures TextEvents(snap, already, deltas[..i]) <= TextEvents(snap, already, deltas)
    decreases |deltas|
  {
    if i < |deltas| {
      var init := deltas[..|deltas| - 1];
      TextEventsGrow(snap, already, init, i);
      assert init[..i] == deltas[..i];
    } else {
      assert deltas[..i] == deltas;
    }
  }

  lemma TextEventsFirst(snap: string, already: string, deltas: seq<string>)
    ensures TextEvents(snap, already, deltas[..0])
        == NonEmpty(TrimPrefix(snap, already)) <= TextEvents(snap, already, deltas)
  {
    TextEventsGrow(snap, already, deltas, 0);
    assert deltas[..0] == [];
  }

  lemma TextEventsNext(snap: string, already: string, deltas: seq<string>, i: nat)
    requires i < |deltas|
    ensures var next := TextEvents(snap, already, deltas[..i + 1]);
            next == TextEvents(snap, already, deltas[..i]) + NonEmpty(deltas[i]) <= TextEvents(snap, already, deltas)
  {
    TextEventsGrow(snap, already, deltas, i + 1);
    assert deltas[..i + 1][..i] == deltas[..i];
  }

  lemma TextOfNonEmpty(a: seq<RunEvent>, text: string)
    ensures TextOf(a + NonEmpty(text)) == TextOf(a) + text
  {
    if text == [] {
      assert a + [] == a;
    } else {
      TextAppend(a, Text(text));
    }
  }

  /** No text is added, dropped or repeated. */
  lemma {:induction false} TextEventsText(snap: string, already: string, deltas: seq<string>)
    ensures TextOf(TextEvents(snap, already, deltas)) == TrimPrefix(snap, already) + Concat(deltas)
  {
    hide TextOf, Concat, NonEmpty, TrimPrefix;
    if deltas == [] {
      RestText(TrimPrefix(snap, already));
    } else {
      var init, last := deltas[..|deltas| - 1], deltas[|deltas| - 1];
      TextEventsText(snap, already, init);
      TextStep(TextEvents(snap, already, init), TrimPrefix(snap, already), init, last);
      assert deltas == init + [last];
    }
  }

  lemma TextStep(events: seq<RunEvent>, rest: string, init: seq<string>, last: string)
    requires TextOf(events) == rest + Concat(init)
    ensures TextOf(events + NonEmpty(last)) == rest + Concat(init + [last])
  {
    hide TextOf, Concat, NonEmpty;
    TextOfNonEmpty(events, last);
    ConcatLast(init, last);
    assert rest + Concat(init) + last == rest + (Concat(init) + last);
  }

  lemma RestText(rest: string)
    ensures TextOf(NonEmpty(rest)) == rest == rest + Concat([])
  {
    hide NonEmpty;
    TextOfNonEmpty([], rest);
    assert [] + NonEmpty(rest) == NonEmpty(rest);
  }

  /** The last event has the status; its error is empty only if the status is ok or empty and there was none. */
  predicate EndsWith(sent: seq<RunEvent>, b: Build) {
    && sent != []
    && var last := sent[|sent| - 1];
    && last.Done? && last.status == b.status
    && (b.error != "" ==> last.error == b.error)
    && (b.error == "" && (b.status == "" || b.status == "ok") ==> last.error == "")
    && (b.error == "" && b.status != "" && b.status != "ok" ==> last.error == b.status)
  }

  datatype FollowEnd = Finished | SendFailed | ContextDone | LoadFailed

  /**
   * followLive on a channel that yields the given deltas and is then closed; already is the text sent before.
   * alive tells whether the i-th select receives (and not the end of the context), and sends whether the k-th
   * event can be sent.
   */
  method FollowLive(snap: string, deltas: seq<string>, already: string, load: Option<Build>, alive: nat -> bool,
                    sends: nat -> bool)
    returns (sent: seq<RunEvent>, end: FollowEnd)
    ensures var all := TextEvents(snap, already, deltas) + (if load.Some? then [DoneOf(load.value)] else []);
            && sent <= all
            && (end.Finished?
                <==> && load.Some?
                     && (forall i :: 0 <= i <= |deltas| ==> alive(i))
                     && forall k :: 0 <= k < |all| ==> sends(k))
            && (end.Finished? ==> sent == all && EndsWith(sent, load.value))
            && (end.LoadFailed? ==> load.None? && sent == all)
  {
    hide TextEvents, TrimPrefix, DoneOf;
    ghost var texts := TextEvents(snap, already, deltas);
    sent := [];
    var rest := TrimPrefix(snap, already);
    TextEventsFirst(snap, already, deltas);
    if rest != [] {
      if !sends(0) {
        return sent, SendFailed;
      }
      sent := sent + [Text(rest)];
    }
    for i := 0 to |deltas|
      invariant sent == TextEvents(snap, already, deltas[..i]) <= texts
      invariant forall j :: 0 <= j < i ==> alive(j)
      invariant forall k :: 0 <= k < |sent| ==> sends(k)
    {
      if !alive(i) {
        return sent, ContextDone;
      }
      TextEventsNext(snap, already, deltas, i);
      if deltas[i] != [] {
        if !sends(|sent|) {
          return sent, SendFailed;
        }
        sent := sent + [Text(deltas[i])];
      }
    }
    assert deltas[..|deltas|] == deltas;
    if !alive(|deltas|) {
      return sent, ContextDone;
    }
    if load.None? {
      return sent, LoadFailed;
    }
    if !sends(|sent|) {
      return sent, SendFailed;
    }
    sent, end := sent + [DoneOf(load.value)], Finished;
    DoneEnds(sent, load.value);
  }

  /**
   * A client that had been sent `already` and then follows a subscription to its end has the whole log exactly
   * when `already` was a prefix of the snapshot.
   */
  lemma FollowerHasLogIff(events: seq<Event>, id: nat, already: string)
    requires AppendOnly(events) && id < |Run(events).chans|
    requires var ch := Run(events).chans[id]; !ch.lost && ch.phase.Closed? && ch.queue == []
    ensures var l := Run(events);
            var ch := l.chans[id];
            && ch.phase.upTo <= |Full(l.line)|
            && (already + TextOf(TextEvents(ch.snap, already, ch.received)) == Full(l.line)[..ch.phase.upTo]
              <==> already <= ch.snap)
  {
    Reassembly(events, id);
    var l := Run(events);
    var ch := l.chans[id];
    var got := Concat(ch.received);
    assert ch.received + ch.queue == ch.received;
    TextEventsText(ch.snap, already, ch.received);
    assert already + (TrimPrefix(ch.snap, already) + got) == already + TrimPrefix(ch.snap, already) + got;
    if already <= ch.snap {
      assert already + TrimPrefix(ch.snap, already) == ch.snap;
    } else {
      assert |already + TrimPrefix(ch.snap, already) + got| == |already| + |ch.snap + got|;
      assert |already| > 0;
    }
  }

  // ----- The object -----

  class LiveRun {
    var buf: string
    var cur: string
    var sent: nat
    var subs: seq<nat>
    var closed: bool
    /** The channels by number, with the record of their subscriptions. */
    var chans: seq<Chan>
    ghost var written: string

    ghost function St(): Live
      reads this
    {
      Live(Line(buf, cur), sent, subs, closed, chans, written)
    }

    ghost predicate Valid()
      reads this
    {
      Inv(St())
    }

    constructor ()
      ensures Valid() && St() == START
    {
      buf, cur, sent, subs, closed, chans, written := [], [], 0, [], false, [], [];
    }

    /** Sending on a closed channel panics, so it must be open. */
    method Send(id: nat, delta: string)
      requires id < |chans| && !chans[id].closed
      modifies this`chans
      ensures chans == old(chans)[id := Offer(old(chans)[id], delta)]
    {
      chans := chans[id := Offer(chans[id], delta)];
    }

    /** Closing a closed channel panics, so it must be open. */
    method Close(id: nat)
      requires id < |chans| && !chans[id].closed
      modifies this`chans
      ensures chans == old(chans)[id := old(chans)[id].(closed := true, phase := Closed(sent))]
    {
      chans := chans[id := chans[id].(closed := true, phase := Closed(sent))];
    }

    method Absorb(text: string)
      modifies this`buf, this`cur
      ensures Line(buf, cur) == LiveLine.Absorb(Line(old(buf), old(cur)), text)
    {
      var s := Normalize(text);
      for i := 0 to |s|
        invariant Feed(Line(buf, cur), s[i..]) == Feed(Line(old(buf), old(cur)), s)
      {
        assert s[i..][1..] == s[i + 1..];
        if s[i] == '\r' {
          cur := [];
        } else if s[i] == '\n' {
          buf := buf + cur + ['\n'];
          cur := [];
        } else {
          cur := cur + [s[i]];
        }
      }
    }

    method Write(p: string) returns (n: nat)
      requires Valid()
      modifies this
      ensures Valid() && n == |p|
      ensures St() == DoWrite(old(St()), p)
    {
      WriteKeepsInv(St(), p);
      ghost var l := St();
      SubsOpen(l);
      hide Inv, LiveLine.Absorb;
      Absorb(p);
      var full := buf + cur;
      if |full| > sent {
        var delta := full[sent..];
        sent := |full|;
        written := written + delta;
        for k := 0 to |subs|
          invariant Line(buf, cur) == LiveLine.Absorb(l.line, p) && sent == |full| && written == l.written + delta
          invariant subs == l.subs && closed == l.closed
          invariant chans == OfferAll(l.chans, subs[..k], delta)
        {
          assert subs[..k + 1] == subs[..k] + [subs[k]];
          assert subs[k] in subs && subs[k] !in subs[..k];
          Send(subs[k], delta);
        }
        assert subs[..|subs|] == subs;
      }
      n := |p|;
    }

    method Subscribe() returns (snap: string, id: nat)
      requires Valid()
      modifies this
      ensures Valid()
      ensures id == |old(chans)| && snap == buf + cur
      ensures St() == DoSubscribe(old(St()))
    {
      SubscribeKeepsInv(St());
      snap, id := buf + cur, |chans|;
      if closed {
        chans := chans + [Chan([], true, snap, sent, [], false, Closed(sent))];
        return;
      }
      chans := chans + [Chan([], false, snap, sent, [], false, Open)];
      subs := subs + [id];
    }

    method Cancel(id: nat)
      requires Valid()
      modifies this
      ensures Valid()
      ensures St() == DoCancel(old(St()), id)
    {
      CancelKeepsInv(St(), id);
      SubsOpen(St());
      ghost var subs0 := subs;
      for i := 0 to |subs|
        invariant subs == subs0 && unchanged(this)
        invariant id !in subs[..i]
      {
        assert subs[..i + 1] == subs[..i] + [subs[i]];
        if subs[i] == id {
          assert id in subs0;
          WithoutFirst(subs, id, i);
          subs := subs[..i] + subs[i + 1..];
          chans := chans[id := chans[id].(phase := Cancelled)];
          return;
        }
      }
      assert subs[..|subs|] == subs;
    }

    method Finish()
      requires Valid()
      modifies this
      ensures Valid()
      ensures St() == DoFinish(old(St()))
    {
      FinishKeepsInv(St());
      SubsOpen(St());
      ghost var l := St();
      hide Inv;
      if closed {
        return;
      }
      closed := true;
      for k := 0 to |subs|
        invariant closed && Line(buf, cur) == l.line && sent == l.sent && subs == l.subs && written == l.written
        invariant chans == CloseAll(l.chans, subs[..k], l.sent)
      {
        assert subs[..k + 1] == subs[..k] + [subs[k]];
        assert subs[k] in subs && subs[k] !in subs[..k];
        Close(subs[k]);
      }
      assert subs[..|subs|] == subs;
      subs := [];
    }
  }

  /** The channels in subs are open, each listed once: that is why no channel is closed twice or sent to after close. */
  lemma SubsOpen(l: Live)
    requires Inv(l)
    ensures Distinct(l.subs)
    ensures forall id :: id in l.subs ==> id < |l.chans| && !l.chans[id].closed
  {
    forall id | id in l.subs
      ensures id < |l.chans| && !l.chans[id].closed
    {
      assert ChanInv(l, id);
    }
  }

  lemma {:induction false} WithoutFirst(subs: seq<nat>, id: nat, i: nat)
    requires i < |subs| && subs[i] == id && id !in subs[..i]
    ensures Without(subs, id) == subs[..i] + subs[i + 1..]
  {
    if i > 0 {
      assert subs[0] in subs[..i];
      assert subs[1..][..i - 1] == subs[..i][1..];
      WithoutFirst(subs[1..], id, i - 1);
    }
  }
}
