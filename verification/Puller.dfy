/** The coalescing worker: Puller in projects/daily-news-hook/app.py. */
module Puller {
  import opened Wrappers

  /**
   * The two flags, how many threads are at each point (started but not yet in the loop, at the top of the loop,
   * inside run(), and after run() but before the lock), and a record of the run: a clock that ticks with every
   * step, how many triggers and runs there were, and when the last of each happened.
   */
  datatype State = State(
    running: bool,
    pending: bool,
    starting: nat,
    atTop: nat,
    inRun: nat,
    atCheck: nat,
    clock: nat,
    triggers: nat,
    runs: nat,
    lastTrigger: nat,
    lastRunStart: nat)

  function Idle(): State {
    State(false, false, 0, 0, 0, 0, 1, 0, 0, 0, 0)
  }

  /** The atomic steps. RunEnd is the return of run() or its exception, which the loop catches. */
  datatype Event = Trigger | ThreadStart | RunStart | RunEnd | Check

  /** One step of some thread, or None when no thread is at that point. */
  function Step(s: State, e: Event): Option<State> {
    var t := s.(clock := s.clock + 1);
    match e
    case Trigger =>
      var u := t.(triggers := s.triggers + 1, lastTrigger := s.clock);
      Some(if s.running then u.(pending := true) else u.(running := true, starting := s.starting + 1))
    case ThreadStart =>
      if s.starting == 0 then None else Some(t.(starting := s.starting - 1, atTop := s.atTop + 1))
    case RunStart =>
      if s.atTop == 0 then None
      else Some(t.(atTop := s.atTop - 1, inRun := s.inRun + 1, runs := s.runs + 1, lastRunStart := s.clock))
    case RunEnd =>
      if s.inRun == 0 then None else Some(t.(inRun := s.inRun - 1, atCheck := s.atCheck + 1))
    case Check =>
      if s.atCheck == 0 then None
      else if !s.pending then Some(t.(running := false, atCheck := s.atCheck - 1))
      else Some(t.(pending := false, atCheck := s.atCheck - 1, atTop := s.atTop + 1))
  }

  function Run(s: State, events: seq<Event>): Option<State>
    decreases |events|
  {
    if events == [] then Some(s)
    else
      match Step(s, events[0])
      case None => None
      case Some(s') => Run(s', events[1..])
  }

  /** The two lock sections, as methods of the object. */
  class PullerFlags {
    var running: bool
    var pending: bool

    constructor ()
      ensures !running && !pending
    {
      running, pending := false, false;
    }

    /** The lock section of trigger; the result says whether a thread must be started. */
    method TriggerLocked(ghost s: State) returns (start: bool)
      requires running == s.running && pending == s.pending
      modifies this
      ensures var s' := Step(s, Trigger).value;
              running == s'.running && pending == s'.pending && start == (s'.starting == s.starting + 1)
    {
      if running {
        pending := true;
        return false;
      }
      running := true;
      return true;
    }

    /** The lock section at the end of a turn of _loop; the result says whether the loop goes on. */
    method CheckLocked(ghost s: State) returns (again: bool)
      requires running == s.running && pending == s.pending && s.atCheck > 0
      modifies this
      ensures var s' := Step(s, Check).value;
              running == s'.running && pending == s'.pending && again == (s'.atTop == s.atTop + 1)
    {
      if !pending {
        running := false;
        return false;
      }
      pending := false;
      return true;
    }
  }

  // ----- Safety -----

  function Alive(s: State): nat {
    s.starting + s.atTop + s.inRun + s.atCheck
  }

  /** Runs that are certain to start: by threads on their way to run(), and for the pending flag. */
  function Owed(s: State): nat {
    s.starting + s.atTop + (if s.pending then 1 else 0)
  }

  predicate Inv(s: State) {
    && Alive(s) == (if s.running then 1 else 0)
    && (s.pending ==> s.running)
    && s.runs + Owed(s) <= s.triggers
    && s.lastTrigger < s.clock && s.lastRunStart < s.clock
    && (Owed(s) == 0 && s.triggers > 0 ==> s.lastRunStart > s.lastTrigger)
  }

  lemma {:induction false} RunKeepsInv(s: State, events: seq<Event>)
    requires Inv(s) && Run(s, events).Some?
    ensures Inv(Run(s, events).value)
    decreases |events|
  {
    if events != [] {
      RunKeepsInv(Step(s, events[0]).value, events[1..]);
    }
  }

  /**
   * In every interleaving of triggers and threads: at most one worker is alive and at most one run is in
   * progress; pending implies running; runs never outnumber triggers; and whenever the worker is idle, the last
   * run started after the last trigger.
   */
  lemma NoTriggerLost(events: seq<Event>)
    requires Run(Idle(), events).Some?
    ensures var s := Run(Idle(), events).value;
            && Alive(s) <= 1 && (s.running <==> Alive(s) == 1)
            && (s.pending ==> s.running)
            && s.runs <= s.triggers
            && (!s.running && s.triggers > 0 ==> s.runs > 0 && s.lastRunStart > s.lastTrigger)
  {
    hide Run, Inv, Alive, Owed, Idle;
    var s0 := Idle();
    IdleInv(s0);
    RunKeepsInv(s0, events);
    RunsCounted(s0, events);
    InvMeans(Run(s0, events).value);
  }

  lemma IdleInv(s: State)
    requires s == Idle()
    ensures Inv(s) && s.triggers == 0
  {
  }

  lemma InvMeans(s: State)
    requires Inv(s) && (s.triggers > 0 ==> s.runs + Owed(s) > 0)
    ensures Alive(s) <= 1 && (s.running <==> Alive(s) == 1)
    ensures s.pending ==> s.running
    ensures s.runs <= s.triggers
    ensures !s.running && s.triggers > 0 ==> s.runs > 0 && s.lastRunStart > s.lastTrigger
  {
  }

  /** Once there has been a trigger, a run has started or is owed. */
  lemma {:induction false} RunsCounted(s: State, events: seq<Event>)
    requires Run(s, events).Some? && (s.triggers > 0 ==> s.runs + Owed(s) > 0) && Inv(s)
    ensures var s' := Run(s, events).value; s'.triggers > 0 ==> s'.runs + Owed(s') > 0
    decreases |events|
  {
    if events != [] {
      RunsCounted(Step(s, events[0]).value, events[1..]);
    }
  }

  // ----- Coalescing: how many runs there will be -----

  function Triggers(events: seq<Event>): nat {
    if events == [] then 0 else (if events[0] == Trigger then 1 else 0) + Triggers(events[1..])
  }

  /** The record counts the triggers. */
  lemma {:induction false} TriggersCounted(s: State, events: seq<Event>)
    requires Run(s, events).Some?
    ensures Run(s, events).value.triggers == s.triggers + Triggers(events)
    decreases |events|
  {
    if events != [] {
      TriggersCounted(Step(s, events[0]).value, events[1..]);
    }
  }

  /** Only a trigger creates work, and only if nothing was pending: all triggers during one run add one run. */
  lemma WorkIsConserved(s: State, e: Event)
    requires Inv(s) && Step(s, e).Some?
    ensures var s' := Step(s, e).value;
            s'.runs + Owed(s') == s.runs + Owed(s) + (if e == Trigger && !s.pending then 1 else 0)
  {
  }

  /** When the triggers stop and the worker drains to idle, it has run exactly the runs that were owed. */
  lemma {:induction false} DrainRunsWhatIsOwed(s: State, events: seq<Event>)
    requires Inv(s) && Triggers(events) == 0 && Run(s, events).Some? && !Run(s, events).value.running
    ensures Run(s, events).value.runs == s.runs + Owed(s)
    decreases |events|
  {
    if events != [] {
      WorkIsConserved(s, events[0]);
      DrainRunsWhatIsOwed(Step(s, events[0]).value, events[1..]);
    }
  }

  /** However many triggers arrive while run() is executing, exactly one more run follows. */
  lemma {:induction false} BurstAddsOneRun(s: State, burst: seq<Event>, drain: seq<Event>)
    requires Inv(s) && s.inRun == 1 && !s.pending
    requires burst != [] && (forall e :: e in burst ==> e == Trigger)
    requires Run(s, burst).Some? && Triggers(drain) == 0
    requires Run(Run(s, burst).value, drain).Some? && !Run(Run(s, burst).value, drain).value.running
    ensures Run(Run(s, burst).value, drain).value.runs == s.runs + 1
  {
    BurstPends(s, burst);
    RunKeepsInv(s, burst);
    DrainRunsWhatIsOwed(Run(s, burst).value, drain);
  }

  lemma {:induction false} BurstPends(s: State, burst: seq<Event>)
    requires Inv(s) && s.inRun == 1 && Run(s, burst).Some? && forall e :: e in burst ==> e == Trigger
    ensures var s' := Run(s, burst).value;
            s'.runs == s.runs && s'.inRun == 1 && s'.starting == s.starting && s'.atTop == s.atTop
            && s'.pending == (s.pending || burst != [])
    decreases |burst|
  {
    if burst != [] {
      assert burst[0] in burst && forall e :: e in burst[1..] ==> e in burst;
      BurstPends(Step(s, burst[0]).value, burst[1..]);
    }
  }

  // ----- Termination once the triggers stop -----

  function Measure(s: State): nat {
    4 * s.starting + 3 * s.atTop + 2 * s.inRun + s.atCheck + (if s.pending then 3 else 0)
  }

  /** Without triggers every step uses up some of the measure, and a worker that runs can always take a step. */
  lemma Progress(s: State)
    requires Inv(s)
    ensures forall e :: e != Trigger && Step(s, e).Some? ==> Measure(Step(s, e).value) < Measure(s)
    ensures s.running <==> exists e :: e != Trigger && Step(s, e).Some?
    ensures Measure(s) <= 7
  {
    if s.running {
      var e := if s.starting > 0 then ThreadStart else if s.atTop > 0 then RunStart else if s.inRun > 0 then RunEnd
        else Check;
      assert Step(s, e).Some?;
    }
  }

  /** And there is such a schedule: from every state the worker can be left to finish, and then is idle. */
  lemma {:induction false} CanFinish(s: State) returns (events: seq<Event>)
    requires Inv(s)
    ensures Triggers(events) == 0 && Run(s, events).Some? && !Run(s, events).value.running
    ensures Run(s, events).value.runs == s.runs + Owed(s)
    decreases Measure(s)
  {
    Progress(s);
    if s.running {
      var e :| e != Trigger && Step(s, e).Some?;
      var next := Step(s, e).value;
      WorkIsConserved(s, e);
      OneStep(s, e);
      var later := CanFinish(next);
      events := [e] + later;
      assert events[1..] == later;
    } else {
      events := [];
    }
  }

  lemma OneStep(s: State, e: Event)
    requires Inv(s) && Step(s, e).Some?
    ensures Inv(Step(s, e).value)
  {
  }

  /** So no schedule without triggers is longer than the measure, and one that cannot go on has reached idle. */
  lemma {:induction false} ReachesIdle(s: State, events: seq<Event>)
    requires Inv(s) && Triggers(events) == 0 && Run(s, events).Some?
    ensures |events| + Measure(Run(s, events).value) <= Measure(s)
    ensures (forall e :: e != Trigger ==> Step(Run(s, events).value, e).None?) ==> !Run(s, events).value.running
    decreases |events|
  {
    Progress(s);
    if events != [] {
      ReachesIdle(Step(s, events[0]).value, events[1..]);
    }
  }
}
