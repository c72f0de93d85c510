/** Calls over one connection: Call in runtime/client.go and serve in runtime/server.go. */
module Session {
  import opened Wrappers
  import opened Bytes
  import opened Frame

  datatype Request = Request(method_: bytes, hdr: bytes, body: bytes)

  /** A handler may keep state, so its answer may depend on how many requests came before. */
  type Handler = (nat, bytes, bytes) -> Result<bytes, bytes>

  type Middleware = Handler -> Handler

  /** What a server has been given: the handlers by name, and the middleware around every one of them. */
  datatype Handlers = Handlers(byName: map<bytes, Handler>, middleware: seq<Middleware>)

  /** What Call returns. */
  datatype Outcome =
    | Reply(body: bytes)
    | Failure(text: bytes)
    | SeqMismatch
    | BadType(typ: byte)
    | ReadError(error: FrameError)
    | TimedOut
    | NotSent

  /** The bytes of ASCII text. */
  function Ascii(text: string): bytes {
    seq(|text|, i requires 0 <= i < |text| => if text[i] < '\U{80}' then text[i] as int else 0)
  }

  const NOT_A_CALL: bytes := [110, 111, 116, 32, 97, 32, 99, 97, 108, 108]
  const UNKNOWN_METHOD: bytes := [117, 110, 107, 110, 111, 119, 110, 32, 109, 101, 116, 104, 111, 100, 32]

  /** The first middleware is the outermost. */
  function Chain(middleware: seq<Middleware>, h: Handler): Handler {
    if middleware == [] then h else middleware[0](Chain(middleware[1..], h))
  }

  function Unknown(method_: bytes): Handler {
    (n: nat, hdr: bytes, body: bytes) => Err(UNKNOWN_METHOD + method_)
  }

  /** The answer to the n-th request of the connection: the handler's, or an error for a name nobody handles. */
  function Answer(handlers: Handlers, n: nat, req: Request): Result<bytes, bytes> {
    var h := if req.method_ in handlers.byName then handlers.byName[req.method_] else Unknown(req.method_);
    Chain(handlers.middleware, h)(n, req.hdr, req.body)
  }

  /** Middleware like the tracing, metrics and logging that every server starts with: it passes calls through. */
  ghost predicate Transparent(mw: Middleware) {
    forall h: Handler, n: nat, hdr: bytes, body: bytes :: mw(h)(n, hdr, body) == h(n, hdr, body)
  }

  /** Middleware that does nothing, and any that only looks on, passes calls through. */
  lemma IdentityTransparent()
    ensures Transparent((h: Handler) => h)
    ensures Transparent((h: Handler) => (n: nat, hdr: bytes, body: bytes) => h(n, hdr, body))
  {
  }

  lemma {:induction false} ChainTransparent(middleware: seq<Middleware>, h: Handler, n: nat, hdr: bytes, body: bytes)
    requires forall mw :: mw in middleware ==> Transparent(mw)
    ensures Chain(middleware, h)(n, hdr, body) == h(n, hdr, body)
  {
    if middleware != [] {
      assert middleware[0] in middleware;
      assert forall mw :: mw in middleware[1..] ==> mw in middleware;
      ChainTransparent(middleware[1..], h, n, hdr, body);
    }
  }

  /** The one frame the server writes for a frame it has read. */
  function ReplyFrame(handlers: Handlers, n: nat, msg: Message): Message {
    if msg.typ != MSG_CALL then Message(MSG_EXCEPTION, msg.sequence, msg.method_, [], NOT_A_CALL)
    else
      match Answer(handlers, n, Request(msg.method_, msg.hdr, msg.body))
      case Ok(body) => Message(MSG_REPLY, msg.sequence, msg.method_, [], body)
      case Err(text) => Message(MSG_EXCEPTION, msg.sequence, msg.method_, [], text)
  }

  /** The checks of Call on the frame that it reads. */
  function Check(sequence: uint32, msg: Message): Outcome {
    if msg.sequence != sequence then SeqMismatch
    else if msg.typ == MSG_EXCEPTION then Failure(msg.body)
    else if msg.typ != MSG_REPLY then BadType(msg.typ)
    else Reply(msg.body)
  }

  function Next(sequence: uint32): uint32 {
    (sequence + 1) % 0x1_0000_0000
  }

  // ----- The two ends -----

  class Client {
    var sequence: uint32
    const out: Stream
    const in_: Stream

    constructor (out: Stream, in_: Stream)
      ensures sequence == 0 && this.out == out && this.in_ == in_
    {
      sequence := 0;
      this.out := out;
      this.in_ := in_;
    }

    /** The first half of Call: take the next number and write the request; a write that fails has written nothing. */
    method Send(req: Request, writes: bool) returns (mine: uint32, sent: bool)
      modifies this, out
      ensures mine == sequence == Next(old(sequence)) && sent == writes
      ensures out.data == old(out.data)
          + (if writes then FrameBytes(Message(MSG_CALL, mine, req.method_, req.hdr, req.body)) else [])
    {
      sequence := Next(sequence);
      mine := sequence;
      if !writes {
        return mine, false;
      }
      WriteFrame(out, Message(MSG_CALL, mine, req.method_, req.hdr, req.body));
      sent := true;
    }

    /** The second half of Call: read one frame and check it, unless the deadline passes before a byte has arrived. */
    method Receive(mine: uint32, inTime: bool) returns (r: Outcome)
      modifies in_
      ensures in_.data == if inTime then TakeFrame(old(in_.data)).rest else old(in_.data)
      ensures inTime ==>
                r == match TakeFrame(old(in_.data)).out { case Ok(msg) => Check(mine, msg) case Err(e) => ReadError(e) }
      ensures !inTime ==> r == TimedOut
    {
      if !inTime {
        return TimedOut;
      }
      var msg := ReadMsg(in_);
      if msg.Err? {
        return ReadError(msg.error);
      }
      if msg.value.sequence != mine {
        return SeqMismatch;
      }
      if msg.value.typ == MSG_EXCEPTION {
        return Failure(msg.value.body);
      }
      if msg.value.typ != MSG_REPLY {
        return BadType(msg.value.typ);
      }
      r := Reply(msg.value.body);
    }
  }

  class Server {
    var handlers: map<bytes, Handler>
    var mws: seq<Middleware>

    ghost function Given(): Handlers
      reads this
    {
      Handlers(handlers, mws)
    }

    /** A server starts with its own middleware for tracing, metrics and logging. */
    constructor (standard: seq<Middleware>)
      ensures Given() == Handlers(map[], standard)
    {
      handlers, mws := map[], standard;
    }

    method Use(mw: seq<Middleware>)
      modifies this
      ensures Given() == old(Given()).(middleware := old(mws) + mw)
    {
      mws := mws + mw;
    }

    method Handle(name: bytes, h: Handler)
      modifies this
      ensures Given() == old(Given()).(byName := old(handlers)[name := h])
    {
      handlers := handlers[name := h];
    }

    method Wrap(inner: Handler) returns (h: Handler)
      ensures h == Chain(mws, inner)
    {
      h := inner;
      assert mws[|mws|..] == [];
      for i := |mws| downto 0
        invariant h == Chain(mws[i..], inner)
      {
        assert mws[i..][1..] == mws[i + 1..];
        h := mws[i](h);
      }
      assert mws[0..] == mws;
    }

    /**
     * One turn of the loop of serve; n counts the turns. False when the connection is given up. A write that
     * fails has written nothing, and the loop goes on.
     */
    method ServeOne(in_: Stream, out: Stream, n: nat, writes: bool) returns (again: bool)
      requires in_ != out
      modifies in_, out
      ensures in_.data == TakeFrame(old(in_.data)).rest
      ensures again == TakeFrame(old(in_.data)).out.Ok?
      ensures out.data == match TakeFrame(old(in_.data)).out {
                case Ok(msg) => old(out.data) + (if writes then FrameBytes(ReplyFrame(Given(), n, msg)) else [])
                case Err(_) => old(out.data)
              }
    {
      hide TakeFrame, FrameBytes;
      var read := ReadMsg(in_);
      if read.Err? {
        return false;
      }
      var msg := read.value;
      var reply;
      if msg.typ != MSG_CALL {
        reply := Message(MSG_EXCEPTION, msg.sequence, msg.method_, [], NOT_A_CALL);
      } else {
        var inner := if msg.method_ in handlers then handlers[msg.method_] else Unknown(msg.method_);
        var h := Wrap(inner);
        match h(n, msg.hdr, msg.body) {
          case Err(text) => reply := Message(MSG_EXCEPTION, msg.sequence, msg.method_, [], text);
          case Ok(b) => reply := Message(MSG_REPLY, msg.sequence, msg.method_, [], b);
        }
      }
      assert reply == ReplyFrame(Given(), n, msg);
      if writes {
        WriteFrame(out, reply);
      }
      again := true;
    }
  }

  /** A whole call on a connection with nothing in flight, the server taking its turn in between. */
  method CallOnce(client: Client, server: Server, n: nat, req: Request) returns (r: Outcome)
    requires client.out != client.in_ && client.out.data == client.in_.data == []
    requires var frame := Message(MSG_CALL, Next(client.sequence), req.method_, req.hdr, req.body);
             Fits(frame) && Fits(ReplyFrame(server.Given(), n, frame))
    modifies client, client.out, client.in_
    ensures r == Own(server.Given(), n, req)
    ensures client.sequence == Next(old(client.sequence)) && client.out.data == client.in_.data == []
  {
    hide FrameBytes, TakeFrame, Fits, Answer;
    ghost var frame := Message(MSG_CALL, Next(client.sequence), req.method_, req.hdr, req.body);
    ghost var reply := ReplyFrame(server.Given(), n, frame);
    RoundTrip(frame, []);
    RoundTrip(reply, []);
    assert FrameBytes(frame) + [] == [] + FrameBytes(frame) == FrameBytes(frame);
    assert FrameBytes(reply) + [] == [] + FrameBytes(reply) == FrameBytes(reply);
    var mine, sent := client.Send(req, true);
    var again := server.ServeOne(client.out, client.in_, n, true);
    r := client.Receive(mine, true);
  }

  // ----- All runs of one client and one server over one connection -----

  /** A request on the wire, and how many calls had been begun with it; its sequence number is that, modulo 2^32. */
  datatype Sent = Sent(number: nat, req: Request)

  /**
   * A call that returned after reading a frame: the position of its request among those sent, how many calls had
   * timed out before it, and the outcome.
   */
  datatype Completed = Completed(call: nat, timeoutsBefore: nat, outcome: Outcome)

  /**
   * The bytes in flight each way and the client's counter. The other fields record the run: how many calls were
   * begun, the requests sent, how many the server has answered, how many frames the client has read, and what its
   * calls returned.
   */
  datatype Conn = Conn(
    c2s: bytes,
    s2c: bytes,
    sequence: uint32,
    waiting: bool,
    calls: nat,
    requests: seq<Sent>,
    served: nat,
    received: nat,
    timeouts: nat,
    completed: seq<Completed>)

  datatype Event = Send(req: Request) | SendFails | Serve | Receive | TimeOut

  const FRESH := Conn([], [], 0, false, 0, [], 0, 0, 0, [])

  function CallFrame(s: Sent): Message {
    Message(MSG_CALL, s.number % 0x1_0000_0000, s.req.method_, s.req.hdr, s.req.body)
  }

  /**
   * One step, or None when the event cannot happen: Call holds a lock, so one call is in progress at a time;
   * frames are within their limits; a write that fails has written nothing; and a call that times out has read
   * nothing of its reply.
   */
  function Step(handlers: Handlers, c: Conn, e: Event): Option<Conn> {
    match e
    case Send(req) =>
      var frame := Message(MSG_CALL, Next(c.sequence), req.method_, req.hdr, req.body);
      if c.waiting || !Fits(frame) then None
      else Some(c.(sequence := Next(c.sequence), c2s := c.c2s + FrameBytes(frame), waiting := true,
                   calls := c.calls + 1, requests := c.requests + [Sent(c.calls + 1, req)]))
    case SendFails =>
      if c.waiting then None else Some(c.(sequence := Next(c.sequence), calls := c.calls + 1))
    case Serve =>
      (match TakeFrame(c.c2s).out
       case Err(_) => None
       case Ok(msg) =>
         var reply := ReplyFrame(handlers, c.served, msg);
         if !Fits(reply) then None
         else Some(c.(c2s := TakeFrame(c.c2s).rest, s2c := c.s2c + FrameBytes(reply), served := c.served + 1)))
    case Receive =>
      if !c.waiting || c.requests == [] then None
      else
        (match TakeFrame(c.s2c).out
         case Err(_) => None
         case Ok(msg) =>
           Some(c.(s2c := TakeFrame(c.s2c).rest, waiting := false, received := c.received + 1,
                   completed := c.completed + [Completed(|c.requests| - 1, c.timeouts, Check(c.sequence, msg))])))
    case TimeOut =>
      if !c.waiting then None else Some(c.(waiting := false, timeouts := c.timeouts + 1))
  }

  function Run(handlers: Handlers, c: Conn, events: seq<Event>): Option<Conn>
    decreases |events|
  {
    if events == [] then Some(c)
    else
      match Step(handlers, c, events[0])
      case None => None
      case Some(c') => Run(handlers, c', events[1..])
  }

  /** The request frames from position lo on. */
  function CallFrames(requests: seq<Sent>, lo: nat): seq<Message>
    requires lo <= |requests|
  {
    seq(|requests| - lo, i requires 0 <= i < |requests| - lo => CallFrame(requests[lo + i]))
  }

  /** The reply frames to requests lo up to hi. */
  function ReplyFrames(handlers: Handlers, requests: seq<Sent>, lo: nat, hi: nat): seq<Message>
    requires lo <= hi <= |requests|
  {
    seq(hi - lo, i requires 0 <= i < hi - lo => ReplyFrame(handlers, lo + i, CallFrame(requests[lo + i])))
  }

  /** What a call gets when it is its own reply that it reads. */
  function Own(handlers: Handlers, n: nat, req: Request): Outcome {
    match Answer(handlers, n, req)
    case Ok(body) => Reply(body)
    case Err(text) => Failure(text)
  }

  /** How many calls were begun from the request whose answer a call reads to the call itself. */
  function Lag(requests: seq<Sent>, call: nat, timeoutsBefore: nat): int
    requires timeoutsBefore <= call < |requests|
  {
    requests[call].number - requests[call - timeoutsBefore].number
  }

  /** The frame that a call reads answers the request sent as many requests earlier as calls had timed out. */
  function Expected(handlers: Handlers, requests: seq<Sent>, call: nat, timeoutsBefore: nat): Outcome
    requires timeoutsBefore <= call < |requests|
  {
    if Lag(requests, call, timeoutsBefore) % 0x1_0000_0000 == 0
    then Own(handlers, call - timeoutsBefore, requests[call - timeoutsBefore].req)
    else SeqMismatch
  }

  /** Requests are numbered in the order they are sent, the one waited for with the number of calls begun. */
  ghost predicate Counted(c: Conn) {
    && c.sequence == c.calls % 0x1_0000_0000
    && (forall i, j :: 0 <= i < j < |c.requests| ==> c.requests[i].number < c.requests[j].number)
    && (forall i :: 0 <= i < |c.requests| ==> c.requests[i].number <= c.calls)
    && (c.waiting ==> c.requests != [] && c.requests[|c.requests| - 1].number == c.calls)
  }

  ghost predicate Inv(handlers: Handlers, c: Conn) {
    && c.received <= c.served <= |c.requests|
    && |c.requests| == c.received + c.timeouts + (if c.waiting then 1 else 0)
    && Counted(c)
    && c.c2s == StreamBytes(CallFrames(c.requests, c.served))
    && c.s2c == StreamBytes(ReplyFrames(handlers, c.requests, c.received, c.served))
    && (forall m :: m in CallFrames(c.requests, c.served) ==> Fits(m))
    && (forall m :: m in ReplyFrames(handlers, c.requests, c.received, c.served) ==> Fits(m))
    && Explained(handlers, c)
  }

  ghost predicate Explained(handlers: Handlers, c: Conn) {
    forall r :: r in c.completed ==>
      r.timeoutsBefore <= r.call < |c.requests| && r.outcome == Expected(handlers, c.requests, r.call, r.timeoutsBefore)
  }

  lemma SameNumber(a: nat, b: nat)
    ensures a % 0x1_0000_0000 == b % 0x1_0000_0000 <==> (a - b) % 0x1_0000_0000 == 0
  {
  }

  /** The sequence check on the answer to an earlier request passes exactly when the lag is a multiple of 2^32. */
  lemma CheckReply(handlers: Handlers, number: nat, n: nat, s: Sent)
    ensures Check(number % 0x1_0000_0000, ReplyFrame(handlers, n, CallFrame(s)))
         == if (number - s.number) % 0x1_0000_0000 == 0 then Own(handlers, n, s.req) else SeqMismatch
  {
    hide Answer;
    SameNumber(number, s.number);
  }

  lemma TakeFirst(ms: seq<Message>)
    requires ms != [] && Fits(ms[0])
    ensures TakeFrame(StreamBytes(ms)) == Taken(Ok(ms[0]), StreamBytes(ms[1..]))
  {
    RoundTrip(ms[0], StreamBytes(ms[1..]));
  }

  lemma TakeNone()
    ensures TakeFrame([]).out.Err?
  {
  }

  lemma AppendFrame(ms: seq<Message>, m: Message)
    ensures StreamBytes(ms + [m]) == StreamBytes(ms) + FrameBytes(m)
  {
    StreamAppend(ms, [m]);
    assert [m][1..] == [];
    assert StreamBytes([m]) == FrameBytes(m) + StreamBytes([]);
  }

  lemma SendKeepsInv(handlers: Handlers, c: Conn, req: Request)
    ensures Inv(handlers, c) && Step(handlers, c, Send(req)).Some? ==> Inv(handlers, Step(handlers, c, Send(req)).value)
  {
    hide FrameBytes, Fits, Expected, ReplyFrame;
    if Inv(handlers, c) && Step(handlers, c, Send(req)).Some? {
      var c' := Step(handlers, c, Send(req)).value;
      var frame := CallFrame(Sent(c.calls + 1, req));
      assert Next(c.sequence) == (c.calls + 1) % 0x1_0000_0000;
      assert CallFrames(c'.requests, c.served) == CallFrames(c.requests, c.served) + [frame];
      AppendFrame(CallFrames(c.requests, c.served), frame);
      assert ReplyFrames(handlers, c'.requests, c.received, c.served)
        == ReplyFrames(handlers, c.requests, c.received, c.served);
      SendExplained(handlers, c, c');
      SendCounted(c, c', req);
    }
  }

  lemma SendCounted(c: Conn, c': Conn, req: Request)
    requires Counted(c) && c'.calls == c.calls + 1 && c'.sequence == Next(c.sequence)
    requires c'.requests == c.requests + [Sent(c.calls + 1, req)]
    ensures Counted(c')
  {
    forall i, j | 0 <= i < j < |c'.requests|
      ensures c'.requests[i].number < c'.requests[j].number
    {
    }
  }

  lemma SendFailsKeepsInv(handlers: Handlers, c: Conn)
    requires Inv(handlers, c) && Step(handlers, c, SendFails).Some?
    ensures Inv(handlers, Step(handlers, c, SendFails).value)
  {
    hide FrameBytes, Fits, Expected, ReplyFrame, StreamBytes, CallFrames, ReplyFrames;
    assert Next(c.sequence) == (c.calls + 1) % 0x1_0000_0000;
  }

  lemma SendExplained(handlers: Handlers, c: Conn, c': Conn)
    requires Explained(handlers, c) && c'.completed == c.completed && c.requests <= c'.requests
    ensures Explained(handlers, c')
  {
  }

  lemma ServeKeepsInv(handlers: Handlers, c: Conn)
    requires Inv(handlers, c) && Step(handlers, c, Serve).Some?
    ensures Inv(handlers, Step(handlers, c, Serve).value)
  {
    hide FrameBytes, Fits, Expected, TakeFrame, ReplyFrame, Explained, StreamBytes, CallFrame;
    var c' := Step(handlers, c, Serve).value;
    var calls := CallFrames(c.requests, c.served);
    ServeTakes(handlers, c);
    assert calls[1..] == CallFrames(c.requests, c.served + 1);
    var reply := ReplyFrame(handlers, c.served, calls[0]);
    var replies := ReplyFrames(handlers, c.requests, c.received, c.served);
    assert ReplyFrames(handlers, c.requests, c.received, c.served + 1) == replies + [reply];
    AppendFrame(replies, reply);
    SendExplained(handlers, c, c');
  }

  /** What the server reads is the oldest request it has not answered. */
  lemma ServeTakes(handlers: Handlers, c: Conn)
    requires Inv(handlers, c) && TakeFrame(c.c2s).out.Ok?
    ensures c.served < |c.requests|
    ensures var calls := CallFrames(c.requests, c.served);
            TakeFrame(c.c2s) == Taken(Ok(calls[0]), StreamBytes(calls[1..]))
  {
    hide FrameBytes, Fits, TakeFrame, ReplyFrame, Explained, ReplyFrames;
    TakeNone();
    assert CallFrames(c.requests, c.served) != [];
    TakeFirst(CallFrames(c.requests, c.served));
  }

  /** What the client reads is the answer to the oldest request whose answer it has not read. */
  lemma ReceiveTakes(handlers: Handlers, c: Conn)
    requires Inv(handlers, c) && TakeFrame(c.s2c).out.Ok?
    ensures c.received < c.served
    ensures TakeFrame(c.s2c) == Taken(Ok(ReplyFrame(handlers, c.received, CallFrame(c.requests[c.received]))),
                                      StreamBytes(ReplyFrames(handlers, c.requests, c.received + 1, c.served)))
  {
    hide FrameBytes, Fits, TakeFrame, ReplyFrame, CallFrame, Explained, CallFrames, Counted;
    var replies := ReplyFrames(handlers, c.requests, c.received, c.served);
    TakeNone();
    assert replies != [];
    TakeFirst(replies);
    assert replies[1..] == ReplyFrames(handlers, c.requests, c.received + 1, c.served);
  }

  lemma ReceiveKeepsInv(handlers: Handlers, c: Conn)
    requires Inv(handlers, c) && Step(handlers, c, Receive).Some?
    ensures Inv(handlers, Step(handlers, c, Receive).value)
  {
    hide FrameBytes, Fits, TakeFrame, ReplyFrame, Check, Own, CallFrame, StreamBytes, CallFrames, Explained;
    var c' := Step(handlers, c, Receive).value;
    ReceiveTakes(handlers, c);
    assert ReplyFrames(handlers, c.requests, c.received + 1, c.served)
        == ReplyFrames(handlers, c.requests, c.received, c.served)[1..];
    ReceiveExplained(handlers, c, c');
  }

  lemma ReceiveExplained(handlers: Handlers, c: Conn, c': Conn)
    requires Inv(handlers, c) && c.waiting && c'.requests == c.requests
    ensures TakeFrame(c.s2c).out.Ok? && c'.completed == c.completed + [Now(c, TakeFrame(c.s2c).out.value)]
        ==> Explained(handlers, c')
  {
    hide FrameBytes, Fits, TakeFrame, ReplyFrame, Check, Own, CallFrame, StreamBytes, CallFrames, ReplyFrames;
    if TakeFrame(c.s2c).out.Ok? {
      ReceiveTakes(handlers, c);
      CheckReply(handlers, c.calls, c.received, c.requests[c.received]);
    }
  }

  /** How the call in progress completes on a frame. */
  function Now(c: Conn, msg: Message): Completed
    requires c.requests != []
  {
    Completed(|c.requests| - 1, c.timeouts, Check(c.sequence, msg))
  }

  lemma StepKeepsInv(handlers: Handlers, c: Conn, e: Event)
    requires Inv(handlers, c) && Step(handlers, c, e).Some?
    ensures Inv(handlers, Step(handlers, c, e).value)
  {
    match e
    case Send(req) => SendKeepsInv(handlers, c, req);
    case SendFails => SendFailsKeepsInv(handlers, c);
    case Serve => ServeKeepsInv(handlers, c);
    case Receive => ReceiveKeepsInv(handlers, c);
    case TimeOut =>
  }

  lemma {:induction false} RunKeepsInv(handlers: Handlers, c: Conn, events: seq<Event>)
    requires Inv(handlers, c) && Run(handlers, c, events).Some?
    ensures Inv(handlers, Run(handlers, c, events).value)
    decreases |events|
  {
    if events != [] {
      hide Step, Inv;
      StepKeepsInv(handlers, c, events[0]);
      RunKeepsInv(handlers, Step(handlers, c, events[0]).value, events[1..]);
    }
  }

  /**
   * Session safety, over every run of a connection. A call with no earlier timeout gets its own handler's answer.
   * After timeouts a call reads the answer to an earlier request, and fails with a sequence mismatch as long as
   * fewer than 2^32 calls were begun from that request on: it never returns the body of another request.
   */
  lemma SessionSafety(handlers: Handlers, events: seq<Event>, r: Completed)
    requires Run(handlers, FRESH, events).Some? && r in Run(handlers, FRESH, events).value.completed
    ensures var requests := Run(handlers, FRESH, events).value.requests;
            && r.timeoutsBefore <= r.call < |requests|
            && (r.timeoutsBefore == 0 ==> r.outcome == Own(handlers, r.call, requests[r.call].req))
            && (r.timeoutsBefore > 0 && Lag(requests, r.call, r.timeoutsBefore) < 0x1_0000_0000 ==>
              r.outcome == SeqMismatch)
    ensures 0 < r.timeoutsBefore && Run(handlers, FRESH, events).value.calls < 0x1_0000_0000 ==>
        r.outcome == SeqMismatch
  {
    FreshInv(handlers);
    RunKeepsInv(handlers, FRESH, events);
    var c := Run(handlers, FRESH, events).value;
    hide Own;
    if r.timeoutsBefore > 0 {
      assert c.requests[r.call - r.timeoutsBefore].number < c.requests[r.call].number;
    }
  }

  lemma FreshInv(handlers: Handlers)
    ensures Inv(handlers, FRESH)
  {
  }

  lemma {:induction false} RunAppend(handlers: Handlers, c: Conn, a: seq<Event>, e: Event)
    requires Run(handlers, c, a).Some? && Step(handlers, Run(handlers, c, a).value, e).Some?
    ensures Run(handlers, c, a + [e]) == Step(handlers, Run(handlers, c, a).value, e)
    decreases |a|
  {
    hide Step;
    if a == [] {
      assert [e][1..] == [];
      assert a + [e] == [e];
    } else {
      assert (a + [e])[1..] == a[1..] + [e];
      RunAppend(handlers, Step(handlers, c, a[0]).value, a[1..], e);
    }
  }

  /** Any number of calls can time out in a row while the server is silent. */
  lemma {:induction false} TimeoutsReachable(handlers: Handlers, req: Request, n: nat) returns (events: seq<Event>)
    requires Fits(CallFrame(Sent(0, req)))
    ensures Run(handlers, FRESH, events).Some?
    ensures var c := Run(handlers, FRESH, events).value;
            c.timeouts == c.calls == |c.requests| == n && !c.waiting && c.served == 0 && OnlyFrom(c.requests, req)
  {
    hide Run;
    if n == 0 {
      events := [];
      RunNothing(handlers, FRESH);
    } else {
      var before := TimeoutsReachable(handlers, req, n - 1);
      var c := Run(handlers, FRESH, before).value;
      RunAppend(handlers, FRESH, before, Send(req));
      var sent := Run(handlers, FRESH, before + [Send(req)]).value;
      RunAppend(handlers, FRESH, before + [Send(req)], TimeOut);
      events := before + [Send(req)] + [TimeOut];
    }
  }

  /** All requests are this one, the i-th sent by the i-th call. */
  predicate OnlyFrom(requests: seq<Sent>, req: Request) {
    forall i :: 0 <= i < |requests| ==> requests[i] == Sent(i + 1, req)
  }

  lemma RunNothing(handlers: Handlers, c: Conn)
    ensures Run(handlers, c, []) == Some(c)
  {
  }

  /**
   * The bound is exact: after 2^32 calls of one request that time out, a call of any other request can return
   * the answer to the very first one as its own.
   */
  lemma ForeignReplyReachable(handlers: Handlers, req: Request, other: Request)
    returns (events: seq<Event>, r: Completed)
    requires Fits(CallFrame(Sent(0, req))) && Fits(CallFrame(Sent(0, other)))
    requires Fits(ReplyFrame(handlers, 0, CallFrame(Sent(1, req))))
    ensures Run(handlers, FRESH, events).Some?
    ensures var c := Run(handlers, FRESH, events).value;
            && r in c.completed && r.call == 0x1_0000_0000 < |c.requests|
            && c.requests[r.call].req == other && c.requests[0].req == req
            && r.outcome == Own(handlers, 0, req) != SeqMismatch
  {
    hide Run, Inv, Step, Fits, ReplyFrame, CallFrame, Own;
    var silent := TimeoutsReachable(handlers, req, 0x1_0000_0000);
    var c0 := Run(handlers, FRESH, silent).value;
    FreshInv(handlers);
    RunKeepsInv(handlers, FRESH, silent);
    LateAnswer(handlers, c0, req, other);
    RunAppend(handlers, FRESH, silent, Send(other));
    RunAppend(handlers, FRESH, silent + [Send(other)], Serve);
    RunAppend(handlers, FRESH, silent + [Send(other)] + [Serve], Receive);
    events := silent + [Send(other)] + [Serve] + [Receive];
    var c3 := Run(handlers, FRESH, events).value;
    r := c3.completed[|c3.completed| - 1];
  }

  /** The last three steps: a call is sent, the server answers the oldest request, and the call reads that answer. */
  lemma LateAnswer(handlers: Handlers, c0: Conn, req: Request, other: Request)
    requires Inv(handlers, c0) && !c0.waiting && c0.served == 0 && OnlyFrom(c0.requests, req)
    requires c0.timeouts == c0.calls == |c0.requests| == 0x1_0000_0000
    requires Fits(CallFrame(Sent(0, other))) && Fits(ReplyFrame(handlers, 0, CallFrame(Sent(1, req))))
    ensures var s1 := Step(handlers, c0, Send(other));
            && s1.Some?
            && var s2 := Step(handlers, s1.value, Serve);
            && s2.Some?
            && var s3 := Step(handlers, s2.value, Receive);
            && s3.Some?
            && var c := s3.value;
            && |c.completed| > 0 && |c.requests| == 0x1_0000_0001
            && c.requests[0x1_0000_0000].req == other && c.requests[0].req == req
            && var r := c.completed[|c.completed| - 1];
            && r.call == 0x1_0000_0000 && r.outcome == Own(handlers, 0, req) != SeqMismatch
  {
    hide FrameBytes, TakeFrame, Own, Check, ReplyFrame, Explained, Counted;
    var c1 := SendsAnyway(handlers, c0, other);
    assert c1.requests[0] == c0.requests[0] == Sent(1, req);
    var c2 := ServesFirst(handlers, c1);
    ReceivesFirst(handlers, c2);
    CheckReply(handlers, 0x1_0000_0001, 0, Sent(1, req));
    OwnIsNoMismatch(handlers, req);
  }

  lemma SendsAnyway(handlers: Handlers, c: Conn, req: Request) returns (c': Conn)
    requires Inv(handlers, c) && !c.waiting && Fits(CallFrame(Sent(0, req)))
    ensures Step(handlers, c, Send(req)) == Some(c') && Inv(handlers, c') && c'.waiting
    ensures c'.calls == c.calls + 1 && c'.requests == c.requests + [Sent(c.calls + 1, req)]
    ensures c'.served == c.served && c'.received == c.received && c'.timeouts == c.timeouts
  {
    c' := Step(handlers, c, Send(req)).value;
    hide Inv;
    SendKeepsInv(handlers, c, req);
  }

  lemma ServesFirst(handlers: Handlers, c: Conn) returns (c': Conn)
    requires Inv(handlers, c) && c.served == 0 < |c.requests| && Fits(ReplyFrame(handlers, 0, CallFrame(c.requests[0])))
    ensures Step(handlers, c, Serve) == Some(c') && Inv(handlers, c')
    ensures c'.served == 1 && c' == c.(c2s := c'.c2s, s2c := c'.s2c, served := 1)
  {
    hide FrameBytes, TakeFrame, ReplyFrame, Explained, Counted, StreamBytes;
    TakeFirst(CallFrames(c.requests, 0));
    c' := Step(handlers, c, Serve).value;
    ServeKeepsInv(handlers, c);
  }

  lemma ReceivesFirst(handlers: Handlers, c: Conn)
    requires Inv(handlers, c) && c.received == 0 < c.served && c.waiting
    ensures var s := Step(handlers, c, Receive);
            && s.Some?
            && s.value.requests == c.requests
            && s.value.completed == c.completed + [Completed(|c.requests| - 1, c.timeouts,
                                                             Check(c.calls % 0x1_0000_0000,
                                                               ReplyFrame(handlers, 0, CallFrame(c.requests[0]))))]
  {
    hide FrameBytes, TakeFrame, ReplyFrame, Explained, StreamBytes, Check, CallFrame;
    TakeFirst(ReplyFrames(handlers, c.requests, 0, c.served));
    ReceiveTakes(handlers, c);
  }

  lemma OwnIsNoMismatch(handlers: Handlers, req: Request)
    ensures Own(handlers, 0, req) != SeqMismatch
  {
  }

  /**
   * What a call returns, over every run through middleware that passes calls through: with no earlier timeout, what
   * the handler registered under its name says to its request, or the text of the unknown method.
   */
  lemma CallOutcome(handlers: Handlers, events: seq<Event>, r: Completed)
    requires Run(handlers, FRESH, events).Some? && r in Run(handlers, FRESH, events).value.completed
    requires r.timeoutsBefore == 0 && forall mw :: mw in handlers.middleware ==> Transparent(mw)
    ensures var requests := Run(handlers, FRESH, events).value.requests;
            && r.call < |requests|
            && var req := requests[r.call].req;
            && (req.method_ !in handlers.byName ==> r.outcome == Failure(Ascii("unknown method ") + req.method_))
            && (req.method_ in handlers.byName ==>
                  var answer := handlers.byName[req.method_](r.call, req.hdr, req.body);
                  && (answer.Ok? ==> r.outcome == Reply(answer.value))
                  && (answer.Err? ==> r.outcome == Failure(answer.error)))
  {
    hide Run;
    SessionSafety(handlers, events, r);
    var req := Run(handlers, FRESH, events).value.requests[r.call].req;
    if req.method_ in handlers.byName {
      ChainTransparent(handlers.middleware, handlers.byName[req.method_], r.call, req.hdr, req.body);
    } else {
      ChainTransparent(handlers.middleware, Unknown(req.method_), r.call, req.hdr, req.body);
      UnknownText();
    }
  }

  lemma UnknownText()
    ensures UNKNOWN_METHOD == Ascii("unknown method ")
    ensures NOT_A_CALL == Ascii("not a call")
  {
  }

  /** Which frames a call takes for its reply: those under its number and of type 2, and no other. */
  lemma OnlyRepliesAreAccepted(sequence: uint32, msg: Message)
    ensures Check(sequence, msg) == Reply(msg.body) <==> msg.sequence == sequence && msg.typ == 2
    ensures Check(sequence, msg) == Failure(msg.body) <==> msg.sequence == sequence && msg.typ == 3
    ensures Check(sequence, msg) == SeqMismatch <==> msg.sequence != sequence
    ensures Check(sequence, msg) == BadType(msg.typ) <==>
              msg.sequence == sequence && msg.typ != 2 && msg.typ != 3
  {
  }

  /**
   * What can happen in a state of any run: a call begins when none is in progress, and one in progress can time out
   * at any time; the server can answer exactly while a request is unanswered, and a call can complete exactly when
   * a reply is there that no call has read.
   */
  lemma Enabled(handlers: Handlers, c: Conn, req: Request)
    requires Inv(handlers, c)
    ensures Step(handlers, c, SendFails).Some? <==> !c.waiting
    ensures Step(handlers, c, TimeOut).Some? <==> c.waiting
    ensures Step(handlers, c, Send(req)).Some? <==> !c.waiting && Fits(CallFrame(Sent(0, req)))
    ensures Step(handlers, c, Serve).Some?
       <==> c.served < |c.requests| && Fits(ReplyFrame(handlers, c.served, CallFrame(c.requests[c.served])))
    ensures Step(handlers, c, Receive).Some? <==> c.waiting && c.received < c.served
  {
    hide FrameBytes, TakeFrame, ReplyFrame, Explained, Counted, StreamBytes, CallFrame;
    assert Fits(Message(MSG_CALL, Next(c.sequence), req.method_, req.hdr, req.body)) <==> Fits(CallFrame(Sent(0, req)))
      by { FitsWhatever(req, Next(c.sequence)); }
    if c.served < |c.requests| {
      TakeFirst(CallFrames(c.requests, c.served));
    } else {
      NothingThere(CallFrames(c.requests, c.served));
    }
    if c.received < c.served {
      TakeFirst(ReplyFrames(handlers, c.requests, c.received, c.served));
    } else {
      NothingThere(ReplyFrames(handlers, c.requests, c.received, c.served));
    }
    WaitingHasRequest(handlers, c);
  }

  lemma FitsWhatever(req: Request, sequence: uint32)
    ensures Fits(Message(MSG_CALL, sequence, req.method_, req.hdr, req.body)) <==> Fits(CallFrame(Sent(0, req)))
  {
  }

  lemma NothingThere(ms: seq<Message>)
    requires ms == []
    ensures TakeFrame(StreamBytes(ms)).out.Err?
  {
    TakeNone();
  }

  lemma WaitingHasRequest(handlers: Handlers, c: Conn)
    requires Inv(handlers, c)
    ensures c.waiting ==> c.requests != []
  {
  }

  /** A frame that is no call is answered with an exception that says so, and the call number comes back. */
  lemma OnlyCallsAreServed(handlers: Handlers, n: nat, msg: Message)
    requires msg.typ != 1
    ensures ReplyFrame(handlers, n, msg) == Message(3, msg.sequence, msg.method_, [], Ascii("not a call"))
  {
    UnknownText();
  }

  /** Middleware that adds a stamp to the header that it passes on. */
  function Stamp(mark: bytes): Middleware {
    (h: Handler) => (n: nat, hdr: bytes, body: bytes) => h(n, hdr + mark, body)
  }

  function Stamps(marks: seq<bytes>): seq<Middleware> {
    if marks == [] then [] else [Stamp(marks[0])] + Stamps(marks[1..])
  }

  function Joined(marks: seq<bytes>): bytes {
    if marks == [] then [] else marks[0] + Joined(marks[1..])
  }

  /** The middleware given first acts first: its stamp is the first one that the handler sees. */
  lemma {:induction false} MiddlewareOrder(marks: seq<bytes>, h: Handler, n: nat, hdr: bytes, body: bytes)
    ensures Chain(Stamps(marks), h)(n, hdr, body) == h(n, hdr + Joined(marks), body)
  {
    if marks == [] {
      assert hdr + [] == hdr;
    } else {
      assert Stamps(marks)[1..] == Stamps(marks[1..]);
      MiddlewareOrder(marks[1..], h, n, hdr + marks[0], body);
      assert hdr + marks[0] + Joined(marks[1..]) == hdr + Joined(marks);
    }
  }

  /** A call frame on the wire has type 1, and its answer 2, or 3 for an error. */
  lemma FrameTypes(handlers: Handlers, n: nat, s: Sent)
    requires Fits(CallFrame(s)) && Fits(ReplyFrame(handlers, n, CallFrame(s)))
    ensures FrameBytes(CallFrame(s))[4] == 1
    ensures FrameBytes(ReplyFrame(handlers, n, CallFrame(s)))[4] == if Own(handlers, n, s.req).Reply? then 2 else 3
  {
    FrameLayout(CallFrame(s));
    FrameLayout(ReplyFrame(handlers, n, CallFrame(s)));
  }

  /** One reply per request, in order: whatever the run, the server has answered a prefix of the requests, each once. */
  lemma RepliesInOrder(handlers: Handlers, events: seq<Event>)
    requires Run(handlers, FRESH, events).Some?
    ensures var c := Run(handlers, FRESH, events).value;
            && c.received <= c.served <= |c.requests|
            && ReadAll(c.s2c) == Ok(ReplyFrames(handlers, c.requests, c.received, c.served))
            && ReadAll(c.c2s) == Ok(CallFrames(c.requests, c.served))
  {
    FreshInv(handlers);
    RunKeepsInv(handlers, FRESH, events);
    var c := Run(handlers, FRESH, events).value;
    ReadAllOfStream(ReplyFrames(handlers, c.requests, c.received, c.served));
    ReadAllOfStream(CallFrames(c.requests, c.served));
  }
}
