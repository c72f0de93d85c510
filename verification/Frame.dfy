/** Length-prefixed frames: runtime/frame.go. */
module Frame {
  import opened Wrappers
  import opened Bytes

  const MSG_CALL: byte := 1
  const MSG_REPLY: byte := 2
  const MSG_EXCEPTION: byte := 3
  const MAX_FRAME: nat := 0x10_0000

  datatype Message = Message(typ: byte, sequence: uint32, method_: bytes, hdr: bytes, body: bytes)

  datatype FrameError = Eof | BadFrame(n: nat) | ShortMethod | ShortHdr

  /** What reading a frame returns, and the bytes it leaves in the stream. */
  datatype Taken = Taken(out: Result<Message, FrameError>, rest: bytes)

  function ContentLength(m: Message): nat {
    1 + 4 + 2 + |m.method_| + 2 + |m.hdr| + |m.body|
  }

  /** The bytes writeFrame puts on the connection. Lengths that do not fit their field lose their high bytes. */
  function FrameBytes(m: Message): bytes {
    BigEndian(ContentLength(m), 4) + Content(m)
  }

  function Content(m: Message): (s: bytes)
    ensures |s| == ContentLength(m)
  {
    [m.typ] + BigEndian(m.sequence, 4) + BigEndian(|m.method_|, 2) + m.method_
      + BigEndian(|m.hdr|, 2) + m.hdr + m.body
  }

  /** The lengths fit their fields and the frame is not over the limit. */
  predicate Fits(m: Message) {
    |m.method_| < 0x1_0000 && |m.hdr| < 0x1_0000 && ContentLength(m) <= MAX_FRAME
  }

  /** Splitting the content of a frame into its parts. */
  function ParseContent(buf: bytes): Result<Message, FrameError>
    requires |buf| >= 9
  {
    PowersOf256();
    BigEndianOfNumber(buf[1..5]);
    var mlen := FromBigEndian(buf[5..7]);
    if 7 + mlen + 2 > |buf| then Err(ShortMethod)
    else
      var off := 7 + mlen + 2;
      var hlen := FromBigEndian(buf[off - 2..off]);
      if off + hlen > |buf| then Err(ShortHdr)
      else Ok(Message(buf[0], FromBigEndian(buf[1..5]), buf[7..7 + mlen], buf[off..off + hlen], buf[off + hlen..]))
  }

  function TakeFrame(s: bytes): Taken {
    if |s| < 4 then Taken(Err(Eof), [])
    else
      var n := FromBigEndian(s[..4]);
      if n < 9 || n > MAX_FRAME then Taken(Err(BadFrame(n)), s[4..])
      else if |s| < 4 + n then Taken(Err(Eof), [])
      else Taken(ParseContent(s[4..4 + n]), s[4 + n..])
  }

  // ----- The methods -----

  /** A byte stream: what has been written and not yet read. */
  class Stream {
    var data: bytes

    constructor (data: bytes)
      ensures this.data == data
    {
      this.data := data;
    }

    /** io.ReadFull: k bytes, or an error that leaves the stream drained. */
    method ReadFull(k: nat) returns (r: Result<bytes, FrameError>)
      modifies this
      ensures r == if |old(data)| < k then Err(Eof) else Ok(old(data)[..k])
      ensures data == if |old(data)| < k then [] else old(data)[k..]
    {
      if |data| < k {
        data := [];
        return Err(Eof);
      }
      r := Ok(data[..k]);
      data := data[k..];
    }
  }

  method Copy(buf: array<byte>, off: nat, src: bytes)
    requires off + |src| <= buf.Length
    modifies buf
    ensures buf[..off] == old(buf[..off]) && buf[off..off + |src|] == src
  {
    for i := 0 to |src|
      invariant buf[..off] == old(buf[..off]) && buf[off..off + i] == src[..i]
    {
      buf[off + i] := src[i];
      assert buf[off..off + i + 1] == buf[off..off + i] + [src[i]];
      assert src[..i + 1] == src[..i] + [src[i]];
    }
    assert src[..|src|] == src;
  }

  /** Copy, told as how the filled part of the buffer grows. */
  method Put(buf: array<byte>, off: nat, src: bytes, ghost filled: bytes)
    requires off + |src| <= buf.Length && buf[..off] == filled
    modifies buf
    ensures buf[..off + |src|] == filled + src
  {
    Copy(buf, off, src);
    assert buf[..off + |src|] == buf[..off] + buf[off..off + |src|];
  }

  method WriteFrame(w: Stream, msg: Message)
    modifies w
    ensures w.data == old(w.data) + FrameBytes(msg)
  {
    hide BigEndian, FrameBytes, Content;
    var n := 1 + 4 + 2 + |msg.method_| + 2 + |msg.hdr| + |msg.body|;
    var buf := new byte[4 + n];
    ghost var filled: bytes := BigEndian(n, 4);
    Put(buf, 0, BigEndian(n, 4), []);
    Put(buf, 4, [msg.typ], filled);
    filled := filled + [msg.typ];
    Put(buf, 5, BigEndian(msg.sequence, 4), filled);
    filled := filled + BigEndian(msg.sequence, 4);
    Put(buf, 9, BigEndian(|msg.method_|, 2), filled);
    filled := filled + BigEndian(|msg.method_|, 2);
    Put(buf, 11, msg.method_, filled);
    filled := filled + msg.method_;
    var off := 11 + |msg.method_|;
    Put(buf, off, BigEndian(|msg.hdr|, 2), filled);
    filled := filled + BigEndian(|msg.hdr|, 2);
    off := off + 2;
    Put(buf, off, msg.hdr, filled);
    filled := filled + msg.hdr;
    off := off + |msg.hdr|;
    Put(buf, off, msg.body, filled);
    FramePieces(msg);
    assert buf[..] == filled + msg.body;
    w.data := w.data + buf[..];
  }

  lemma FramePieces(m: Message)
    ensures FrameBytes(m)
         == BigEndian(ContentLength(m), 4) + [m.typ] + BigEndian(m.sequence, 4) + BigEndian(|m.method_|, 2) + m.method_
            + BigEndian(|m.hdr|, 2) + m.hdr + m.body
  {
    hide BigEndian;
  }

  method ReadMsg(r: Stream) returns (out: Result<Message, FrameError>)
    modifies r
    ensures Taken(out, r.data) == TakeFrame(old(r.data))
  {
    hide ParseContent, FromBigEndian;
    var hdr := r.ReadFull(4);
    if hdr.Err? {
      return Err(hdr.error);
    }
    var n := FromBigEndian(hdr.value);
    if n < 9 || n > MAX_FRAME {
      return Err(BadFrame(n));
    }
    ghost var s := old(r.data);
    if |r.data| >= n {
      assert r.data[..n] == s[4..4 + n] && r.data[n..] == s[4 + n..];
    }
    var full := r.ReadFull(n);
    if full.Err? {
      return Err(full.error);
    }
    out := SplitContent(full.value);
  }

  /** The second half of readMsg: every slice it takes is in bounds. */
  method SplitContent(buf: bytes) returns (out: Result<Message, FrameError>)
    requires |buf| >= 9
    ensures out == ParseContent(buf)
  {
    hide FromBigEndian;
    PowersOf256();
    var typ := buf[0];
    BigEndianOfNumber(buf[1..5]);
    var sequence := FromBigEndian(buf[1..5]);
    var mlen := FromBigEndian(buf[5..7]);
    if 7 + mlen + 2 > |buf| {
      return Err(ShortMethod);
    }
    var off := 7 + mlen;
    var hlen := FromBigEndian(buf[off..off + 2]);
    off := off + 2;
    if off + hlen > |buf| {
      return Err(ShortHdr);
    }
    var meta: bytes := [];
    if hlen > 0 {
      meta := buf[off..off + hlen];
    }
    assert meta == buf[off..off + hlen];
    off := off + hlen;
    out := Ok(Message(typ, sequence, buf[7..7 + mlen], meta, buf[off..]));
  }

  // ----- Frames are a bijection -----

  lemma NumberFits(n: nat, k: nat)
    requires n < Pow256(k)
    ensures FromBigEndian(BigEndian(n, k)) == n
  {
    NumberOfBigEndian(n, k);
    assert n % Pow256(k) == n;
  }

  lemma ParseOfContent(m: Message)
    requires Fits(m)
    ensures ParseContent(Content(m)) == Ok(m)
  {
    hide BigEndian, FromBigEndian;
    PowersOf256();
    var c := Content(m);
    NumberFits(m.sequence, 4);
    NumberFits(|m.method_|, 2);
    NumberFits(|m.hdr|, 2);
    assert c[1..5] == BigEndian(m.sequence, 4);
    assert c[5..7] == BigEndian(|m.method_|, 2);
    assert c[7..7 + |m.method_|] == m.method_;
    var off := 9 + |m.method_|;
    assert c[off - 2..off] == BigEndian(|m.hdr|, 2);
    assert c[off..off + |m.hdr|] == m.hdr;
    assert c[off + |m.hdr|..] == m.body;
  }

  lemma ContentOfParse(buf: bytes)
    requires |buf| >= 9 && ParseContent(buf).Ok?
    ensures var m := ParseContent(buf).value; Content(m) == buf && |m.method_| < 0x1_0000 && |m.hdr| < 0x1_0000
  {
    hide BigEndian, FromBigEndian;
    PowersOf256();
    var m := ParseContent(buf).value;
    var off := 9 + |m.method_|;
    BigEndianOfNumber(buf[1..5]);
    BigEndianOfNumber(buf[5..7]);
    BigEndianOfNumber(buf[off - 2..off]);
    assert BigEndian(m.sequence, 4) == buf[1..5];
    assert BigEndian(|m.method_|, 2) == buf[5..7];
    assert BigEndian(|m.hdr|, 2) == buf[off - 2..off];
    SevenParts(buf, off, off + |m.hdr|);
  }

  lemma SevenParts(buf: bytes, i: nat, j: nat)
    requires 9 <= i <= j <= |buf|
    ensures buf == buf[..1] + buf[1..5] + buf[5..7] + buf[7..i - 2] + buf[i - 2..i] + buf[i..j] + buf[j..]
  {
  }

  lemma RoundTrip(m: Message, rest: bytes)
    requires Fits(m)
    ensures TakeFrame(FrameBytes(m) + rest) == Taken(Ok(m), rest)
  {
    hide BigEndian, FromBigEndian, Content, ParseContent;
    PowersOf256();
    var s := FrameBytes(m) + rest;
    NumberFits(ContentLength(m), 4);
    assert s[..4] == BigEndian(ContentLength(m), 4);
    assert s[4..4 + ContentLength(m)] == Content(m);
    assert s[4 + ContentLength(m)..] == rest;
    ParseOfContent(m);
  }

  /** A frame that is accepted re-encodes to exactly the bytes that were read. */
  lemma AcceptedReencodes(s: bytes)
    requires TakeFrame(s).out.Ok?
    ensures var m := TakeFrame(s).out.value; Fits(m) && s == FrameBytes(m) + TakeFrame(s).rest
  {
    hide BigEndian, FromBigEndian, Content, ParseContent;
    PowersOf256();
    var n := FromBigEndian(s[..4]);
    ContentOfParse(s[4..4 + n]);
    BigEndianOfNumber(s[..4]);
    assert s == s[..4] + s[4..4 + n] + s[4 + n..];
  }

  /**
   * A frame comes back from the stream exactly when its method and header have less than 64 KB and its content has
   * at most 1 MB; the writer itself checks nothing.
   */
  lemma RoundTripIff(m: Message, rest: bytes)
    ensures TakeFrame(FrameBytes(m) + rest) == Taken(Ok(m), rest)
       <==> |m.method_| < 65536 && |m.hdr| < 65536 && 9 + |m.method_| + |m.hdr| + |m.body| <= 1048576
  {
    if Fits(m) {
      RoundTrip(m, rest);
    }
    if TakeFrame(FrameBytes(m) + rest) == Taken(Ok(m), rest) {
      AcceptedReencodes(FrameBytes(m) + rest);
    }
  }

  /** Byte by byte: the length of what follows, the type, the sequence number, the two prefixed parts, and the body. */
  lemma FrameLayout(m: Message)
    requires Fits(m)
    ensures var b, k, h := FrameBytes(m), |m.method_|, |m.hdr|;
            && |b| == 13 + k + h + |m.body|
            && FromBigEndian(b[..4]) == |b| - 4
            && b[4] == m.typ
            && FromBigEndian(b[5..9]) == m.sequence
            && b[9..11] == [k / 256, k % 256] && b[11..11 + k] == m.method_
            && b[11 + k..13 + k] == [h / 256, h % 256] && b[13 + k..13 + k + h] == m.hdr
            && b[13 + k + h..] == m.body
  {
    hide BigEndian, FromBigEndian;
    PowersOf256();
    NumberFits(ContentLength(m), 4);
    NumberFits(m.sequence, 4);
    TwoBytes(|m.method_|);
    TwoBytes(|m.hdr|);
    var b, k, h := FrameBytes(m), |m.method_|, |m.hdr|;
    assert b[..4] == BigEndian(ContentLength(m), 4);
    assert b[5..9] == BigEndian(m.sequence, 4);
    assert b[9..11] == BigEndian(k, 2) && b[11..11 + k] == m.method_;
    assert b[11 + k..13 + k] == BigEndian(h, 2) && b[13 + k..13 + k + h] == m.hdr;
    assert b[13 + k + h..] == m.body;
  }

  lemma TwoBytes(n: nat)
    requires n < 0x1_0000
    ensures BigEndian(n, 2) == [n / 256, n % 256]
  {
    assert BigEndian(n / 256, 1) == BigEndian(n / 256 / 256, 0) + [n / 256 % 256];
    assert BigEndian(n, 2) == BigEndian(n / 256, 1) + [n % 256];
  }

  /** A stream cut inside a frame ends in an error, and nothing of the frame is taken for one. */
  lemma TruncatedFrame(m: Message, j: nat)
    requires Fits(m) && j < |FrameBytes(m)|
    ensures TakeFrame(FrameBytes(m)[..j]).out == Err(Eof)
  {
    hide BigEndian, FromBigEndian, Content, ParseContent;
    PowersOf256();
    NumberFits(ContentLength(m), 4);
    var b := FrameBytes(m);
    if j >= 4 {
      assert b[..j][..4] == b[..4] == BigEndian(ContentLength(m), 4);
    }
  }

  /** A length under 9 or over 1 MB is refused as it is read; everything else up to the length is consumed. */
  lemma BadLength(n: nat, rest: bytes)
    requires n < 0x1_0000_0000
    ensures TakeFrame(BigEndian(n, 4) + rest).out == Err(BadFrame(n)) <==> n < 9 || n > 1048576
    ensures n < 9 || n > 1048576 ==> TakeFrame(BigEndian(n, 4) + rest).rest == rest
  {
    hide BigEndian, FromBigEndian, ParseContent;
    PowersOf256();
    NumberFits(n, 4);
    assert (BigEndian(n, 4) + rest)[..4] == BigEndian(n, 4);
    assert (BigEndian(n, 4) + rest)[4..] == rest;
    if 9 <= n <= 1048576 && |rest| >= n {
      NoBadFrame((BigEndian(n, 4) + rest)[4..4 + n]);
    }
  }

  /** What is in the frame is too short for the method, or for the header. */
  lemma NoBadFrame(buf: bytes)
    requires |buf| >= 9
    ensures ParseContent(buf).Err? ==>
              && |buf| >= 9 && var k := FromBigEndian(buf[5..7]);
              if 9 + k > |buf| then ParseContent(buf).error == ShortMethod else ParseContent(buf).error == ShortHdr
  {
  }

  function StreamBytes(ms: seq<Message>): bytes {
    if ms == [] then [] else FrameBytes(ms[0]) + StreamBytes(ms[1..])
  }

  lemma {:induction false} StreamAppend(a: seq<Message>, b: seq<Message>)
    ensures StreamBytes(a + b) == StreamBytes(a) + StreamBytes(b)
  {
    if a == [] {
      assert a + b == b;
    } else {
      assert (a + b)[1..] == a[1..] + b;
      StreamAppend(a[1..], b);
    }
  }

  /** Reading frames until the stream is empty. */
  function ReadAll(s: bytes): Result<seq<Message>, FrameError>
    decreases |s|
  {
    if s == [] then Ok([])
    else
      var t := TakeFrame(s);
      if t.out.Err? then Err(t.out.error)
      else
        AcceptedReencodes(s);
        match ReadAll(t.rest)
        case Err(e) => Err(e)
        case Ok(ms) => Ok([t.out.value] + ms)
  }

  /** A stream of frames decodes to exactly the messages, and every byte string that decodes is such a stream. */
  lemma {:induction false} StreamBijection(ms: seq<Message>, s: bytes)
    ensures (forall m :: m in ms ==> Fits(m)) ==> ReadAll(StreamBytes(ms)) == Ok(ms)
    ensures ReadAll(s) == Ok(ms) ==> s == StreamBytes(ms) && forall m :: m in ms ==> Fits(m)
  {
    if forall m :: m in ms ==> Fits(m) {
      ReadAllOfStream(ms);
    }
    if ReadAll(s) == Ok(ms) {
      StreamOfReadAll(s, ms);
    }
  }

  lemma ReadAllCons(m: Message, rest: bytes)
    requires Fits(m)
    ensures ReadAll(FrameBytes(m) + rest)
         == if ReadAll(rest).Ok? then Ok([m] + ReadAll(rest).value) else Err(ReadAll(rest).error)
  {
    hide FrameBytes, TakeFrame, Fits;
    FrameNotEmpty(m);
    RoundTrip(m, rest);
  }

  lemma {:induction false} ReadAllOfStream(ms: seq<Message>)
    requires forall m :: m in ms ==> Fits(m)
    ensures ReadAll(StreamBytes(ms)) == Ok(ms)
  {
    hide FrameBytes, TakeFrame, Fits;
    if ms != [] {
      assert ms[0] in ms;
      ReadAllCons(ms[0], StreamBytes(ms[1..]));
      ReadAllOfStream(ms[1..]);
      assert ms == [ms[0]] + ms[1..];
    }
  }

  lemma {:induction false} StreamOfReadAll(s: bytes, ms: seq<Message>)
    requires ReadAll(s) == Ok(ms)
    ensures s == StreamBytes(ms) && forall m :: m in ms ==> Fits(m)
    decreases |s|
  {
    if s != [] {
      hide FrameBytes, TakeFrame;
      AcceptedReencodes(s);
      FrameNotEmpty(ms[0]);
      assert ms[1..] == ReadAll(TakeFrame(s).rest).value;
      StreamOfReadAll(TakeFrame(s).rest, ms[1..]);
      assert ms == [ms[0]] + ms[1..];
    }
  }

  lemma FrameNotEmpty(m: Message)
    ensures |FrameBytes(m)| >= 13
  {
  }
}
