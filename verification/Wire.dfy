/** The field-id encoding: wire/wire.go. */
module Wire {
  import opened Wrappers
  import opened Bytes

  const TSTOP: byte := 0
  const TBOOL: byte := 1
  const TI64: byte := 2
  const TSTRING: byte := 3

  /** A value that can be put on the wire. A Go string is a byte string. */
  datatype Value = I64(i: int64) | Str(s: bytes) | Bool(b: bool)

  datatype Error =
    | Eof
    | ShortString
    | UnknownType(tag: byte)
    | UnsupportedType(name: string)
    | WrongKind
    | NotAMap
    | BadJson
    | UnknownStruct(struct: string)

  /** What a read returns, and the bytes it leaves unread. */
  datatype Step<+T> = Step(out: Result<T, Error>, rest: bytes)

  // ----- What the encoding is -----

  function Tag(v: Value): byte {
    match v
    case I64(_) => TI64
    case Str(_) => TSTRING
    case Bool(_) => TBOOL
  }

  function Payload(v: Value): bytes {
    match v
    case I64(i) => BigEndian(ToUint64(i), 8)
    case Str(s) => BigEndian(|s|, 4) + s
    case Bool(b) => [if b then 1 else 0]
  }

  /** The id is converted to uint16, so ids that agree modulo 65536 get the same bytes. */
  function FieldBytes(id: int, v: Value): bytes {
    [Tag(v)] + BigEndian(id % 0x1_0000, 2) + Payload(v)
  }

  /** The 4-byte length prefix can hold the length. */
  predicate Fits(v: Value) {
    v.Str? ==> |v.s| < TWO_32
  }

  predicate IdFits(id: int) {
    0 <= id < TWO_16
  }

  /** The first k bytes of s as a number. */
  function TakeNumber(s: bytes, k: nat): (r: Step<nat>)
    ensures r.out.Ok? ==> r.out.value < Pow256(k)
  {
    if |s| < k then Step(Err(Eof), s)
    else
      BigEndianOfNumber(s[..k]);
      Step(Ok(FromBigEndian(s[..k])), s[k..])
  }

  /** Reading a value as the type with the given tag. */
  function TakeValue(tag: byte, s: bytes): Step<Value> {
    PowersOf256();
    if tag == TI64 then
      var n := TakeNumber(s, 8);
      if n.out.Err? then Step(Err(n.out.error), n.rest) else Step(Ok(I64(ToInt64(n.out.value))), n.rest)
    else if tag == TSTRING then
      var n := TakeNumber(s, 4);
      if n.out.Err? then Step(Err(n.out.error), n.rest)
      else if n.out.value > |n.rest| then Step(Err(ShortString), n.rest)
      else Step(Ok(Str(n.rest[..n.out.value])), n.rest[n.out.value..])
    else if tag == TBOOL then
      var n := TakeNumber(s, 1);
      if n.out.Err? then Step(Err(n.out.error), n.rest) else Step(Ok(Bool(n.out.value == 1)), n.rest)
    else
      Step(Err(UnknownType(tag)), s)
  }

  /** The header of the next field: its tag and id, or the stop tag. */
  function TakeHeader(s: bytes): Step<(byte, int)> {
    var t := TakeNumber(s, 1);
    PowersOf256();
    if t.out.Err? then Step(Err(t.out.error), t.rest)
    else if t.out.value == TSTOP then Step(Ok((TSTOP, 0)), t.rest)
    else
      var id := TakeNumber(t.rest, 2);
      if id.out.Err? then Step(Err(id.out.error), id.rest)
      else Step(Ok((t.out.value, id.out.value)), id.rest)
  }

  // ----- Reading undoes writing -----

  lemma TakeNumberOfBigEndian(n: nat, k: nat, t: bytes)
    requires n < Pow256(k)
    ensures TakeNumber(BigEndian(n, k) + t, k) == Step(Ok(n), t)
  {
    var s := BigEndian(n, k);
    assert (s + t)[..k] == s && (s + t)[k..] == t;
    NumberOfBigEndian(n, k);
    assert n % Pow256(k) == n;
  }

  lemma TakeByte(b: byte, t: bytes)
    ensures TakeNumber([b] + t, 1) == Step(Ok(b), t)
  {
    assert ([b] + t)[..1] == [b] && ([b] + t)[1..] == t;
    assert FromBigEndian([b]) == b by { assert [b][..0] == []; }
  }

  lemma ValueRoundTrip(v: Value, t: bytes)
    requires Fits(v)
    ensures TakeValue(Tag(v), Payload(v) + t) == Step(Ok(v), t)
  {
    PowersOf256();
    match v
    case I64(i) =>
      TakeNumberOfBigEndian(ToUint64(i), 8, t);
    case Str(s) =>
      assert Payload(v) + t == BigEndian(|s|, 4) + (s + t);
      TakeNumberOfBigEndian(|s|, 4, s + t);
      assert (s + t)[..|s|] == s && (s + t)[|s|..] == t;
    case Bool(b) =>
      TakeByte(if b then 1 else 0, t);
  }

  lemma HeaderRoundTrip(id: int, v: Value, t: bytes)
    ensures TakeHeader(FieldBytes(id, v) + t) == Step(Ok((Tag(v), id % 0x1_0000)), Payload(v) + t)
  {
    PowersOf256();
    var idb := BigEndian(id % 0x1_0000, 2);
    assert FieldBytes(id, v) + t == [Tag(v)] + (idb + (Payload(v) + t));
    TakeByte(Tag(v), idb + (Payload(v) + t));
    TakeNumberOfBigEndian(id % 0x1_0000, 2, Payload(v) + t);
  }

  lemma StopRoundTrip(t: bytes)
    ensures TakeHeader([TSTOP] + t) == Step(Ok((TSTOP, 0)), t)
  {
    TakeByte(TSTOP, t);
  }

  lemma PayloadLayout(v: Value)
    requires Fits(v)
    ensures var b := Payload(v);
            && |b| == (if v.I64? then 8 else if v.Str? then 4 + |v.s| else 1)
            && (v.I64? ==> FromBigEndian(b) == (if v.i < 0 then v.i + TWO_64 else v.i))
            && (v.Str? ==> FromBigEndian(b[..4]) == |v.s| && b[4..] == v.s)
            && (v.Bool? ==> b[0] == (if v.b then 1 else 0))
  {
    hide BigEndian, FromBigEndian;
    PowersOf256();
    if v.I64? {
      NumberOfBigEndian(ToUint64(v.i), 8);
    } else if v.Str? {
      NumberOfBigEndian(|v.s|, 4);
      assert Payload(v)[..4] == BigEndian(|v.s|, 4);
    }
  }

  lemma IdLayout(id: int)
    requires IdFits(id)
    ensures BigEndian(id, 2) == [id / 256, id % 256]
  {
    assert BigEndian(id / 256, 1) == BigEndian(id / 256 / 256, 0) + [id / 256 % 256];
    assert BigEndian(id, 2) == BigEndian(id / 256, 1) + [id % 256];
  }

  lemma Parts(head: bytes, payload: bytes)
    requires |head| == 3
    ensures var b := head + payload;
            && b[..3] == head && b[3..] == payload
            && (|payload| > 0 ==> b[3] == payload[0])
            && (|payload| >= 4 ==> b[3..7] == payload[..4] && b[7..] == payload[4..])
  {
  }

  /** The layout on the wire: type byte, two id bytes, then eight bytes, a length and its bytes, or one byte. */
  lemma FieldLayout(id: int, v: Value)
    requires IdFits(id) && Fits(v)
    ensures var b := FieldBytes(id, v);
            && |b| == 3 + (if v.I64? then 8 else if v.Str? then 4 + |v.s| else 1)
            && b[..3] == [if v.I64? then 2 else if v.Str? then 3 else 1, id / 256, id % 256]
            && (v.I64? ==> FromBigEndian(b[3..]) == (if v.i < 0 then v.i + TWO_64 else v.i))
            && (v.Str? ==> FromBigEndian(b[3..7]) == |v.s| && b[7..] == v.s)
            && (v.Bool? ==> b[3] == (if v.b then 1 else 0))
  {
    IdLayout(id);
    PayloadLayout(v);
    hide BigEndian, FromBigEndian, Payload, Fits;
    assert id % 0x1_0000 == id;
    Parts([Tag(v)] + BigEndian(id, 2), Payload(v));
  }

  // ----- Reads only look at the bytes they consume -----

  lemma TakeNumberExtends(s: bytes, k: nat, t: bytes)
    requires TakeNumber(s, k).out.Ok?
    ensures TakeNumber(s + t, k) == Step(TakeNumber(s, k).out, TakeNumber(s, k).rest + t)
  {
    assert (s + t)[..k] == s[..k] && (s + t)[k..] == s[k..] + t;
  }

  lemma TakeValueExtends(tag: byte, s: bytes, t: bytes)
    requires TakeValue(tag, s).out.Ok?
    ensures TakeValue(tag, s + t) == Step(TakeValue(tag, s).out, TakeValue(tag, s).rest + t)
  {
    if tag == TI64 {
      TakeNumberExtends(s, 8, t);
    } else if tag == TSTRING {
      TakeNumberExtends(s, 4, t);
      var n := TakeNumber(s, 4);
      var k := n.out.value;
      assert (n.rest + t)[..k] == n.rest[..k] && (n.rest + t)[k..] == n.rest[k..] + t;
    } else {
      TakeNumberExtends(s, 1, t);
    }
  }

  lemma TakeHeaderExtends(s: bytes, t: bytes)
    requires TakeHeader(s).out.Ok?
    ensures TakeHeader(s + t) == Step(TakeHeader(s).out, TakeHeader(s).rest + t)
  {
    TakeNumberExtends(s, 1, t);
    var h := TakeNumber(s, 1);
    if h.out.value != TSTOP {
      TakeNumberExtends(h.rest, 2, t);
    }
  }

  lemma HeaderConsumes(s: bytes)
    ensures var r := TakeHeader(s).rest; |r| <= |s| && r == s[|s| - |r|..] && (TakeHeader(s).out.Ok? ==> |r| < |s|)
  {
    hide FromBigEndian;
  }

  lemma ValueConsumes(tag: byte, s: bytes)
    ensures var r := TakeValue(tag, s).rest;
            |r| <= |s| && r == s[|s| - |r|..] && (TakeValue(tag, s).out.Ok? ==> |r| < |s|)
  {
    hide FromBigEndian, ToInt64;
  }

  /** A read leaves a suffix; reading a value or a header that succeeds consumes at least one byte. */
  lemma ReadsConsume(tag: byte, s: bytes)
    ensures var r := TakeHeader(s).rest; |r| <= |s| && r == s[|s| - |r|..] && (TakeHeader(s).out.Ok? ==> |r| < |s|)
    ensures var r := TakeValue(tag, s).rest;
            |r| <= |s| && r == s[|s| - |r|..] && (TakeValue(tag, s).out.Ok? ==> |r| < |s|)
  {
    hide TakeHeader, TakeValue;
    HeaderConsumes(s);
    ValueConsumes(tag, s);
  }

  // ----- The two objects -----

  class Writer {
    var buf: bytes

    constructor ()
      ensures buf == []
    {
      buf := [];
    }

    method FieldI64(id: int, v: int64)
      modifies this
      ensures buf == old(buf) + FieldBytes(id, I64(v))
    {
      buf := buf + [TI64];
      buf := buf + BigEndian(id % 0x1_0000, 2);
      buf := buf + BigEndian(ToUint64(v), 8);
    }

    method FieldString(id: int, v: bytes)
      modifies this
      ensures buf == old(buf) + FieldBytes(id, Str(v))
    {
      buf := buf + [TSTRING];
      buf := buf + BigEndian(id % 0x1_0000, 2);
      buf := buf + BigEndian(|v|, 4);
      buf := buf + v;
    }

    method FieldBool(id: int, v: bool)
      modifies this
      ensures buf == old(buf) + FieldBytes(id, Bool(v))
    {
      buf := buf + [TBOOL];
      buf := buf + BigEndian(id % 0x1_0000, 2);
      if v {
        buf := buf + [1];
      } else {
        buf := buf + [0];
      }
    }

    method Stop()
      modifies this
      ensures buf == old(buf) + [TSTOP]
    {
      buf := buf + [TSTOP];
    }
  }

  class Reader {
    const b: bytes
    var i: nat

    ghost predicate Valid()
      reads this
    {
      i <= |b|
    }

    ghost function Rest(): bytes
      reads this
      requires Valid()
    {
      b[i..]
    }

    constructor (b: bytes)
      ensures this.b == b && i == 0 && Valid() && Rest() == b
    {
      this.b := b;
      i := 0;
    }

    /** u8, u16, u32 and u64 are this method at k = 1, 2, 4 and 8. */
    method Unsigned(k: nat) returns (r: Result<nat, Error>)
      requires Valid()
      modifies this`i
      ensures Valid() && Step(r, Rest()) == TakeNumber(old(Rest()), k)
    {
      if i + k > |b| {
        return Err(Eof);
      }
      assert b[i..][..k] == b[i..i + k] && b[i..][k..] == b[i + k..];
      r := Ok(FromBigEndian(b[i..i + k]));
      i := i + k;
    }

    method NextField() returns (r: Result<(byte, int), Error>)
      requires Valid()
      modifies this`i
      ensures Valid() && Step(r, Rest()) == TakeHeader(old(Rest()))
    {
      PowersOf256();
      var t := Unsigned(1);
      if t.Err? {
        return Err(t.error);
      }
      if t.value == TSTOP {
        return Ok((TSTOP, 0));
      }
      var n := Unsigned(2);
      if n.Err? {
        return Err(n.error);
      }
      r := Ok((t.value, n.value));
    }

    method ReadI64() returns (r: Result<int64, Error>)
      requires Valid()
      modifies this`i
      ensures Valid() && Step(if r.Ok? then Ok(I64(r.value)) else Err(r.error), Rest()) == TakeValue(TI64, old(Rest()))
    {
      PowersOf256();
      var n := Unsigned(8);
      r := if n.Ok? then Ok(ToInt64(n.value)) else Err(n.error);
    }

    method ReadString() returns (r: Result<bytes, Error>)
      requires Valid()
      modifies this`i
      ensures Valid() && Step(if r.Ok? then Ok(Str(r.value)) else Err(r.error), Rest())
          == TakeValue(TSTRING, old(Rest()))
    {
      PowersOf256();
      var n := Unsigned(4);
      if n.Err? {
        return Err(n.error);
      }
      if i + n.value > |b| {
        return Err(ShortString);
      }
      assert b[i..][..n.value] == b[i..i + n.value] && b[i..][n.value..] == b[i + n.value..];
      r := Ok(b[i..i + n.value]);
      i := i + n.value;
    }

    method ReadBool() returns (r: Result<bool, Error>)
      requires Valid()
      modifies this`i
      ensures Valid() && Step(if r.Ok? then Ok(Bool(r.value)) else Err(r.error), Rest())
          == TakeValue(TBOOL, old(Rest()))
    {
      var n := Unsigned(1);
      r := if n.Ok? then Ok(n.value == 1) else Err(n.error);
    }

    /** Skip moves past exactly the bytes that reading a value with this tag would consume. */
    method Skip(typ: byte) returns (r: Option<Error>)
      requires Valid()
      modifies this`i
      ensures Valid() && Rest() == TakeValue(typ, old(Rest())).rest
      ensures r == match TakeValue(typ, old(Rest())).out { case Ok(_) => None case Err(e) => Some(e) }
    {
      if typ == TI64 {
        var v := ReadI64();
        r := if v.Ok? then None else Some(v.error);
      } else if typ == TSTRING {
        var v := ReadString();
        r := if v.Ok? then None else Some(v.error);
      } else if typ == TBOOL {
        var v := ReadBool();
        r := if v.Ok? then None else Some(v.error);
      } else {
        r := Some(UnknownType(typ));
      }
    }
  }
}
