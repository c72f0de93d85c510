/** A generated codec as it stands in gen/order/order.go, as an instance of the template's codec. */
module OrderCodec {
  import opened Wrappers
  import opened Bytes
  import opened Wire
  import opened Idl
  import opened Codec
  import Generic
  import GenericProperties
  import opened Typed

  datatype GetOrderResp = GetOrderResp(id: int64, userId: int64, status: bytes, userName: bytes)

  function RespFields(): seq<Field> {
    [Field(1, "i64", "id"), Field(2, "i64", "userId"), Field(3, "string", "status"), Field(4, "string", "userName")]
  }

  function Values(s: GetOrderResp): (r: seq<Value>)
    ensures |r| == |RespFields()|
  {
    [I64(s.id), I64(s.userId), Str(s.status), Str(s.userName)]
  }

  lemma FourEntries(s: GetOrderResp)
    ensures EncodeEntries(TypedEntries(RespFields(), Values(s)))
         == FieldBytes(1, I64(s.id)) + FieldBytes(2, I64(s.userId)) + FieldBytes(3, Str(s.status))
           + FieldBytes(4, Str(s.userName))
  {
    hide FieldBytes;
    var es := TypedEntries(RespFields(), Values(s));
    assert es == [Entry(1, I64(s.id)), Entry(2, I64(s.userId)), Entry(3, Str(s.status)), Entry(4, Str(s.userName))];
    assert es[1..] == [es[1], es[2], es[3]] && es[1..][1..] == [es[2], es[3]] && es[1..][1..][1..] == [es[3]]
      && es[1..][1..][1..][1..] == [];
    EncodeOne(es[3]);
    assert EncodeEntries([es[2], es[3]]) == FieldBytes(3, Str(s.status)) + EncodeEntries([es[3]]);
    assert EncodeEntries([es[1], es[2], es[3]]) == FieldBytes(2, I64(s.userId)) + EncodeEntries([es[2], es[3]]);
    assert EncodeEntries(es) == FieldBytes(1, I64(s.id)) + EncodeEntries([es[1], es[2], es[3]]);
  }

  lemma EncodeOne(e: Entry)
    ensures EncodeEntries([e]) == FieldBytes(e.id, e.val)
  {
    assert [e][1..] == [];
  }

  method EncodeGetOrderResp(s: GetOrderResp) returns (body: bytes)
    ensures body == Body(TypedEntries(RespFields(), Values(s)))
  {
    hide FieldBytes;
    FourEntries(s);
    var w := new Writer();
    w.FieldI64(1, s.id);
    w.FieldI64(2, s.userId);
    w.FieldString(3, s.status);
    w.FieldString(4, s.userName);
    w.Stop();
    body := w.buf;
  }

  lemma FieldPositions(id: int)
    ensures |RespFields()| == 4
    ensures FieldIndex(RespFields(), id) == if 1 <= id <= 4 then Some(id - 1) else None
  {
    var fs := RespFields();
    if 1 <= id <= 4 {
      assert DistinctIds(fs);
      FieldIndexOf(fs, id - 1);
    }
  }

  /** The member that a field id stands for is set; other ids change nothing. */
  function WithField(s: GetOrderResp, id: int, v: Value): GetOrderResp {
    if id == 1 && v.I64? then s.(id := v.i)
    else if id == 2 && v.I64? then s.(userId := v.i)
    else if id == 3 && v.Str? then s.(status := v.s)
    else if id == 4 && v.Str? then s.(userName := v.s)
    else s
  }

  /** The type that the switch reads for a field id; other ids are skipped by their wire tag. */
  function ReadTag(tag: byte, id: int): byte {
    if id == 1 || id == 2 then TI64 else if id == 3 || id == 4 then TSTRING else tag
  }

  lemma SetMember(s: GetOrderResp, id: int, v: Value)
    requires 1 <= id <= 4 && Tag(v) == ReadTag(0, id)
    ensures Values(s)[id - 1 := v] == Values(WithField(s, id, v))
  {
  }

  lemma ReadsMember(tag: byte, id: int, b: bytes)
    requires 1 <= id <= 4
    ensures TakeField(RespFields()[id - 1].typ, b) == TakeValue(ReadTag(tag, id), b)
  {
    hide TakeValue;
  }

  /** What the loop returns when the struct is s and b is still unread. */
  ghost function Decoding(s: GetOrderResp, b: bytes): Result<seq<Value>, Error> {
    DecodeRest(RespFields(), Values(s), b)
  }

  /** One turn of the loop, for this struct. */
  lemma OrderTurn(s: GetOrderResp, b: bytes)
    ensures var h := TakeHeader(b);
            if h.out.Err? then Decoding(s, b) == Err(h.out.error)
            else if h.out.value.0 == TSTOP then Decoding(s, b) == Ok(Values(s))
            else
              var v := TakeValue(ReadTag(h.out.value.0, h.out.value.1), h.rest);
              if v.out.Err? then Decoding(s, b) == Err(v.out.error)
              else |v.rest| < |b| && Decoding(s, b) == Decoding(WithField(s, h.out.value.1, v.out.value), v.rest)
  {
    hide TakeHeader, TakeValue, TakeField, DecodeRest, FieldIndex, RespFields, Values;
    DecodeTurn(RespFields(), Values(s), b);
    var h := TakeHeader(b);
    if h.out.Ok? && h.out.value.0 != TSTOP {
      var tag, id := h.out.value.0, h.out.value.1;
      FieldPositions(id);
      if 1 <= id <= 4 {
        ReadsMember(tag, id, h.rest);
        var v := TakeValue(ReadTag(tag, id), h.rest);
        TakeValueFits(ReadTag(tag, id), h.rest);
        if v.out.Ok? {
          SetMember(s, id, v.out.value);
        }
      }
    }
  }

  lemma FromZero(body: bytes)
    ensures DecodeStruct(RespFields(), body) == Decoding(GetOrderResp(0, 0, [], []), body)
  {
    assert Values(GetOrderResp(0, 0, [], [])) == Zero(RespFields());
  }

  method DecodeGetOrderResp(body: bytes) returns (r: Result<GetOrderResp, Error>)
    ensures DecodeStruct(RespFields(), body) == if r.Ok? then Ok(Values(r.value)) else Err(r.error)
  {
    hide TakeHeader, TakeValue, Decoding, RespFields, Values, DecodeStruct;
    FromZero(body);
    var rd := new Reader(body);
    var s := GetOrderResp(0, 0, [], []);
    while true
      invariant fresh(rd) && rd.Valid()
      invariant Decoding(s, rd.Rest()) == DecodeStruct(RespFields(), body)
      decreases |rd.Rest()|
    {
      OrderTurn(s, rd.Rest());
      var h := rd.NextField();
      if h.Err? {
        return Err(h.error);
      }
      var (typ, id) := h.value;
      if typ == TSTOP {
        break;
      }
      if id == 1 || id == 2 {
        var n := rd.ReadI64();
        if n.Err? {
          return Err(n.error);
        }
        s := if id == 1 then s.(id := n.value) else s.(userId := n.value);
      } else if id == 3 || id == 4 {
        var t := rd.ReadString();
        if t.Err? {
          return Err(t.error);
        }
        s := if id == 3 then s.(status := t.value) else s.(userName := t.value);
      } else {
        var err := rd.Skip(typ);
        if err.Some? {
          return Err(err.value);
        }
      }
    }
    r := Ok(s);
  }

  /** Whatever follows, the decoder returns the response that was encoded, if its strings have lengths under 2^32. */
  lemma GetOrderRespRoundTrip(s: GetOrderResp, tail: bytes)
    requires |s.status| < TWO_32 && |s.userName| < TWO_32
    ensures DecodeStruct(RespFields(), Body(TypedEntries(RespFields(), Values(s))) + tail) == Ok(Values(s))
  {
    RoundTrip(RespFields(), Values(s), tail);
  }

  /** The members under their names in the IDL, as the generic client takes and returns them. */
  function Named(s: GetOrderResp): map<string, Generic.Any> {
    map["id" := Generic.Int64(s.id), "userId" := Generic.Int64(s.userId), "status" := Generic.Text(s.status),
        "userName" := Generic.Text(s.userName)]
  }

  lemma NamedIs(s: GetOrderResp)
    ensures SameData(RespFields(), Values(s), Named(s))
    ensures DistinctIds(RespFields()) && DistinctNames(RespFields())
  {
    assert "id"[0] != "userId"[0] && "status"[0] != "userId"[0] && "id"[0] != "status"[0];
    assert |"userId"| != |"userName"|;
  }

  /** The generic client writes the same entries. */
  lemma GenericWritesSame(s: GetOrderResp)
    ensures Generic.Entries(RespFields(), Named(s)) == Ok(TypedEntries(RespFields(), Values(s)))
  {
    NamedIs(s);
    SameEntries(RespFields(), Values(s), Named(s));
  }

  function Read(s: GetOrderResp): map<string, Value> {
    map["id" := I64(s.id), "userId" := I64(s.userId), "status" := Str(s.status), "userName" := Str(s.userName)]
  }

  /** What each field carries. */
  lemma CarriedNamed(s: GetOrderResp, k: nat)
    requires k < 4
    ensures var f := RespFields()[k];
            && f in RespFields() && Generic.Carried(f, Named(s)) == Some(Values(s)[k])
            && f.name in Read(s) && Read(s)[f.name] == Values(s)[k]
  {
    NamedIs(s);
    GenericProperties.CarriedValue(RespFields()[k], Named(s));
  }

  lemma OnlyTheseNames(s: GetOrderResp, name: string)
    ensures name in Read(s) <==> exists k :: 0 <= k < 4 && RespFields()[k].name == name
  {
    assert RespFields()[0].name == "id" && RespFields()[1].name == "userId";
    assert RespFields()[2].name == "status" && RespFields()[3].name == "userName";
  }

  lemma RestoredIsRead(s: GetOrderResp, out: map<string, Value>)
    requires GenericProperties.Restored(RespFields(), Named(s), Ok(out))
    ensures out == Read(s)
  {
    hide Read, Named, Values, Generic.Carried;
    var fields := RespFields();
    forall name
      ensures name in out <==> name in Read(s)
      ensures name in out ==> out[name] == Read(s)[name]
    {
      OnlyTheseNames(s, name);
      if name in out {
        var k :| 0 <= k < 4 && fields[k].name == name;
        CarriedNamed(s, k);
      }
      if name in Read(s) {
        var k :| 0 <= k < 4 && fields[k].name == name;
        CarriedNamed(s, k);
      }
    }
  }

  lemma NamedWritable(s: GetOrderResp)
    requires |s.status| < TWO_32 && |s.userName| < TWO_32
    ensures GenericProperties.WritableFields(RespFields(), Named(s)) && Generic.Encodable(RespFields(), Named(s))
  {
    hide Named, Generic.Carried;
    forall f | f in RespFields()
      ensures Generic.Carried(f, Named(s)).Some? && IdFits(f.id) && Fits(Generic.Carried(f, Named(s)).value)
    {
      var k :| 0 <= k < 4 && RespFields()[k] == f;
      CarriedNamed(s, k);
    }
    GenericWritesSame(s);
    GenericProperties.EntriesOkIff(RespFields(), Named(s));
  }

  /** And it reads the response by these names. */
  lemma GenericReadsSame(s: GetOrderResp, tail: bytes)
    requires |s.status| < TWO_32 && |s.userName| < TWO_32
    ensures Generic.DecodeFields(RespFields(), Body(TypedEntries(RespFields(), Values(s))) + tail)
         == Ok(map["id" := I64(s.id), "userId" := I64(s.userId), "status" := Str(s.status),
                   "userName" := Str(s.userName)])
  {
    hide Generic.DecodeFields, Generic.Entries, Generic.Encodable, DistinctIds, DistinctNames, Body, Named, RespFields;
    NamedIs(s);
    NamedWritable(s);
    GenericWritesSame(s);
    GenericProperties.RoundTripIff(RespFields(), Named(s), tail);
    var r := Generic.DecodeFields(RespFields(), Body(TypedEntries(RespFields(), Values(s))) + tail);
    RestoredIsRead(s, r.value);
  }
}
