/** The codec driven by an IDL value at run time: generic/generic.go. */
module Generic {
  import opened Wrappers
  import opened Bytes
  import opened Wire
  import opened Idl
  import opened Codec

  /**
   * A dynamically typed Go value. Float holds a float64 that is exactly an integer; Number, a json.Number with the
   * outcome of its Int64().
   */
  datatype Any =
    | Int64(i: int64)
    | Float(f: int64)
    | Number(parsed: Option<int64>)
    | Text(s: bytes)
    | Flag(b: bool)
    | Nil
    | Other

  /** What Encode accepts: raw bytes, a map, a JSON string (with the map it parses to), or something else. */
  datatype Input =
    | Raw(body: bytes)
    | MapInput(m: map<string, Any>)
    | Json(parsed: Option<map<string, Any>>)
    | OtherInput

  function AsI64(v: Any): Result<int64, Error> {
    match v
    case Int64(i) => Ok(i)
    case Float(f) => Ok(f)
    case Number(Some(i)) => Ok(i)
    case _ => Err(WrongKind)
  }

  function AsMap(v: Input): Result<map<string, Any>, Error> {
    match v
    case MapInput(m) => Ok(m)
    case Json(Some(m)) => Ok(m)
    case Json(None) => Err(BadJson)
    case _ => Err(NotAMap)
  }

  /** The wire value of v for a field of type typ. */
  function Convert(typ: string, v: Any): Result<Value, Error> {
    match TypeTag(typ)
    case None => Err(UnsupportedType(typ))
    case Some(tag) =>
      if tag == TI64 then
        match AsI64(v)
        case Ok(i) => Ok(I64(i))
        case Err(e) => Err(e)
      else if tag == TSTRING then
        if v.Text? then Ok(Str(v.s)) else Err(WrongKind)
      else
        if v.Flag? then Ok(Bool(v.b)) else Err(WrongKind)
  }

  /** The field is in the map with a non-nil value. */
  predicate Given(f: Field, m: map<string, Any>) {
    f.name in m && m[f.name] != Nil
  }

  /** The value has the shape that a field of this type takes. */
  predicate OfKind(typ: string, v: Any) {
    && (typ == "i64" ==> v.Int64? || v.Float? || (v.Number? && v.parsed.Some?))
    && (typ == "string" ==> v.Text?)
    && (typ == "bool" ==> v.Flag?)
  }

  /** Every given value has the shape of its field; whether the type is supported does not matter. */
  predicate KindCorrect(fields: seq<Field>, m: map<string, Any>) {
    forall f :: f in fields && Given(f, m) ==> OfKind(f.typ, m[f.name])
  }

  predicate GivenSupported(fields: seq<Field>, m: map<string, Any>) {
    forall f :: f in fields && Given(f, m) ==> TypeTag(f.typ).Some?
  }

  /** Both at once: every given value converts. */
  predicate Encodable(fields: seq<Field>, m: map<string, Any>) {
    forall f :: f in fields && Given(f, m) ==> Convert(f.typ, m[f.name]).Ok?
  }

  /** The value that m carries for the field, if any. */
  function Carried(f: Field, m: map<string, Any>): Option<Value> {
    if !Given(f, m) then None
    else
      match Convert(f.typ, m[f.name])
      case Ok(v) => Some(v)
      case Err(_) => None
  }

  function Entries(fields: seq<Field>, m: map<string, Any>): Result<seq<Entry>, Error> {
    if fields == [] then Ok([])
    else if !Given(fields[0], m) then Entries(fields[1..], m)
    else
      match Convert(fields[0].typ, m[fields[0].name])
      case Err(e) => Err(e)
      case Ok(v) =>
        match Entries(fields[1..], m)
        case Err(e) => Err(e)
        case Ok(es) => Ok([Entry(fields[0].id, v)] + es)
  }

  function EncodeInput(spec: Spec, structName: string, v: Input): Result<bytes, Error> {
    if v.Raw? then Ok(v.body)
    else if structName !in spec.structs then Err(UnknownStruct(structName))
    else
      match AsMap(v)
      case Err(e) => Err(e)
      case Ok(m) =>
        match Entries(spec.structs[structName].fields, m)
        case Err(e) => Err(e)
        case Ok(es) => Ok(Body(es))
  }

  function Assign(fields: seq<Field>, out: map<string, Value>, hits: seq<Hit>): map<string, Value>
    requires forall h :: h in hits ==> h.k < |fields|
    decreases |hits|
  {
    if hits == [] then out
    else Assign(fields, out[fields[hits[0].k].name := hits[0].val], hits[1..])
  }

  /** What the decode loop returns when out has been collected and s is still unread. */
  function DecodeRest(fields: seq<Field>, out: map<string, Value>, s: bytes): Result<map<string, Value>, Error> {
    HitsPlausible(fields, s);
    match Scan(fields, s).out
    case Err(e) => Err(e)
    case Ok(hits) => Ok(Assign(fields, out, hits))
  }

  function DecodeFields(fields: seq<Field>, body: bytes): Result<map<string, Value>, Error> {
    DecodeRest(fields, map[], body)
  }

  // ----- The methods -----

  method WriteField(w: Writer, f: Field, v: Any) returns (err: Option<Error>)
    modifies w
    ensures match Convert(f.typ, v)
            case Err(e) => err == Some(e) && w.buf == old(w.buf)
            case Ok(val) => err == None && w.buf == old(w.buf) + FieldBytes(f.id, val)
  {
    if f.typ == "i64" {
      var n := AsI64(v);
      if n.Err? {
        return Some(n.error);
      }
      w.FieldI64(f.id, n.value);
    } else if f.typ == "string" {
      if !v.Text? {
        return Some(WrongKind);
      }
      w.FieldString(f.id, v.s);
    } else if f.typ == "bool" {
      if !v.Flag? {
        return Some(WrongKind);
      }
      w.FieldBool(f.id, v.b);
    } else {
      return Some(UnsupportedType(f.typ));
    }
    return None;
  }

  ghost function Written(buf: bytes, r: Result<seq<Entry>, Error>): Result<bytes, Error> {
    match r
    case Err(e) => Err(e)
    case Ok(es) => Ok(buf + EncodeEntries(es))
  }

  lemma WrittenStep(buf: bytes, f: Field, fields: seq<Field>, m: map<string, Any>)
    requires fields != [] && fields[0] == f && Given(f, m)
    ensures match Convert(f.typ, m[f.name])
            case Err(e) => Entries(fields, m) == Err(e)
            case Ok(v) =>
              Written(buf, Entries(fields, m)) == Written(buf + FieldBytes(f.id, v), Entries(fields[1..], m))
  {
    match Convert(f.typ, m[f.name])
    case Err(_) =>
    case Ok(v) =>
      match Entries(fields[1..], m)
      case Err(_) =>
      case Ok(es) =>
        var all := [Entry(f.id, v)] + es;
        assert all[1..] == es;
        assert buf + EncodeEntries(all) == buf + FieldBytes(f.id, v) + EncodeEntries(es);
  }

  method Encode(spec: Spec, structName: string, v: Input) returns (r: Result<bytes, Error>)
    ensures r == EncodeInput(spec, structName, v)
  {
    if v.Raw? {
      return Ok(v.body);
    }
    if structName !in spec.structs {
      return Err(UnknownStruct(structName));
    }
    var fields := spec.structs[structName].fields;
    var parsed := AsMap(v);
    if parsed.Err? {
      return Err(parsed.error);
    }
    var m := parsed.value;
    var w := new Writer();
    for k := 0 to |fields|
      invariant fresh(w)
      invariant Written(w.buf, Entries(fields[k..], m)) == Written([], Entries(fields, m))
    {
      var f := fields[k];
      assert fields[k..][1..] == fields[k + 1..];
      if Given(f, m) {
        WrittenStep(w.buf, f, fields[k..], m);
        var err := WriteField(w, f, m[f.name]);
        if err.Some? {
          return Err(err.value);
        }
      }
    }
    assert fields[|fields|..] == [] && w.buf + EncodeEntries([]) == w.buf;
    assert forall es :: [] + EncodeEntries(es) == EncodeEntries(es);
    w.Stop();
    r := Ok(w.buf);
  }

  method ReadValue(r: Reader, typ: string) returns (v: Result<Value, Error>)
    requires r.Valid()
    modifies r`i
    ensures r.Valid() && Step(v, r.Rest()) == TakeField(typ, old(r.Rest()))
  {
    if typ == "i64" {
      var n := r.ReadI64();
      v := if n.Ok? then Ok(I64(n.value)) else Err(n.error);
    } else if typ == "string" {
      var s := r.ReadString();
      v := if s.Ok? then Ok(Str(s.value)) else Err(s.error);
    } else if typ == "bool" {
      var b := r.ReadBool();
      v := if b.Ok? then Ok(Bool(b.value)) else Err(b.error);
    } else {
      v := Err(UnsupportedType(typ));
    }
  }

  /** The loop ends on every byte string: each turn leaves the reader strictly fewer unread bytes. */
  method Decode(spec: Spec, structName: string, body: bytes) returns (r: Result<map<string, Value>, Error>)
    ensures r == if structName in spec.structs then DecodeFields(spec.structs[structName].fields, body)
                 else Err(UnknownStruct(structName))
  {
    if structName !in spec.structs {
      return Err(UnknownStruct(structName));
    }
    var fields := spec.structs[structName].fields;
    var rd := new Reader(body);
    var out: map<string, Value> := map[];
    hide TakeHeader, TakeValue, TakeField, DecodeRest, FieldIndex;
    while true
      invariant fresh(rd) && rd.Valid()
      invariant DecodeRest(fields, out, rd.Rest()) == DecodeRest(fields, map[], body)
      decreases |rd.Rest()|
    {
      DecodeTurn(fields, out, rd.Rest());
      var h := rd.NextField();
      if h.Err? {
        return Err(h.error);
      }
      var (typ, id) := h.value;
      if typ == TSTOP {
        break;
      }
      var k := FieldByID(spec.structs[structName], id);
      if k.None? {
        var err := rd.Skip(typ);
        if err.Some? {
          return Err(err.value);
        }
      } else {
        var val := ReadValue(rd, fields[k.value].typ);
        if val.Err? {
          return Err(val.error);
        }
        out := out[fields[k.value].name := val.value];
      }
    }
    r := Ok(out);
  }

  /** How one turn of the loop changes the collected map and the unread bytes. */
  lemma DecodeTurn(fields: seq<Field>, out: map<string, Value>, s: bytes)
    ensures var h := TakeHeader(s);
            if h.out.Err? then DecodeRest(fields, out, s) == Err(h.out.error)
            else if h.out.value.0 == TSTOP then DecodeRest(fields, out, s) == Ok(out)
            else
              var k := FieldIndex(fields, h.out.value.1);
              var v := if k.Some? then TakeField(fields[k.value].typ, h.rest) else TakeValue(h.out.value.0, h.rest);
              if v.out.Err? then DecodeRest(fields, out, s) == Err(v.out.error)
              else
                && |v.rest| < |s|
                && DecodeRest(fields, out, s)
                == DecodeRest(fields, if k.Some? then out[fields[k.value].name := v.out.value] else out, v.rest)
  {
    hide TakeHeader, TakeValue, TakeField;
    TurnConsumes(fields, s);
    var t := Turn(fields, s);
    HitsPlausible(fields, s);
    if t.out.Ok? && t.out.value.Some? {
      var later := Scan(fields, t.rest).out;
      HitsPlausible(fields, t.rest);
      if later.Ok? {
        if t.out.value.value == [] {
          assert [] + later.value == later.value;
        } else {
          AssignStep(fields, out, t.out.value.value[0], later.value);
        }
      }
    }
  }

  lemma AssignStep(fields: seq<Field>, out: map<string, Value>, h: Hit, hits: seq<Hit>)
    requires forall x :: x in [h] + hits ==> x.k < |fields|
    ensures Assign(fields, out, [h] + hits) == Assign(fields, out[fields[h.k].name := h.val], hits)
  {
    assert ([h] + hits)[1..] == hits;
  }
}
