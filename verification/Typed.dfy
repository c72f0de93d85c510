/** The code that cmd/gen/main.go emits for a struct: a codec over a Go struct with one member per field. */
module Typed {
  import opened Wrappers
  import opened Bytes
  import opened Wire
  import opened Idl
  import opened Codec
  import opened Generic
  import opened GenericProperties

  /** A Go struct value: one value per field, in field order, each of the field's type. */
  predicate WellTyped(fields: seq<Field>, vals: seq<Value>) {
    |vals| == |fields| && forall k :: 0 <= k < |fields| ==> TypeTag(fields[k].typ) == Some(Tag(vals[k]))
  }

  function ZeroValue(typ: string): Value {
    if typ == "i64" then I64(0) else if typ == "string" then Str([]) else Bool(false)
  }

  /** A freshly allocated struct. */
  function Zero(fields: seq<Field>): (r: seq<Value>)
    ensures |r| == |fields|
  {
    seq(|fields|, k requires 0 <= k < |fields| => ZeroValue(fields[k].typ))
  }

  function TypedEntries(fields: seq<Field>, vals: seq<Value>): seq<Entry>
    requires |vals| == |fields|
  {
    seq(|fields|, k requires 0 <= k < |fields| => Entry(fields[k].id, vals[k]))
  }

  method Encode(fields: seq<Field>, vals: seq<Value>) returns (body: bytes)
    requires WellTyped(fields, vals)
    ensures body == Body(TypedEntries(fields, vals))
  {
    hide EncodeEntries, FieldBytes;
    var w := new Writer();
    ghost var es := TypedEntries(fields, vals);
    assert EncodeEntries([]) == [] by { EncodeNothing(); }
    for k := 0 to |fields|
      invariant fresh(w)
      invariant w.buf == EncodeEntries(es[..k])
    {
      EncodeNext(es, k);
      if fields[k].typ == "i64" {
        w.FieldI64(fields[k].id, vals[k].i);
      } else if fields[k].typ == "string" {
        w.FieldString(fields[k].id, vals[k].s);
      } else if fields[k].typ == "bool" {
        w.FieldBool(fields[k].id, vals[k].b);
      }
    }
    assert es[..|fields|] == es;
    w.Stop();
    body := w.buf;
  }

  /** The assignments to the struct's members, in the order the hits were read. */
  function Assign(vals: seq<Value>, hits: seq<Hit>): (r: seq<Value>)
    requires forall h :: h in hits ==> h.k < |vals|
    ensures |r| == |vals|
    decreases |hits|
  {
    if hits == [] then vals else Assign(vals[hits[0].k := hits[0].val], hits[1..])
  }

  /** What the emitted loop returns when the struct is vals and s is still unread. */
  function DecodeRest(fields: seq<Field>, vals: seq<Value>, s: bytes): Result<seq<Value>, Error>
    requires |vals| == |fields|
  {
    HitsPlausible(fields, s);
    match Scan(fields, s).out
    case Err(e) => Err(e)
    case Ok(hits) => Ok(Assign(vals, hits))
  }

  function DecodeStruct(fields: seq<Field>, body: bytes): Result<seq<Value>, Error> {
    DecodeRest(fields, Zero(fields), body)
  }

  lemma DecodeTurn(fields: seq<Field>, vals: seq<Value>, s: bytes)
    requires |vals| == |fields|
    ensures var h := TakeHeader(s);
            if h.out.Err? then DecodeRest(fields, vals, s) == Err(h.out.error)
            else if h.out.value.0 == TSTOP then DecodeRest(fields, vals, s) == Ok(vals)
            else
              var k := FieldIndex(fields, h.out.value.1);
              var v := if k.Some? then TakeField(fields[k.value].typ, h.rest) else TakeValue(h.out.value.0, h.rest);
              if v.out.Err? then DecodeRest(fields, vals, s) == Err(v.out.error)
              else
                && |v.rest| < |s|
                && DecodeRest(fields, vals, s)
                == DecodeRest(fields, if k.Some? then vals[k.value := v.out.value] else vals, v.rest)
  {
    hide TakeHeader, TakeValue, TakeField;
    TurnConsumes(fields, s);
    var t := Turn(fields, s);
    HitsPlausible(fields, s);
    if t.out.Ok? && t.out.value.Some? {
      var later := Scan(fields, t.rest).out;
      HitsPlausible(fields, t.rest);
      if later.Ok? {
        if t.out.value.value == [] {
          assert [] + later.value == later.value;
        } else {
          var h := t.out.value.value[0];
          assert ([h] + later.value)[1..] == later.value;
        }
      }
    }
  }

  method Decode(fields: seq<Field>, body: bytes) returns (r: Result<seq<Value>, Error>)
    requires Supported(fields)
    ensures r == DecodeStruct(fields, body)
  {
    var rd := new Reader(body);
    var vals := Zero(fields);
    hide TakeHeader, TakeValue, DecodeRest, FieldIndex, Zero;
    while true
      invariant fresh(rd) && rd.Valid() && |vals| == |fields|
      invariant DecodeRest(fields, vals, rd.Rest()) == DecodeRest(fields, Zero(fields), body)
      decreases |rd.Rest()|
    {
      DecodeTurn(fields, vals, rd.Rest());
      var h := rd.NextField();
      if h.Err? {
        return Err(h.error);
      }
      var (typ, id) := h.value;
      if typ == TSTOP {
        break;
      }
      var k := FieldByID(Struct("", fields), id);
      if k.None? {
        var err := rd.Skip(typ);
        if err.Some? {
          return Err(err.value);
        }
      } else if fields[k.value].typ == "i64" {
        var n := rd.ReadI64();
        if n.Err? {
          return Err(n.error);
        }
        vals := vals[k.value := I64(n.value)];
      } else if fields[k.value].typ == "string" {
        var str := rd.ReadString();
        if str.Err? {
          return Err(str.error);
        }
        vals := vals[k.value := Str(str.value)];
      } else {
        assert fields[k.value] in fields;
        var b := rd.ReadBool();
        if b.Err? {
          return Err(b.error);
        }
        vals := vals[k.value := Bool(b.value)];
      }
    }
    r := Ok(vals);
  }

  // ----- Properties -----

  lemma {:induction false} AssignGives(vals: seq<Value>, hits: seq<Hit>, k: nat, v: Value)
    requires k < |vals| && forall h :: h in hits ==> h.k < |vals|
    ensures (forall h :: h in hits ==> h.k != k) ==> Assign(vals, hits)[k] == vals[k]
    ensures (forall h :: h in hits && h.k == k ==> h.val == v) && ((exists h :: h in hits && h.k == k) || vals[k] == v)
        ==> Assign(vals, hits)[k] == v
    decreases |hits|
  {
    if hits != [] {
      assert hits == [hits[0]] + hits[1..];
      AssignGives(vals[hits[0].k := hits[0].val], hits[1..], k, v);
    }
  }

  /** What Go gives a member that is not assigned. */
  predicate IsZero(typ: string, v: Value) {
    (typ == "i64" ==> v == I64(0)) && (typ == "string" ==> v == Str([])) && (typ == "bool" ==> v == Bool(false))
  }

  /** The member of a field of T after decoding what S wrote from m: the shared value, or zero. */
  predicate MemberIs(S: seq<Field>, t: Field, m: map<string, Any>, v: Value) {
    && (forall s :: s in S && s.id == t.id && Carried(s, m).Some? ==> v == Carried(s, m).value)
    && ((forall s :: s in S && s.id == t.id ==> Carried(s, m).None?) ==> IsZero(t.typ, v))
  }

  /**
   * Schema evolution for the generated decoder: every member of a field that the writer knew and gave holds
   * its value, every other member is zero, whatever follows the stop tag.
   */
  lemma SchemaEvolution(S: seq<Field>, T: seq<Field>, m: map<string, Any>, tail: bytes)
    requires DistinctIds(S) && DistinctIds(T)
    requires Encodable(S, m) && AgreeOnShared(S, T) && WritableFields(S, m)
    ensures Entries(S, m).Ok?
    ensures var r := DecodeStruct(T, Body(Entries(S, m).value) + tail);
            r.Ok? && |r.value| == |T| && forall k :: 0 <= k < |T| ==> MemberIs(S, T[k], m, r.value[k])
  {
    WrittenEntriesAgree(S, T, m);
    var es := Entries(S, m).value;
    ScanOfBody(T, es, tail);
    HitsPlausible(T, Body(es) + tail);
    forall k | 0 <= k < |T|
      ensures MemberIs(S, T[k], m, Assign(Zero(T), Known(T, es))[k])
    {
      AssignedMember(S, T, m, Known(T, es), k);
    }
  }

  lemma AssignedMember(S: seq<Field>, T: seq<Field>, m: map<string, Any>, hits: seq<Hit>, k: nat)
    requires DistinctIds(S) && DistinctIds(T) && k < |T|
    requires Entries(S, m).Ok? && hits == Known(T, Entries(S, m).value)
    requires forall h :: h in hits ==> h.k < |T|
    ensures MemberIs(S, T[k], m, Assign(Zero(T), hits)[k])
  {
    hide Assign, Known, Entries, Carried;
    AssignGives(Zero(T), hits, k, I64(0));
    if h :| h in hits && h.k == k {
      KnownShared(S, T, m, h);
    }
    forall s | s in S && s.id == T[k].id && Carried(s, m).Some?
      ensures Assign(Zero(T), hits)[k] == Carried(s, m).value
    {
      var v := Carried(s, m).value;
      KnownShared(S, T, m, Hit(k, v));
      forall h | h in hits && h.k == k
        ensures h.val == v
      {
        KnownShared(S, T, m, h);
      }
      AssignGives(Zero(T), hits, k, v);
    }
  }

  // ----- "The server cannot tell which client you used" -----

  function ToAny(v: Value): Any {
    match v
    case I64(i) => Int64(i)
    case Str(s) => Text(s)
    case Bool(b) => Flag(b)
  }

  /** m gives every field, and gives it the value of the struct. */
  predicate SameData(fields: seq<Field>, vals: seq<Value>, m: map<string, Any>) {
    |vals| == |fields| && forall k :: 0 <= k < |fields| ==> fields[k].name in m && m[fields[k].name] == ToAny(vals[k])
  }

  /** Every struct value has such a map, and only the field names need to be distinct. */
  lemma {:induction false} SomeMapHasSameData(fields: seq<Field>, vals: seq<Value>) returns (m: map<string, Any>)
    requires WellTyped(fields, vals) && DistinctNames(fields)
    ensures SameData(fields, vals, m)
  {
    if fields == [] {
      m := map[];
    } else {
      m := SomeMapHasSameData(fields[1..], vals[1..]);
      var rest := m;
      m := m[fields[0].name := ToAny(vals[0])];
      forall k | 0 <= k < |fields|
        ensures fields[k].name in m && m[fields[k].name] == ToAny(vals[k])
      {
        if k > 0 {
          assert fields[1..][k - 1] == fields[k] && vals[1..][k - 1] == vals[k];
        }
      }
    }
  }

  lemma FirstConverts(fields: seq<Field>, vals: seq<Value>, m: map<string, Any>)
    requires fields != [] && WellTyped(fields, vals) && SameData(fields, vals, m)
    ensures Given(fields[0], m) && Convert(fields[0].typ, m[fields[0].name]) == Ok(vals[0])
  {
  }

  /** The generic encoder walks a full map to exactly the entries that the generated encoder writes. */
  lemma {:induction false} SameEntries(fields: seq<Field>, vals: seq<Value>, m: map<string, Any>)
    requires WellTyped(fields, vals) && SameData(fields, vals, m)
    ensures Entries(fields, m) == Ok(TypedEntries(fields, vals))
  {
    if fields != [] {
      SameEntries(fields[1..], vals[1..], m);
      FirstConverts(fields, vals, m);
      hide Convert, ToAny, TypeTag;
      assert TypedEntries(fields, vals) == [Entry(fields[0].id, vals[0])] + TypedEntries(fields[1..], vals[1..]);
    }
  }

  /** The bytes of the generic call are those of the typed call, as a map and as JSON. */
  lemma SameBytes(spec: Spec, name: string, vals: seq<Value>, m: map<string, Any>)
    requires name in spec.structs
    requires WellTyped(spec.structs[name].fields, vals) && SameData(spec.structs[name].fields, vals, m)
    ensures EncodeInput(spec, name, MapInput(m)) == Ok(Body(TypedEntries(spec.structs[name].fields, vals)))
    ensures EncodeInput(spec, name, Json(Some(m))) == Ok(Body(TypedEntries(spec.structs[name].fields, vals)))
  {
    SameEntries(spec.structs[name].fields, vals, m);
  }

  /** The struct holds what the map holds, and zero values where the map has no entry. */
  predicate SameFields(fields: seq<Field>, vals: seq<Value>, out: map<string, Value>) {
    && |vals| == |fields|
    && (forall k :: 0 <= k < |fields| ==>
          if fields[k].name in out then vals[k] == out[fields[k].name] else IsZero(fields[k].typ, vals[k]))
    && forall x :: x in out ==> exists f :: f in fields && f.name == x
  }

  lemma {:induction false} AssignSame(fields: seq<Field>, vals: seq<Value>, out: map<string, Value>, hits: seq<Hit>)
    requires DistinctNames(fields) && SameFields(fields, vals, out) && forall h :: h in hits ==> h.k < |fields|
    ensures SameFields(fields, Assign(vals, hits), Generic.Assign(fields, out, hits))
    decreases |hits|
  {
    if hits != [] {
      var h := hits[0];
      assert h in hits && fields[h.k] in fields;
      AssignSame(fields, vals[h.k := h.val], out[fields[h.k].name := h.val], hits[1..]);
    }
  }

  /**
   * On every byte string the generated and the generic decoder fail with the same error, or return the same fields
   * with the same values.
   */
  lemma SameDecoded(fields: seq<Field>, body: bytes)
    requires DistinctNames(fields)
    ensures DecodeStruct(fields, body).Ok? <==> DecodeFields(fields, body).Ok?
    ensures if DecodeStruct(fields, body).Ok?
            then SameFields(fields, DecodeStruct(fields, body).value, DecodeFields(fields, body).value)
            else DecodeStruct(fields, body).error == DecodeFields(fields, body).error
  {
    hide Scan;
    HitsPlausible(fields, body);
    if Scan(fields, body).out.Ok? {
      AssignSame(fields, Zero(fields), map[], Scan(fields, body).out.value);
    }
  }

  predicate WritableStruct(fields: seq<Field>, vals: seq<Value>) {
    |vals| == |fields| && forall k :: 0 <= k < |fields| ==> IdFits(fields[k].id) && Fits(vals[k])
  }

  /** The generated decoder undoes the generated encoder. */
  lemma RoundTrip(fields: seq<Field>, vals: seq<Value>, tail: bytes)
    requires DistinctIds(fields) && WellTyped(fields, vals) && WritableStruct(fields, vals)
    ensures DecodeStruct(fields, Body(TypedEntries(fields, vals)) + tail) == Ok(vals)
  {
    var es := TypedEntries(fields, vals);
    forall e | e in es
      ensures Writable(e) && Agrees(fields, e)
    {
      var k :| 0 <= k < |es| && es[k] == e;
      FieldIndexOf(fields, k);
    }
    ScanOfBody(fields, es, tail);
    HitsPlausible(fields, Body(es) + tail);
    var hits := Known(fields, es);
    var r := Assign(Zero(fields), hits);
    forall k | 0 <= k < |fields|
      ensures r[k] == vals[k]
    {
      FieldIndexOf(fields, k);
      assert es[k].val == vals[k];
      KnownHas(fields, es, Hit(k, vals[k]));
      forall h | h in hits && h.k == k
        ensures h.val == vals[k]
      {
        KnownHas(fields, es, h);
        var i :| 0 <= i < |es| && FieldIndex(fields, es[i].id) == Some(h.k) && es[i].val == h.val;
        FieldIndexOf(fields, i);
      }
      AssignGives(Zero(fields), hits, k, vals[k]);
    }
    assert r == vals;
  }
}
