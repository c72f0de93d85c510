/** The second implementation of the body format: encode_struct and decode_struct of example/py/client.py. */
module PyClient {
  import opened Wrappers
  import opened Bytes
  import opened Wire
  import opened Idl
  import opened Codec
  import opened Generic
  import opened GenericProperties

  /** A Python str is held as its UTF-8 bytes; an int has no width. */
  datatype PyValue = PyNone | PyInt(n: int) | PyBool(flag: bool) | PyStr(utf8: bytes) | PyOther

  /** The exceptions: struct.error, ValueError, IndexError and UnicodeDecodeError. */
  datatype PyError = StructError | ValueError | IndexError | DecodeError

  /** int(v), str(v).encode() and truth testing of a value of any type. */
  datatype Coercions = Coercions(toInt: PyValue -> Result<int, PyError>, toText: PyValue -> bytes,
                                 truth: PyValue -> bool)

  /** The coercions are the identity on values that already have the right type. */
  ghost predicate Faithful(c: Coercions) {
    && (forall n: int :: c.toInt(PyInt(n)) == Ok(n))
    && (forall s: bytes :: c.toText(PyStr(s)) == s)
    && (forall b: bool :: c.truth(PyBool(b)) == b)
  }

  /** struct.pack refuses a number that its format cannot hold. */
  function Pack(f: Field, v: Value): Result<bytes, PyError> {
    if IdFits(f.id) && Fits(v) then Ok(FieldBytes(f.id, v)) else Err(StructError)
  }

  function EncodeField(f: Field, v: PyValue, c: Coercions): Result<bytes, PyError> {
    if f.typ == "i64" then
      match c.toInt(v)
      case Err(e) => Err(e)
      case Ok(n) => if -0x8000_0000_0000_0000 <= n < 0x8000_0000_0000_0000 then Pack(f, I64(n)) else Err(StructError)
    else if f.typ == "string" then Pack(f, Str(c.toText(v)))
    else if f.typ == "bool" then Pack(f, Bool(c.truth(v)))
    else Err(ValueError)
  }

  function EncodeFields(fields: seq<Field>, data: map<string, PyValue>, c: Coercions): Result<bytes, PyError> {
    if fields == [] then Ok([TSTOP])
    else if fields[0].name !in data || data[fields[0].name] == PyNone then EncodeFields(fields[1..], data, c)
    else
      match EncodeField(fields[0], data[fields[0].name], c)
      case Err(e) => Err(e)
      case Ok(b) =>
        match EncodeFields(fields[1..], data, c)
        case Err(e) => Err(e)
        case Ok(rest) => Ok(b + rest)
  }

  ghost function After(out: bytes, r: Result<bytes, PyError>): Result<bytes, PyError> {
    match r
    case Err(e) => Err(e)
    case Ok(b) => Ok(out + b)
  }

  method EncodeStruct(fields: seq<Field>, data: map<string, PyValue>, c: Coercions) returns (r: Result<bytes, PyError>)
    ensures r == EncodeFields(fields, data, c)
  {
    var out: bytes := [];
    assert forall b: bytes :: [] + b == b;
    for k := 0 to |fields|
      invariant After(out, EncodeFields(fields[k..], data, c)) == EncodeFields(fields, data, c)
    {
      var f := fields[k];
      assert fields[k..][1..] == fields[k + 1..];
      if f.name in data && data[f.name] != PyNone {
        var b := EncodeField(f, data[f.name], c);
        if b.Err? {
          return Err(b.error);
        }
        assert forall rest: bytes :: out + (b.value + rest) == (out + b.value) + rest;
        out := out + b.value;
      }
    }
    assert fields[|fields|..] == [];
    r := Ok(out + [TSTOP]);
  }

  /** Such coercions exist. */
  lemma SomeCoercions() returns (c: Coercions)
    ensures Faithful(c)
  {
    c := Coercions((v: PyValue) => if v.PyInt? then Ok(v.n) else Err(ValueError),
                   (v: PyValue) => if v.PyStr? then v.utf8 else [],
                   (v: PyValue) => v.PyBool? && v.flag);
  }

  /** A given field of a type that the codec does not have makes it raise, whatever comes before. */
  lemma {:induction false} UnsupportedRaises(fields: seq<Field>, data: map<string, PyValue>, c: Coercions, f: Field)
    requires f in fields && f.name in data && data[f.name] != PyNone
    requires f.typ != "i64" && f.typ != "string" && f.typ != "bool"
    ensures EncodeFields(fields, data, c).Err?
  {
    if fields[0] != f {
      UnsupportedRaises(fields[1..], data, c, f);
    }
  }

  // ----- Decoding -----

  /** by_id is a dict, so a later field with the same id replaces an earlier one. */
  function ById(fields: seq<Field>, id: int): Option<nat> {
    if fields == [] then None
    else if fields[|fields| - 1].id == id then Some(|fields| - 1)
    else ById(fields[..|fields| - 1], id)
  }

  /** struct.unpack_from of a k-byte unsigned number. */
  function Unpack(body: bytes, i: nat, k: nat): Result<nat, PyError> {
    if i + k > |body| then Err(StructError) else Ok(FromBigEndian(body[i..i + k]))
  }

  /**
   * The value at i for a wire tag, and the index after it. A string is sliced, and a slice that runs past the
   * end is shortened silently; valid says which bytes decode as UTF-8.
   */
  function ReadAt(tag: byte, body: bytes, i: nat, valid: bytes -> bool): Result<(PyValue, nat), PyError> {
    PowersOf256();
    if tag == TI64 then
      match Unpack(body, i, 8)
      case Err(e) => Err(e)
      case Ok(n) => BigEndianOfNumber(body[i..i + 8]); Ok((PyInt(ToInt64(n)), i + 8))
    else if tag == TSTRING then
      match Unpack(body, i, 4)
      case Err(e) => Err(e)
      case Ok(n) =>
        var s := body[i + 4..if i + 4 + n <= |body| then i + 4 + n else |body|];
        if valid(s) then Ok((PyStr(s), i + 4 + n)) else Err(DecodeError)
    else if tag == TBOOL then
      if i >= |body| then Err(IndexError) else Ok((PyBool(body[i] == 1), i + 1))
    else Err(ValueError)
  }

  function Store(fields: seq<Field>, out: map<string, PyValue>, id: int, v: PyValue): map<string, PyValue> {
    match ById(fields, id)
    case Some(k) => if k < |fields| then out[fields[k].name := v] else out
    case None => out
  }

  function DecodeFrom(fields: seq<Field>, body: bytes, i: nat, out: map<string, PyValue>, valid: bytes -> bool)
    : Result<map<string, PyValue>, PyError>
    decreases if i < |body| then |body| - i else 0
  {
    if i >= |body| then Err(ValueError)
    else if body[i] == TSTOP then Ok(out)
    else
      match Unpack(body, i + 1, 2)
      case Err(e) => Err(e)
      case Ok(id) =>
        match ReadAt(body[i], body, i + 3, valid)
        case Err(e) => Err(e)
        case Ok(r) => DecodeFrom(fields, body, r.1, Store(fields, out, id, r.0), valid)
  }

  /** A field of a type that the format does not have makes it raise, wherever it stands. */
  lemma UnknownTypeRaises(fields: seq<Field>, body: bytes, i: nat, out: map<string, PyValue>, valid: bytes -> bool)
    requires i < |body| && body[i] > 3
    ensures DecodeFrom(fields, body, i, out, valid).Err?
  {
  }

  method DecodeStruct(fields: seq<Field>, body: bytes, valid: bytes -> bool)
    returns (r: Result<map<string, PyValue>, PyError>)
    ensures r == DecodeFrom(fields, body, 0, map[], valid)
  {
    var i := 0;
    var out: map<string, PyValue> := map[];
    while true
      invariant i >= 0
      invariant DecodeFrom(fields, body, i, out, valid) == DecodeFrom(fields, body, 0, map[], valid)
      decreases |body| - i
    {
      if i >= |body| {
        return Err(ValueError);
      }
      var typ := body[i];
      if typ == TSTOP {
        break;
      }
      var fid := Unpack(body, i + 1, 2);
      if fid.Err? {
        return Err(fid.error);
      }
      var val := ReadAt(typ, body, i + 3, valid);
      if val.Err? {
        return Err(val.error);
      }
      out := Store(fields, out, fid.value, val.value.0);
      i := val.value.1;
    }
    r := Ok(out);
  }

  // ----- The Python encoder writes the bytes of the Go encoders -----

  /** The Python value for a Go one; a JSON number is an int in Python and a float64 in Go. */
  function ToPy(v: Any): PyValue {
    match v
    case Int64(i) => PyInt(i)
    case Float(f) => PyInt(f)
    case Number(Some(i)) => PyInt(i)
    case Text(s) => PyStr(s)
    case Flag(b) => PyBool(b)
    case Nil => PyNone
    case _ => PyOther
  }

  function ToPyMap(m: map<string, Any>): map<string, PyValue> {
    map name | name in m :: ToPy(m[name])
  }

  /**
   * On data of the right kinds Python writes exactly the bytes of generic.Encode, except that it raises where
   * Go would silently truncate an id or a length: it succeeds exactly when every given field is writable.
   */
  lemma {:induction false} SameBytesIff(fields: seq<Field>, m: map<string, Any>, c: Coercions)
    requires Faithful(c) && Encodable(fields, m)
    ensures Entries(fields, m).Ok?
    ensures EncodeFields(fields, ToPyMap(m), c)
         == if WritableFields(fields, m) then Ok(Body(Entries(fields, m).value)) else Err(StructError)
  {
    hide EncodeField, Convert, FieldBytes, Faithful, Encodable, WritableFields;
    EntriesOkIff(fields, m);
    SplitFirst(fields, m);
    if fields == [] {
      assert Body([]) == [TSTOP];
    } else {
      var f, rest := fields[0], fields[1..];
      SameBytesIff(rest, m, c);
      EntriesOkIff(rest, m);
      if Given(f, m) {
        SameFieldBytes(f, m, c);
        var v, es := Carried(f, m).value, Entries(rest, m).value;
        assert ([Entry(f.id, v)] + es)[1..] == es;
        assert Body([Entry(f.id, v)] + es) == FieldBytes(f.id, v) + Body(es);
      }
    }
  }

  lemma SplitFirst(fields: seq<Field>, m: map<string, Any>)
    ensures fields == [] ==> WritableFields(fields, m)
    ensures fields != [] && Encodable(fields, m) ==>
              Encodable(fields[1..], m) && (Given(fields[0], m) ==> Convert(fields[0].typ, m[fields[0].name]).Ok?)
    ensures fields != [] ==>
              (WritableFields(fields, m)
               <==> (Carried(fields[0], m).Some? ==> IdFits(fields[0].id) && Fits(Carried(fields[0], m).value))
                    && WritableFields(fields[1..], m))
  {
    if fields != [] {
      assert fields == [fields[0]] + fields[1..];
    }
  }

  lemma SameFieldBytes(f: Field, m: map<string, Any>, c: Coercions)
    requires Faithful(c) && Given(f, m) && Convert(f.typ, m[f.name]).Ok?
    ensures Carried(f, m).Some? && EncodeField(f, ToPy(m[f.name]), c) == Pack(f, Carried(f, m).value)
  {
  }

  // ----- The two decoders agree on every encoding -----

  function PyOf(v: Value): PyValue {
    match v
    case I64(i) => PyInt(i)
    case Str(s) => PyStr(s)
    case Bool(b) => PyBool(b)
  }

  function PyMapOf(m: map<string, Value>): map<string, PyValue> {
    map name | name in m :: PyOf(m[name])
  }

  lemma {:induction false} ByIdIsFieldIndex(fields: seq<Field>, id: int)
    requires DistinctIds(fields)
    ensures ById(fields, id) == FieldIndex(fields, id)
  {
    match FieldIndex(fields, id)
    case Some(k) => ByIdIs(fields, id, k);
    case None => ByIdNone(fields, id);
  }

  lemma {:induction false} ByIdIs(fields: seq<Field>, id: int, k: nat)
    requires DistinctIds(fields) && k < |fields| && fields[k].id == id
    ensures ById(fields, id) == Some(k)
  {
    if k < |fields| - 1 {
      ByIdIs(fields[..|fields| - 1], id, k);
    }
  }

  lemma {:induction false} ByIdNone(fields: seq<Field>, id: int)
    requires forall f :: f in fields ==> f.id != id
    ensures ById(fields, id) == None
  {
    if fields != [] {
      ByIdNone(fields[..|fields| - 1], id);
    }
  }

  lemma UnpackAt(pre: bytes, n: nat, k: nat, post: bytes)
    requires n < Pow256(k)
    ensures Unpack(pre + BigEndian(n, k) + post, |pre|, k) == Ok(n)
  {
    var b := pre + BigEndian(n, k) + post;
    assert b[|pre|..|pre| + k] == BigEndian(n, k);
    NumberOfBigEndian(n, k);
    assert n % Pow256(k) == n;
  }

  /** The value is not a string, or its bytes are valid UTF-8. */
  predicate Readable(v: Value, valid: bytes -> bool) {
    v.Str? ==> valid(v.s)
  }

  lemma ReadAtPayload(pre: bytes, v: Value, post: bytes, valid: bytes -> bool)
    requires Fits(v)
    ensures ReadAt(Tag(v), pre + Payload(v) + post, |pre|, valid)
         == if Readable(v, valid) then Ok((PyOf(v), |pre| + |Payload(v)|)) else Err(DecodeError)
  {
    match v
    case I64(i) => ReadI64At(pre, i, post, valid);
    case Str(s) => ReadStringAt(pre, s, post, valid);
    case Bool(x) =>
  }

  lemma ReadI64At(pre: bytes, i: int64, post: bytes, valid: bytes -> bool)
    ensures ReadAt(TI64, pre + Payload(I64(i)) + post, |pre|, valid) == Ok((PyInt(i), |pre| + 8))
  {
    hide BigEndian, FromBigEndian;
    PowersOf256();
    UnpackAt(pre, ToUint64(i), 8, post);
  }

  lemma ReadStringAt(pre: bytes, s: bytes, post: bytes, valid: bytes -> bool)
    requires |s| < TWO_32
    ensures ReadAt(TSTRING, pre + Payload(Str(s)) + post, |pre|, valid)
         == if valid(s) then Ok((PyStr(s), |pre| + 4 + |s|)) else Err(DecodeError)
  {
    hide BigEndian, FromBigEndian;
    PowersOf256();
    var b := pre + Payload(Str(s)) + post;
    assert b == pre + BigEndian(|s|, 4) + (s + post);
    UnpackAt(pre, |s|, 4, s + post);
    assert b[|pre| + 4..|pre| + 4 + |s|] == s;
  }

  /** One turn of the loop. */
  lemma DecodeTurn(fields: seq<Field>, b: bytes, i: nat, id: nat, out: map<string, PyValue>, valid: bytes -> bool)
    requires i < |b| && b[i] != TSTOP && Unpack(b, i + 1, 2) == Ok(id)
    ensures var r := ReadAt(b[i], b, i + 3, valid);
            DecodeFrom(fields, b, i, out, valid)
            == (if r.Ok?
                then DecodeFrom(fields, b, r.value.1, Store(fields, out, id, r.value.0), valid)
                else Err(r.error))
  {
    hide Store;
  }

  lemma DecodeOneField(fields: seq<Field>, pre: bytes, e: Entry, post: bytes, out: map<string, PyValue>,
                       valid: bytes -> bool)
    requires Writable(e)
    ensures DecodeFrom(fields, pre + FieldBytes(e.id, e.val) + post, |pre|, out, valid)
         == if Readable(e.val, valid)
            then DecodeFrom(fields, pre + FieldBytes(e.id, e.val) + post, |pre| + |FieldBytes(e.id, e.val)|,
                            Store(fields, out, e.id, PyOf(e.val)), valid)
            else Err(DecodeError)
  {
    hide ReadAt, Payload, DecodeFrom, Store, Readable, Unpack;
    PowersOf256();
    var b := pre + FieldBytes(e.id, e.val) + post;
    var idb := BigEndian(e.id, 2);
    assert b == (pre + [Tag(e.val)]) + idb + (Payload(e.val) + post);
    assert b == (pre + [Tag(e.val)] + idb) + Payload(e.val) + post;
    UnpackAt(pre + [Tag(e.val)], e.id, 2, Payload(e.val) + post);
    ReadAtPayload(pre + [Tag(e.val)] + idb, e.val, post, valid);
    assert b[|pre|] == Tag(e.val);
    DecodeTurn(fields, b, |pre|, e.id, out, valid);
  }

  function StoreAll(fields: seq<Field>, out: map<string, PyValue>, es: seq<Entry>): map<string, PyValue>
    decreases |es|
  {
    if es == [] then out else StoreAll(fields, Store(fields, out, es[0].id, PyOf(es[0].val)), es[1..])
  }

  predicate ValidText(es: seq<Entry>, valid: bytes -> bool) {
    forall e :: e in es ==> Readable(e.val, valid)
  }

  lemma {:induction false} DecodeBody(fields: seq<Field>, pre: bytes, es: seq<Entry>, tail: bytes,
                                      out: map<string, PyValue>, valid: bytes -> bool)
    requires forall e :: e in es ==> Writable(e)
    ensures DecodeFrom(fields, pre + Body(es) + tail, |pre|, out, valid)
         == if ValidText(es, valid) then Ok(StoreAll(fields, out, es)) else Err(DecodeError)
    decreases |es|
  {
    hide Store, DecodeFrom, FieldBytes;
    var b := pre + Body(es) + tail;
    if es == [] {
      DecodeStop(fields, pre, tail, out, valid);
    } else {
      var fb := FieldBytes(es[0].id, es[0].val);
      assert b == pre + fb + (Body(es[1..]) + tail);
      assert b == (pre + fb) + Body(es[1..]) + tail;
      DecodeOneField(fields, pre, es[0], Body(es[1..]) + tail, out, valid);
      DecodeBody(fields, pre + fb, es[1..], tail, Store(fields, out, es[0].id, PyOf(es[0].val)), valid);
    }
  }

  lemma DecodeStop(fields: seq<Field>, pre: bytes, tail: bytes, out: map<string, PyValue>, valid: bytes -> bool)
    ensures DecodeFrom(fields, pre + Body([]) + tail, |pre|, out, valid) == Ok(out)
  {
    assert (pre + Body([]) + tail)[|pre|] == TSTOP;
  }

  lemma {:induction false} StoredAsAssigned(fields: seq<Field>, out: map<string, Value>, es: seq<Entry>)
    requires DistinctIds(fields)
    requires forall h :: h in Known(fields, es) ==> h.k < |fields|
    ensures StoreAll(fields, PyMapOf(out), es) == PyMapOf(Assign(fields, out, Known(fields, es)))
    decreases |es|
  {
    if es != [] {
      var e := es[0];
      ByIdIsFieldIndex(fields, e.id);
      match FieldIndex(fields, e.id) {
        case None =>
          assert Known(fields, es) == Known(fields, es[1..]);
          StoredAsAssigned(fields, out, es[1..]);
        case Some(k) =>
          var out' := out[fields[k].name := e.val];
          assert PyMapOf(out') == PyMapOf(out)[fields[k].name := PyOf(e.val)];
          assert Known(fields, es) == [Hit(k, e.val)] + Known(fields, es[1..]);
          AssignStep(fields, out, Hit(k, e.val), Known(fields, es[1..]));
          StoredAsAssigned(fields, out', es[1..]);
      }
    }
  }

  lemma {:induction false} KnownInRange(fields: seq<Field>, es: seq<Entry>)
    ensures forall h :: h in Known(fields, es) ==> h.k < |fields|
  {
    if es != [] {
      KnownInRange(fields, es[1..]);
    }
  }

  /**
   * The IDL-directed decoder and the tag-directed decoder on every body that a writer with an agreeing struct
   * produced: they return the same fields exactly when all its strings are valid UTF-8, those of fields that the
   * reader does not know included. Otherwise Python raises.
   */
  lemma DecodersAgreeIff(fields: seq<Field>, es: seq<Entry>, tail: bytes, valid: bytes -> bool)
    requires DistinctIds(fields)
    requires forall e :: e in es ==> Writable(e) && Agrees(fields, e)
    ensures DecodeFields(fields, Body(es) + tail).Ok?
    ensures DecodeFrom(fields, Body(es) + tail, 0, map[], valid)
         == if ValidText(es, valid) then Ok(PyMapOf(DecodeFields(fields, Body(es) + tail).value)) else Err(DecodeError)
  {
    hide DecodeFrom, Scan, StoreAll, Known, Plausible;
    ScanOfBody(fields, es, tail);
    KnownInRange(fields, es);
    assert [] + Body(es) + tail == Body(es) + tail;
    DecodeBody(fields, [], es, tail, map[], valid);
    assert PyMapOf(map[]) == map[];
    StoredAsAssigned(fields, map[], es);
  }

  // ----- Truncated bodies -----

  lemma CutField(fields: seq<Field>, pre: bytes, e: Entry, cut: bytes, out: map<string, PyValue>, valid: bytes -> bool)
    requires Writable(e) && cut < FieldBytes(e.id, e.val)
    ensures DecodeFrom(fields, pre + cut, |pre|, out, valid).Err?
  {
    hide Store;
    PowersOf256();
    var b, fb := pre + cut, FieldBytes(e.id, e.val);
    if |cut| >= 3 {
      assert b[|pre|] == Tag(e.val) by { assert cut[0] == fb[0]; }
      assert fb[3..] == Payload(e.val);
      CutPayload(pre + cut[..3], e.val, cut[3..], valid);
      assert pre + cut[..3] + cut[3..] == b;
    } else if |cut| > 0 {
      assert b[|pre|] == Tag(e.val) by { assert cut[0] == fb[0]; }
    }
  }

  /** A cut value raises, or leaves the index past the end so that the next turn raises. */
  lemma CutPayload(pre: bytes, v: Value, cut: bytes, valid: bytes -> bool)
    requires Fits(v) && cut < Payload(v)
    ensures var r := ReadAt(Tag(v), pre + cut, |pre|, valid); r.Ok? ==> r.value.1 > |pre + cut|
  {
    PowersOf256();
    if v.Str? && |cut| >= 4 {
      assert cut[..4] == BigEndian(|v.s|, 4);
      assert pre + cut == pre + BigEndian(|v.s|, 4) + cut[4..];
      UnpackAt(pre, |v.s|, 4, cut[4..]);
    }
  }

  lemma DecodeNothing(fields: seq<Field>, pre: bytes, out: map<string, PyValue>, valid: bytes -> bool)
    ensures DecodeFrom(fields, pre + [], |pre|, out, valid).Err?
  {
  }

  /** Python too rejects every encoding that is cut before its stop tag. */
  lemma {:induction false} TruncatedBodyRejected(fields: seq<Field>, pre: bytes, es: seq<Entry>, cut: bytes,
                                                 out: map<string, PyValue>, valid: bytes -> bool)
    requires (forall e :: e in es ==> Writable(e)) && cut < Body(es)
    ensures DecodeFrom(fields, pre + cut, |pre|, out, valid).Err?
    decreases |es|
  {
    hide Store, FieldBytes, DecodeFrom;
    if es == [] {
      assert cut == [];
      DecodeNothing(fields, pre, out, valid);
    } else {
      var fb := FieldBytes(es[0].id, es[0].val);
      assert Body(es) == fb + Body(es[1..]);
      if |cut| < |fb| {
        assert cut < fb by { assert cut == Body(es)[..|cut|] == fb[..|cut|]; }
        CutField(fields, pre, es[0], cut, out, valid);
      } else {
        var later := cut[|fb|..];
        assert cut[..|fb|] == Body(es)[..|fb|] == fb;
        assert later < Body(es[1..]) by { assert Body(es)[|fb|..] == Body(es[1..]); }
        assert pre + cut == pre + fb + later;
        DecodeOneField(fields, pre, es[0], later, out, valid);
        TruncatedBodyRejected(fields, pre + fb, es[1..], later, Store(fields, out, es[0].id, PyOf(es[0].val)), valid);
      }
    }
  }
}
