/** What generic encoding and decoding promise: schema evolution, and round trips with their exact condition. */
module GenericProperties {
  import opened Wrappers
  import opened Bytes
  import opened Wire
  import opened Idl
  import opened Codec
  import opened Generic

  lemma EncodableIff(fields: seq<Field>, m: map<string, Any>)
    ensures Encodable(fields, m) <==> KindCorrect(fields, m) && GivenSupported(fields, m)
  {
    forall f | f in fields && Given(f, m)
      ensures Convert(f.typ, m[f.name]).Ok? <==> OfKind(f.typ, m[f.name]) && TypeTag(f.typ).Some?
    {
    }
  }

  lemma {:induction false} EntriesOkIff(fields: seq<Field>, m: map<string, Any>)
    ensures Entries(fields, m).Ok? <==> Encodable(fields, m)
  {
    if fields != [] {
      EntriesOkIff(fields[1..], m);
      assert fields == [fields[0]] + fields[1..];
      assert Encodable(fields, m) <==>
        (Given(fields[0], m) ==> Convert(fields[0].typ, m[fields[0].name]).Ok?) && Encodable(fields[1..], m);
    }
  }

  /** Encoding a map succeeds exactly when every given field has a supported type and a value of its kind. */
  lemma EncodeSucceedsIff(fields: seq<Field>, m: map<string, Any>)
    ensures Entries(fields, m).Ok? <==> KindCorrect(fields, m) && GivenSupported(fields, m)
  {
    EntriesOkIff(fields, m);
    EncodableIff(fields, m);
  }

  /** With supported types only, a value of the wrong kind is the one thing that can be refused. */
  lemma {:induction false} OnlyWrongKind(fields: seq<Field>, m: map<string, Any>)
    requires Supported(fields)
    ensures Entries(fields, m).Err? ==> Entries(fields, m).error == WrongKind
  {
    if fields != [] {
      assert fields[0] in fields && forall f :: f in fields[1..] ==> f in fields;
      OnlyWrongKind(fields[1..], m);
    }
  }

  lemma {:induction false} EntriesAre(fields: seq<Field>, m: map<string, Any>, e: Entry)
    requires Entries(fields, m).Ok?
    ensures e in Entries(fields, m).value
       <==> exists j :: 0 <= j < |fields| && fields[j].id == e.id && Carried(fields[j], m) == Some(e.val)
  {
    if fields != [] {
      var rest := fields[1..];
      EntriesAre(rest, m, e);
      if j :| 0 <= j < |fields| && fields[j].id == e.id && Carried(fields[j], m) == Some(e.val) {
        if j > 0 {
          assert rest[j - 1] == fields[j];
        }
      }
      if j :| 0 <= j < |rest| && rest[j].id == e.id && Carried(rest[j], m) == Some(e.val) {
        assert fields[j + 1] == rest[j];
      }
    }
  }

  lemma {:induction false} AssignGives(fields: seq<Field>, out: map<string, Value>, hits: seq<Hit>, k: nat, v: Value)
    requires DistinctNames(fields) && k < |fields|
    requires forall h :: h in hits ==> h.k < |fields|
    ensures var r := Assign(fields, out, hits);
            && (fields[k].name in r <==> fields[k].name in out || exists h :: h in hits && h.k == k)
            && (&& fields[k].name in r
                && (forall h :: h in hits && h.k == k ==> h.val == v)
                && (fields[k].name in out ==> out[fields[k].name] == v)
                ==> r[fields[k].name] == v)
    decreases |hits|
  {
    if hits != [] {
      var h := hits[0];
      assert hits == [h] + hits[1..];
      AssignGives(fields, out[fields[h.k].name := h.val], hits[1..], k, v);
    }
  }

  lemma {:induction false} AssignKeys(fields: seq<Field>, out: map<string, Value>, hits: seq<Hit>, name: string)
    requires forall h :: h in hits ==> h.k < |fields|
    ensures name in Assign(fields, out, hits) ==> name in out || exists h :: h in hits && fields[h.k].name == name
    decreases |hits|
  {
    if hits != [] {
      AssignKeys(fields, out[fields[hits[0].k].name := hits[0].val], hits[1..], name);
    }
  }

  predicate AllNamed(fields: seq<Field>, out: map<string, Value>) {
    forall name :: name in out ==> exists f :: f in fields && f.name == name
  }

  /** out holds, under the names of T, exactly the values that m carries for the fields S and T share. */
  predicate IsShared(S: seq<Field>, T: seq<Field>, m: map<string, Any>, out: map<string, Value>) {
    && AllNamed(T, out)
    && forall t :: t in T ==>
         && (t.name in out <==> exists s :: s in S && s.id == t.id && Carried(s, m).Some?)
         && forall s :: s in S && s.id == t.id && Carried(s, m).Some? ==>
           t.name in out && out[t.name] == Carried(s, m).value
  }

  /** The two structs give the same type to every id they share. */
  predicate AgreeOnShared(S: seq<Field>, T: seq<Field>) {
    forall s, t :: s in S && t in T && s.id == t.id ==> s.typ == t.typ
  }

  /** The fields that m gives can be written without losing bits of the id or of the string length. */
  predicate WritableFields(S: seq<Field>, m: map<string, Any>) {
    forall s :: s in S && Carried(s, m).Some? ==> IdFits(s.id) && Fits(Carried(s, m).value)
  }

  /** The value that is written for what the map gives: numbers of any kind for i64, text for string, flags for bool. */
  lemma CarriedValue(f: Field, m: map<string, Any>)
    ensures Carried(f, m) ==
      if f.name !in m then None
      else
        match m[f.name]
        case Int64(i) => if f.typ == "i64" then Some(I64(i)) else None
        case Float(i) => if f.typ == "i64" then Some(I64(i)) else None
        case Number(n) => if f.typ == "i64" && n.Some? then Some(I64(n.value)) else None
        case Text(s) => if f.typ == "string" then Some(Str(s)) else None
        case Flag(b) => if f.typ == "bool" then Some(Bool(b)) else None
        case Nil => None
        case Other => None
  {
  }

  /** What Encode does with each kind of input: bytes pass unseen, even for a struct that the spec does not have. */
  lemma EncodeOutcome(spec: Spec, name: string, v: Input)
    ensures var r := EncodeInput(spec, name, v);
            && (v.Raw? ==> r == Ok(v.body))
            && (!v.Raw? && name !in spec.structs ==> r == Err(UnknownStruct(name)))
            && (name in spec.structs ==>
                  && (v == Json(None) ==> r == Err(BadJson))
                  && (v.OtherInput? ==> r == Err(NotAMap))
                  && (v.Json? && v.parsed.Some? ==> r == EncodeInput(spec, name, MapInput(v.parsed.value)))
                  && (v.MapInput? && r.Ok? ==>
                        && Entries(spec.structs[name].fields, v.m).Ok?
                        && r.value == Body(Entries(spec.structs[name].fields, v.m).value)))
  {
  }

  lemma CarriedTag(f: Field, m: map<string, Any>)
    ensures Carried(f, m).Some? ==> TypeTag(f.typ) == Some(Tag(Carried(f, m).value))
  {
  }

  lemma WrittenEntriesAgree(S: seq<Field>, T: seq<Field>, m: map<string, Any>)
    requires Encodable(S, m) && AgreeOnShared(S, T) && WritableFields(S, m)
    ensures Entries(S, m).Ok?
    ensures forall e :: e in Entries(S, m).value ==> Writable(e) && Agrees(T, e)
  {
    EntriesOkIff(S, m);
    forall e | e in Entries(S, m).value
      ensures Writable(e) && Agrees(T, e)
    {
      EntriesAre(S, m, e);
      var j :| 0 <= j < |S| && S[j].id == e.id && Carried(S[j], m) == Some(e.val);
      assert S[j] in S;
      CarriedTag(S[j], m);
    }
  }

  /** Which hits the reader gets: one per written field that it knows. */
  lemma KnownShared(S: seq<Field>, T: seq<Field>, m: map<string, Any>, h: Hit)
    requires Entries(S, m).Ok? && DistinctIds(T)
    ensures h in Known(T, Entries(S, m).value)
       <==> h.k < |T| && exists s :: s in S && s.id == T[h.k].id && Carried(s, m) == Some(h.val)
  {
    var es := Entries(S, m).value;
    KnownHas(T, es, h);
    if i :| 0 <= i < |es| && FieldIndex(T, es[i].id) == Some(h.k) && es[i].val == h.val {
      EntriesAre(S, m, es[i]);
      var j :| 0 <= j < |S| && S[j].id == es[i].id && Carried(S[j], m) == Some(h.val);
      assert S[j] in S && S[j].id == T[h.k].id;
    }
    if h.k < |T| && exists s :: s in S && s.id == T[h.k].id && Carried(s, m) == Some(h.val) {
      var s :| s in S && s.id == T[h.k].id && Carried(s, m) == Some(h.val);
      var j :| 0 <= j < |S| && S[j] == s;
      EntriesAre(S, m, Entry(s.id, h.val));
      var i :| 0 <= i < |es| && es[i] == Entry(s.id, h.val);
      FieldIndexOf(T, h.k);
    }
  }

  /**
   * Schema evolution: a reader with struct T gets, from what a writer with struct S wrote, exactly the fields
   * they share. Fields T does not know are skipped, fields S did not write are absent, and bytes after the
   * stop tag change nothing.
   */
  lemma SchemaEvolution(S: seq<Field>, T: seq<Field>, m: map<string, Any>, tail: bytes)
    requires DistinctIds(S) && DistinctIds(T) && DistinctNames(T)
    requires Encodable(S, m) && AgreeOnShared(S, T) && WritableFields(S, m)
    ensures Entries(S, m).Ok?
    ensures var r := DecodeFields(T, Body(Entries(S, m).value) + tail); r.Ok? && IsShared(S, T, m, r.value)
  {
    WrittenEntriesAgree(S, T, m);
    var es := Entries(S, m).value;
    ScanOfBody(T, es, tail);
    HitsPlausible(T, Body(es) + tail);
    AssignedShared(S, T, m, Known(T, es));
  }

  lemma AssignedShared(S: seq<Field>, T: seq<Field>, m: map<string, Any>, hits: seq<Hit>)
    requires DistinctIds(S) && DistinctIds(T) && DistinctNames(T)
    requires Entries(S, m).Ok? && hits == Known(T, Entries(S, m).value)
    requires forall h :: h in hits ==> h.k < |T|
    ensures IsShared(S, T, m, Assign(T, map[], hits))
  {
    var out := Assign(T, map[], hits);
    forall name | name in out
      ensures exists f :: f in T && f.name == name
    {
      AssignKeys(T, map[], hits, name);
      var h :| h in hits && T[h.k].name == name;
      assert T[h.k] in T;
    }
    forall k | 0 <= k < |T|
      ensures T[k].name in out <==> exists s :: s in S && s.id == T[k].id && Carried(s, m).Some?
      ensures forall s :: s in S && s.id == T[k].id && Carried(s, m).Some? ==>
          T[k].name in out && out[T[k].name] == Carried(s, m).value
    {
      AssignedField(S, T, m, hits, k);
    }
  }

  lemma AssignedField(S: seq<Field>, T: seq<Field>, m: map<string, Any>, hits: seq<Hit>, k: nat)
    requires DistinctIds(S) && DistinctIds(T) && DistinctNames(T) && k < |T|
    requires Entries(S, m).Ok? && hits == Known(T, Entries(S, m).value)
    requires forall h :: h in hits ==> h.k < |T|
    ensures var out := Assign(T, map[], hits);
            && (T[k].name in out <==> exists s :: s in S && s.id == T[k].id && Carried(s, m).Some?)
            && forall s :: s in S && s.id == T[k].id && Carried(s, m).Some? ==>
              T[k].name in out && out[T[k].name] == Carried(s, m).value
  {
    hide Assign, Known, Entries, Carried;
    AssignGives(T, map[], hits, k, I64(0));
    if h :| h in hits && h.k == k {
      KnownShared(S, T, m, h);
    }
    forall s | s in S && s.id == T[k].id && Carried(s, m).Some?
      ensures T[k].name in Assign(T, map[], hits) && Assign(T, map[], hits)[T[k].name] == Carried(s, m).value
    {
      var v := Carried(s, m).value;
      KnownShared(S, T, m, Hit(k, v));
      forall h | h in hits && h.k == k
        ensures h.val == v
      {
        KnownShared(S, T, m, h);
      }
      AssignGives(T, map[], hits, k, v);
    }
  }

  /** r holds exactly the values that m carries for the fields. */
  predicate Restored(fields: seq<Field>, m: map<string, Any>, r: Result<map<string, Value>, Error>) {
    && r.Ok?
    && AllNamed(fields, r.value)
    && forall f :: f in fields ==>
         && (f.name in r.value <==> Carried(f, m).Some?)
         && (f.name in r.value ==> r.value[f.name] == Carried(f, m).value)
  }

  /**
   * The plain round trip, and when it holds: exactly when every given field has an id that fits 16 bits and,
   * if it is a string, a length that fits 32. An id outside 0..65535, which the parser accepts, is truncated
   * by the writer and its value is lost.
   */
  lemma RoundTripIff(fields: seq<Field>, m: map<string, Any>, tail: bytes)
    requires DistinctIds(fields) && DistinctNames(fields) && Encodable(fields, m)
    ensures Entries(fields, m).Ok?
    ensures Restored(fields, m, DecodeFields(fields, Body(Entries(fields, m).value) + tail))
        <==> WritableFields(fields, m)
  {
    EntriesOkIff(fields, m);
    var body := Body(Entries(fields, m).value) + tail;
    var r := DecodeFields(fields, body);
    if WritableFields(fields, m) {
      assert AgreeOnShared(fields, fields) by { SameIdSameField(fields); }
      SchemaEvolution(fields, fields, m, tail);
      SameIdSameField(fields);
    }
    if Restored(fields, m, r) {
      forall f | f in fields && Carried(f, m).Some?
        ensures IdFits(f.id) && Fits(Carried(f, m).value)
      {
        DecodedFits(fields, body, f);
      }
    }
  }

  lemma SameIdSameField(fields: seq<Field>)
    requires DistinctIds(fields)
    ensures forall s, t :: s in fields && t in fields && s.id == t.id ==> s == t
  {
  }

  /** Whatever bytes are decoded, a name only appears if its id fits, and with a value that fits. */
  lemma DecodedFits(fields: seq<Field>, body: bytes, f: Field)
    requires DistinctNames(fields) && f in fields
    requires DecodeFields(fields, body).Ok? && f.name in DecodeFields(fields, body).value
    ensures IdFits(f.id) && Fits(DecodeFields(fields, body).value[f.name])
  {
    HitsPlausible(fields, body);
    var hits := Scan(fields, body).out.value;
    AssignKeys(fields, map[], hits, f.name);
    var h :| h in hits && fields[h.k].name == f.name;
    assert fields[h.k] == f;
    AssignOnlyHits(fields, map[], hits, f.name);
  }

  lemma {:induction false} AssignOnlyHits(fields: seq<Field>, out: map<string, Value>, hits: seq<Hit>, name: string)
    requires forall h :: h in hits ==> h.k < |fields| && Fits(h.val)
    requires name in out ==> Fits(out[name])
    ensures name in Assign(fields, out, hits) ==> Fits(Assign(fields, out, hits)[name])
    decreases |hits|
  {
    if hits != [] {
      AssignOnlyHits(fields, out[fields[hits[0].k].name := hits[0].val], hits[1..], name);
    }
  }

  /** Cutting the body anywhere before its last byte, the stop tag, makes decoding fail. */
  lemma TruncatedBodyRejected(S: seq<Field>, T: seq<Field>, m: map<string, Any>, j: nat)
    requires Encodable(S, m) && AgreeOnShared(S, T) && WritableFields(S, m)
    requires Entries(S, m).Ok? && j < |Body(Entries(S, m).value)|
    ensures DecodeFields(T, Body(Entries(S, m).value)[..j]).Err?
  {
    WrittenEntriesAgree(S, T, m);
    var es := Entries(S, m).value;
    var body := Body(es);
    assert body + [] == body;
    ScanOfBody(T, es, []);
    ScanPrefixFree(T, body, j);
  }

  /** For arbitrary input: if decoding succeeds, it read some first part of the body and ignored the rest. */
  lemma DecodingReadsAPrefix(T: seq<Field>, body: bytes)
    requires DecodeFields(T, body).Ok?
    ensures exists c :: 0 < c <= |body| && ReadsExactly(T, body, c)
  {
    ScanConsumes(T, body);
    var c := |body| - |Scan(T, body).rest|;
    forall j | 0 <= j < c
      ensures DecodeFields(T, body[..j]).Err?
    {
      ScanPrefixFree(T, body, j);
    }
    forall tail: bytes
      ensures DecodeFields(T, body[..c] + tail) == DecodeFields(T, body)
    {
      ScanOfConsumed(T, body, c);
      ScanExtends(T, body[..c], tail);
    }
    assert ReadsExactly(T, body, c);
  }

  /** Every shorter input fails, and what follows the first c bytes makes no difference. */
  ghost predicate ReadsExactly(T: seq<Field>, body: bytes, c: nat)
    requires c <= |body|
  {
    && (forall j :: 0 <= j < c ==> DecodeFields(T, body[..j]).Err?)
    && forall tail: bytes :: DecodeFields(T, body[..c] + tail) == DecodeFields(T, body)
  }

  /** The consumed bytes alone already decode. */
  lemma {:induction false} ScanOfConsumed(fields: seq<Field>, s: bytes, c: nat)
    requires Scan(fields, s).out.Ok? && c == |s| - |Scan(fields, s).rest| && c <= |s|
    ensures Scan(fields, s[..c]) == Step(Scan(fields, s).out, [])
    decreases |s|
  {
    hide Turn;
    TurnConsumes(fields, s);
    var t := Turn(fields, s);
    var d := |s| - |t.rest|;
    ScanConsumes(fields, s);
    if t.out.value.None? {
      TurnOfConsumed(fields, s);
    } else {
      ScanConsumes(fields, t.rest);
      TurnOfConsumed(fields, s);
      ScanOfConsumed(fields, t.rest, c - d);
      assert s[..c] == s[..d] + t.rest[..c - d];
      TurnExtends(fields, s[..d], t.rest[..c - d]);
      assert [] + t.rest[..c - d] == t.rest[..c - d];
    }
  }

  lemma TurnOfConsumed(fields: seq<Field>, s: bytes)
    requires Turn(fields, s).out.Ok? && |Turn(fields, s).rest| <= |s|
    ensures Turn(fields, s[..|s| - |Turn(fields, s).rest|]) == Step(Turn(fields, s).out, [])
  {
    hide TakeHeader, TakeValue;
    var u := s[..|s| - |Turn(fields, s).rest|];
    var h := TakeHeader(s);
    HeaderLength(s);
    if h.out.value.0 == TSTOP {
      HeaderOfConsumed(s, u);
    } else {
      var k := FieldIndex(fields, h.out.value.1);
      var tag := if k.Some? then TypeTag(fields[k.value].typ).value else h.out.value.0;
      ReadsConsume(tag, h.rest);
      HeaderOfConsumed(s, u);
      ValueOfConsumed(tag, h.rest, u[3..]);
    }
  }

  lemma HeaderLength(s: bytes)
    ensures var h := TakeHeader(s);
            h.out.Ok? ==>
              if h.out.value.0 == TSTOP then |s| >= 1 && h.rest == s[1..] else |s| >= 3 && h.rest == s[3..]
  {
  }

  lemma HeaderOfConsumed(s: bytes, u: bytes)
    requires TakeHeader(s).out.Ok? && u <= s
    requires |u| >= |s| - |TakeHeader(s).rest|
    ensures TakeHeader(u) == Step(TakeHeader(s).out, u[|s| - |TakeHeader(s).rest|..])
  {
    assert s[..1] == u[..1];
    if TakeNumber(s, 1).out.value != TSTOP {
      assert s[1..][..2] == u[1..][..2];
      assert u[1..][2..] == u[3..];
    }
  }

  lemma ValueOfConsumed(tag: byte, s: bytes, u: bytes)
    requires TakeValue(tag, s).out.Ok? && u <= s
    requires |u| == |s| - |TakeValue(tag, s).rest|
    ensures TakeValue(tag, u) == Step(TakeValue(tag, s).out, [])
  {
    var k := if tag == TI64 then 8 else if tag == TSTRING then 4 else 1;
    assert s[..k] == u[..k];
    if tag == TSTRING {
      var n := TakeNumber(s, 4).out.value;
      assert u[4..][..n] == s[4..][..n];
    }
  }
}
