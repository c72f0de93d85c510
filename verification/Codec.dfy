/**
 * What a struct body means. Every decoder of the repository is a loop over the fields of a body; Scan is
 * the meaning of the loop that looks up each id in an IDL struct and skips the ids it does not know.
 */
module Codec {
  import opened Wrappers
  import opened Bytes
  import opened Wire
  import opened Idl

  /** A field as it is written: an id and a value. */
  datatype Entry = Entry(id: int, val: Value)

  /** A field as it is decoded: its position in the struct and the value read for it. */
  datatype Hit = Hit(k: nat, val: Value)

  function EncodeEntries(es: seq<Entry>): bytes {
    if es == [] then [] else FieldBytes(es[0].id, es[0].val) + EncodeEntries(es[1..])
  }

  function Body(es: seq<Entry>): bytes {
    EncodeEntries(es) + [TSTOP]
  }

  /** A body ends with a zero byte, which is the type of no field. */
  lemma BodyLayout(es: seq<Entry>)
    ensures Body(es)[|Body(es)| - 1] == 0
    ensures es != [] ==> Body(es)[0] == (if es[0].val.I64? then 2 else if es[0].val.Str? then 3 else 1)
    ensures es != [] ==> Body(es) == FieldBytes(es[0].id, es[0].val) + Body(es[1..])
  {
    if es != [] {
      var first := FieldBytes(es[0].id, es[0].val);
      assert first[0] == Tag(es[0].val);
      assert first + EncodeEntries(es[1..]) + [TSTOP] == first + (EncodeEntries(es[1..]) + [TSTOP]);
    }
  }

  lemma {:induction false} EncodeAppend(a: seq<Entry>, b: seq<Entry>)
    ensures EncodeEntries(a + b) == EncodeEntries(a) + EncodeEntries(b)
  {
    if a == [] {
      assert a + b == b;
    } else {
      assert (a + b)[1..] == a[1..] + b;
      EncodeAppend(a[1..], b);
    }
  }

  lemma EncodeNothing()
    ensures EncodeEntries([]) == []
  {
  }

  lemma EncodeNext(es: seq<Entry>, k: nat)
    requires k < |es|
    ensures EncodeEntries(es[..k + 1]) == EncodeEntries(es[..k]) + FieldBytes(es[k].id, es[k].val)
  {
    assert es[..k + 1] == es[..k] + [es[k]];
    EncodeAppend(es[..k], [es[k]]);
    assert [es[k]][1..] == [];
    assert EncodeEntries([es[k]]) == FieldBytes(es[k].id, es[k].val) + EncodeEntries([]);
  }

  /** Reading a field whose IDL type is typ; the wire tag is not consulted. */
  function TakeField(typ: string, s: bytes): Step<Value> {
    match TypeTag(typ)
    case Some(tag) => TakeValue(tag, s)
    case None => Step(Err(UnsupportedType(typ)), s)
  }

  /** One turn of the decode loop, after the header: the hit it produces, if the id is known. */
  function TakeHit(fields: seq<Field>, tag: byte, id: int, s: bytes): Step<seq<Hit>> {
    match FieldIndex(fields, id)
    case None =>
      var v := TakeValue(tag, s);
      Step(if v.out.Ok? then Ok([]) else Err(v.out.error), v.rest)
    case Some(k) =>
      var v := TakeField(fields[k].typ, s);
      Step(if v.out.Ok? then Ok([Hit(k, v.out.value)]) else Err(v.out.error), v.rest)
  }

  lemma TakeHitConsumes(fields: seq<Field>, tag: byte, id: int, s: bytes)
    ensures var r := TakeHit(fields, tag, id, s).rest; |r| <= |s| && r == s[|s| - |r|..]
  {
    ReadsConsume(tag, s);
    match FieldIndex(fields, id)
    case None =>
    case Some(k) =>
      match TypeTag(fields[k].typ)
      case None =>
      case Some(t) => ReadsConsume(t, s);
  }

  /** One turn of the decode loop: None when the stop tag was read, otherwise the hits of one field. */
  function Turn(fields: seq<Field>, s: bytes): Step<Option<seq<Hit>>> {
    var h := TakeHeader(s);
    if h.out.Err? then Step(Err(h.out.error), h.rest)
    else if h.out.value.0 == TSTOP then Step(Ok(None), h.rest)
    else
      var v := TakeHit(fields, h.out.value.0, h.out.value.1, h.rest);
      Step(if v.out.Ok? then Ok(Some(v.out.value)) else Err(v.out.error), v.rest)
  }

  lemma TurnConsumes(fields: seq<Field>, s: bytes)
    ensures var r := Turn(fields, s).rest; |r| <= |s| && r == s[|s| - |r|..] && (Turn(fields, s).out.Ok? ==> |r| < |s|)
  {
    hide TakeHeader, TakeHit;
    var h := TakeHeader(s);
    ReadsConsume(0, s);
    if h.out.Ok? && h.out.value.0 != TSTOP {
      TakeHitConsumes(fields, h.out.value.0, h.out.value.1, h.rest);
    }
  }

  /** The whole loop: the hits of all turns up to the stop tag. */
  function Scan(fields: seq<Field>, s: bytes): Step<seq<Hit>>
    decreases |s|
  {
    TurnConsumes(fields, s);
    var t := Turn(fields, s);
    if t.out.Err? then Step(Err(t.out.error), t.rest)
    else if t.out.value.None? then Step(Ok([]), t.rest)
    else
      var r := Scan(fields, t.rest);
      Step(if r.out.Ok? then Ok(t.out.value.value + r.out.value) else Err(r.out.error), r.rest)
  }

  // ----- Decoding what was encoded -----

  /** If the reader's struct knows the id, it gives it the type of the value. */
  predicate Agrees(fields: seq<Field>, e: Entry) {
    match FieldIndex(fields, e.id)
    case None => true
    case Some(k) => TypeTag(fields[k].typ) == Some(Tag(e.val))
  }

  predicate Writable(e: Entry) {
    IdFits(e.id) && Fits(e.val)
  }

  function KnownOne(fields: seq<Field>, e: Entry): seq<Hit> {
    match FieldIndex(fields, e.id)
    case None => []
    case Some(k) => [Hit(k, e.val)]
  }

  /** The entries whose ids the struct knows, in order. */
  function Known(fields: seq<Field>, es: seq<Entry>): seq<Hit> {
    if es == [] then [] else KnownOne(fields, es[0]) + Known(fields, es[1..])
  }

  lemma TurnOfField(fields: seq<Field>, e: Entry, next: bytes)
    requires Writable(e) && Agrees(fields, e)
    ensures Turn(fields, FieldBytes(e.id, e.val) + next) == Step(Ok(Some(KnownOne(fields, e))), next)
  {
    hide TakeHeader, TakeValue, FieldBytes, Payload;
    HeaderRoundTrip(e.id, e.val, next);
    ValueRoundTrip(e.val, next);
  }

  /** Unknown fields are skipped byte-exactly, known ones are read back, and the stop tag ends the body. */
  lemma {:induction false} ScanOfBody(fields: seq<Field>, es: seq<Entry>, tail: bytes)
    requires forall e :: e in es ==> Writable(e) && Agrees(fields, e)
    ensures Scan(fields, Body(es) + tail) == Step(Ok(Known(fields, es)), tail)
  {
    hide Turn, FieldBytes, KnownOne, Writable, Agrees;
    if es == [] {
      assert Body(es) + tail == [TSTOP] + tail;
      TurnOfStop(fields, tail);
    } else {
      var e, next := es[0], Body(es[1..]) + tail;
      assert Body(es) + tail == FieldBytes(e.id, e.val) + next;
      TurnOfField(fields, e, next);
      ScanOfBody(fields, es[1..], tail);
    }
  }

  lemma TurnOfStop(fields: seq<Field>, tail: bytes)
    ensures Turn(fields, [TSTOP] + tail) == Step(Ok(None), tail)
  {
    StopRoundTrip(tail);
  }

  // ----- Properties of the scan of any byte string -----

  lemma TurnExtends(fields: seq<Field>, s: bytes, t: bytes)
    requires Turn(fields, s).out.Ok?
    ensures Turn(fields, s + t) == Step(Turn(fields, s).out, Turn(fields, s).rest + t)
  {
    hide TakeHeader, TakeValue;
    var h := TakeHeader(s);
    TakeHeaderExtends(s, t);
    if h.out.value.0 != TSTOP {
      match FieldIndex(fields, h.out.value.1) {
        case None => TakeValueExtends(h.out.value.0, h.rest, t);
        case Some(k) => TakeValueExtends(TypeTag(fields[k].typ).value, h.rest, t);
      }
    }
  }

  /** A scan that ends in a stop tag only looked at the bytes it consumed. */
  lemma {:induction false} ScanExtends(fields: seq<Field>, s: bytes, t: bytes)
    requires Scan(fields, s).out.Ok?
    ensures Scan(fields, s + t) == Step(Scan(fields, s).out, Scan(fields, s).rest + t)
    decreases |s|
  {
    hide Turn;
    TurnExtends(fields, s, t);
    TurnConsumes(fields, s);
    if Turn(fields, s).out.value.Some? {
      ScanExtends(fields, Turn(fields, s).rest, t);
    }
  }

  /** The unread bytes are a suffix of the input, and a scan that succeeds has read at least the stop tag. */
  lemma {:induction false} ScanConsumes(fields: seq<Field>, s: bytes)
    ensures var r := Scan(fields, s).rest; |r| <= |s| && r == s[|s| - |r|..]
    ensures Scan(fields, s).out.Ok? ==> |Scan(fields, s).rest| < |s|
    decreases |s|
  {
    hide Turn;
    TurnConsumes(fields, s);
    var t := Turn(fields, s);
    if t.out.Ok? && t.out.value.Some? {
      ScanConsumes(fields, t.rest);
    }
  }

  /** Prefix-freeness: a scan that succeeds on s fails on every input cut before the byte where it stopped. */
  lemma ScanPrefixFree(fields: seq<Field>, s: bytes, j: nat)
    requires Scan(fields, s).out.Ok? && j < |s| - |Scan(fields, s).rest|
    ensures Scan(fields, s[..j]).out.Err?
  {
    assert s == s[..j] + s[j..];
    if Scan(fields, s[..j]).out.Ok? {
      ScanExtends(fields, s[..j], s[j..]);
    }
  }

  /** Whatever the bytes, a value is decoded only for a field with a 16-bit id, and with that field's type. */
  predicate Plausible(fields: seq<Field>, h: Hit) {
    && h.k < |fields|
    && IdFits(fields[h.k].id)
    && Fits(h.val)
    && TypeTag(fields[h.k].typ) == Some(Tag(h.val))
  }

  lemma TakeValueFits(tag: byte, s: bytes)
    ensures TakeValue(tag, s).out.Ok? ==> Tag(TakeValue(tag, s).out.value) == tag && Fits(TakeValue(tag, s).out.value)
  {
    PowersOf256();
  }

  lemma TakeHeaderFits(s: bytes)
    ensures TakeHeader(s).out.Ok? ==> IdFits(TakeHeader(s).out.value.1)
  {
    PowersOf256();
  }

  lemma TurnPlausible(fields: seq<Field>, s: bytes)
    ensures var r := Turn(fields, s).out;
            r.Ok? && r.value.Some? ==> forall h :: h in r.value.value ==> Plausible(fields, h)
  {
    hide TakeHeader, TakeValue;
    var h := TakeHeader(s);
    TakeHeaderFits(s);
    if h.out.Ok? && h.out.value.0 != TSTOP {
      match FieldIndex(fields, h.out.value.1) {
        case None =>
        case Some(k) =>
          match TypeTag(fields[k].typ)
          case None =>
          case Some(tag) => TakeValueFits(tag, h.rest);
      }
    }
  }

  lemma {:induction false} HitsPlausible(fields: seq<Field>, s: bytes)
    ensures var r := Scan(fields, s).out; r.Ok? ==> forall h :: h in r.value ==> Plausible(fields, h)
    decreases |s|
  {
    hide Turn, Plausible;
    TurnPlausible(fields, s);
    TurnConsumes(fields, s);
    var t := Turn(fields, s);
    if t.out.Ok? && t.out.value.Some? {
      HitsPlausible(fields, t.rest);
    }
  }

  lemma {:induction false} KnownHas(fields: seq<Field>, es: seq<Entry>, h: Hit)
    ensures h in Known(fields, es)
        <==> exists i :: 0 <= i < |es| && FieldIndex(fields, es[i].id) == Some(h.k) && es[i].val == h.val
  {
    if es != [] {
      KnownHas(fields, es[1..], h);
      if i :| 0 <= i < |es| && FieldIndex(fields, es[i].id) == Some(h.k) && es[i].val == h.val {
        if i > 0 {
          assert es[1..][i - 1] == es[i];
        }
      }
      if h in Known(fields, es[1..]) {
        var i :| 0 <= i < |es[1..]| && FieldIndex(fields, es[1..][i].id) == Some(h.k) && es[1..][i].val == h.val;
        assert es[i + 1] == es[1..][i];
      }
    }
  }
}
