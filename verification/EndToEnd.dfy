/**
 * The layers together: a spec that parses, its codecs, and calls over a connection. "The server cannot tell
 * which client you used."
 */
module EndToEnd {
  import opened Wrappers
  import opened Bytes
  import opened Wire
  import opened Idl
  import IdlText
  import opened Codec
  import opened Generic
  import opened GenericProperties
  import Typed
  import PyClient
  import Session

  /**
   * For every text that parses and every struct of the spec, the generic client encodes a map exactly when each
   * given field has a value of its kind, and otherwise reports just that. The requests and responses of all
   * methods are such structs.
   */
  lemma AcceptedSpecEncodes(text: string, name: string, data: map<string, Any>)
    ensures IdlText.ParseText(text).Ok? ==> FullyUsable(IdlText.ParseText(text).value, name, data)
  {
    hide IdlText.ParseText, FullyUsable;
    IdlText.AcceptedSpec(text);
    if IdlText.ParseText(text).Ok? {
      SupportedIsUsable(IdlText.ParseText(text).value, name, data);
    }
  }

  /** Every method has its structs, and encoding for a struct fails on a value of the wrong kind and on nothing else. */
  predicate FullyUsable(spec: Spec, name: string, data: map<string, Any>) {
    && (forall m :: m in spec.methods ==> m.req in spec.structs && m.resp in spec.structs)
    && (name in spec.structs ==>
          var r := EncodeInput(spec, name, MapInput(data));
          && (r.Ok? <==> KindCorrect(spec.structs[name].fields, data))
          && (r.Err? ==> r.error == WrongKind))
  }

  lemma SupportedIsUsable(spec: Spec, name: string, data: map<string, Any>)
    requires Resolved(spec) && IdlText.TypesSupported(spec)
    ensures FullyUsable(spec, name, data)
  {
    if name in spec.structs {
      var fields := spec.structs[name].fields;
      assert Supported(fields);
      EncodeSucceedsIff(fields, data);
      OnlyWrongKind(fields, data);
    }
  }

  /** The typed, the generic and the Python client write the same bytes for the same data. */
  lemma OneEncoding(spec: Spec, name: string, vals: seq<Value>, data: map<string, Any>, c: PyClient.Coercions)
    requires name in spec.structs && PyClient.Faithful(c)
    requires Typed.WellTyped(spec.structs[name].fields, vals) && Typed.WritableStruct(spec.structs[name].fields, vals)
    requires Typed.SameData(spec.structs[name].fields, vals, data)
    ensures var fields := spec.structs[name].fields;
            var body := Body(Typed.TypedEntries(fields, vals));
            && EncodeInput(spec, name, MapInput(data)) == Ok(body)
            && PyClient.EncodeFields(fields, PyClient.ToPyMap(data), c) == Ok(body)
  {
    var fields := spec.structs[name].fields;
    Typed.SameBytes(spec, name, vals, data);
    Typed.SameEntries(fields, vals, data);
    EntriesOkIff(fields, data);
    FullDataWritable(fields, vals, data);
    PyClient.SameBytesIff(fields, data, c);
  }

  /** Such data exists for every struct value, if only the field names are distinct. */
  lemma SomeDataForAll(spec: Spec, name: string, vals: seq<Value>, c: PyClient.Coercions)
    returns (data: map<string, Any>)
    requires name in spec.structs && PyClient.Faithful(c) && DistinctNames(spec.structs[name].fields)
    requires Typed.WellTyped(spec.structs[name].fields, vals) && Typed.WritableStruct(spec.structs[name].fields, vals)
    ensures var body := Body(Typed.TypedEntries(spec.structs[name].fields, vals));
            && EncodeInput(spec, name, MapInput(data)) == Ok(body)
            && PyClient.EncodeFields(spec.structs[name].fields, PyClient.ToPyMap(data), c) == Ok(body)
  {
    data := Typed.SomeMapHasSameData(spec.structs[name].fields, vals);
    OneEncoding(spec, name, vals, data, c);
  }

  lemma FullDataWritable(fields: seq<Field>, vals: seq<Value>, data: map<string, Any>)
    requires Typed.WellTyped(fields, vals) && Typed.WritableStruct(fields, vals) && Typed.SameData(fields, vals, data)
    ensures WritableFields(fields, data)
  {
    forall f | f in fields && Carried(f, data).Some?
      ensures IdFits(f.id) && Fits(Carried(f, data).value)
    {
      var k :| 0 <= k < |fields| && fields[k] == f;
      CarriedIs(f, vals[k], data);
    }
  }

  lemma CarriedIs(f: Field, v: Value, data: map<string, Any>)
    requires f.name in data && data[f.name] == Typed.ToAny(v) && TypeTag(f.typ) == Some(Tag(v))
    ensures Carried(f, data) == Some(v)
  {
  }

  // ----- A call from end to end -----

  /** The implementation of one method: from the request struct to the response struct or an error text. */
  type Implementation = (nat, seq<Value>) -> Result<seq<Value>, bytes>

  /** What Register installs for a method; errText is the text of a decoding error. */
  function Adapter(reqFields: seq<Field>, respFields: seq<Field>, impl: Implementation,
                   errText: Error -> bytes): Session.Handler {
    (n: nat, hdr: bytes, body: bytes) =>
      match Typed.DecodeStruct(reqFields, body)
      case Err(e) => Err(errText(e))
      case Ok(req) =>
        match impl(n, req)
        case Err(text) => Err(text)
        case Ok(resp) => if |resp| == |respFields| then Ok(Body(Typed.TypedEntries(respFields, resp))) else Err([])
  }

  /** The outcome a client decodes: the response struct, or the error text. */
  predicate ClientGets(respFields: seq<Field>, outcome: Session.Outcome, answer: Result<seq<Value>, bytes>) {
    match answer
    case Ok(resp) => outcome.Reply? && Typed.DecodeStruct(respFields, outcome.body) == Ok(resp)
    case Err(text) => outcome == Session.Failure(text)
  }

  /**
   * In every run of a connection, a call with no earlier timeout whose request is the encoding of a struct gives
   * its client exactly what the implementation answers to that struct, decoded.
   */
  lemma CallReturnsAnswer(handlers: Session.Handlers, events: seq<Session.Event>, r: Session.Completed,
                          reqFields: seq<Field>, respFields: seq<Field>, impl: Implementation,
                          errText: Error -> bytes, req: seq<Value>)
    requires Session.Run(handlers, Session.FRESH, events).Some?
    requires r in Session.Run(handlers, Session.FRESH, events).value.completed && r.timeoutsBefore == 0
    requires r.call < |Session.Run(handlers, Session.FRESH, events).value.requests|
    requires forall mw :: mw in handlers.middleware ==> Session.Transparent(mw)
    requires var request := Session.Run(handlers, Session.FRESH, events).value.requests[r.call].req;
             && request.method_ in handlers.byName
             && handlers.byName[request.method_] == Adapter(reqFields, respFields, impl, errText)
             && |req| == |reqFields| && request.body == Body(Typed.TypedEntries(reqFields, req))
    requires DistinctIds(reqFields) && Typed.WellTyped(reqFields, req) && Typed.WritableStruct(reqFields, req)
    requires DistinctIds(respFields)
    requires impl(r.call, req).Ok? ==>
               Typed.WellTyped(respFields, impl(r.call, req).value)
                 && Typed.WritableStruct(respFields, impl(r.call, req).value)
    ensures ClientGets(respFields, r.outcome, impl(r.call, req))
  {
    hide Session.Run;
    Session.SessionSafety(handlers, events, r);
    var request := Session.Run(handlers, Session.FRESH, events).value.requests[r.call].req;
    Session.ChainTransparent(handlers.middleware, handlers.byName[request.method_], r.call, request.hdr, request.body);
    AdapterAnswers(reqFields, respFields, impl, errText, r.call, request.hdr, req);
    AnswerArrives(handlers, r.call, request, respFields, impl(r.call, req));
  }

  lemma AdapterAnswers(reqFields: seq<Field>, respFields: seq<Field>, impl: Implementation, errText: Error -> bytes,
                       n: nat, hdr: bytes, req: seq<Value>)
    requires DistinctIds(reqFields) && Typed.WellTyped(reqFields, req) && Typed.WritableStruct(reqFields, req)
    requires impl(n, req).Ok? ==> |impl(n, req).value| == |respFields|
    ensures Adapter(reqFields, respFields, impl, errText)(n, hdr, Body(Typed.TypedEntries(reqFields, req)))
         == match impl(n, req)
            case Err(text) => Err(text)
            case Ok(resp) => Ok(Body(Typed.TypedEntries(respFields, resp)))
  {
    var body := Body(Typed.TypedEntries(reqFields, req));
    assert body + [] == body;
    Typed.RoundTrip(reqFields, req, []);
  }

  lemma AnswerArrives(handlers: Session.Handlers, n: nat, request: Session.Request, respFields: seq<Field>,
                      answer: Result<seq<Value>, bytes>)
    requires DistinctIds(respFields)
    requires answer.Ok? ==> Typed.WellTyped(respFields, answer.value) && Typed.WritableStruct(respFields, answer.value)
    requires Session.Answer(handlers, n, request)
          == match answer
             case Err(text) => Err(text)
             case Ok(resp) => Ok(Body(Typed.TypedEntries(respFields, resp)))
    ensures ClientGets(respFields, Session.Own(handlers, n, request), answer)
  {
    if answer.Ok? {
      var body := Body(Typed.TypedEntries(respFields, answer.value));
      assert body + [] == body;
      Typed.RoundTrip(respFields, answer.value, []);
    }
  }
}
