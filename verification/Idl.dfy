/** The contract a codec works from: the types of idl/idl.go, its lookups and its validation. */
module Idl {
  import opened Wrappers
  import opened Bytes
  import opened Sets
  import opened Wire

  datatype Field = Field(id: int, typ: string, name: string)

  datatype Struct = Struct(name: string, fields: seq<Field>)

  datatype Method = Method(name: string, req: string, resp: string, httpMethod: string, uri: string)

  datatype Spec = Spec(service: string, methods: seq<Method>, structs: map<string, Struct>)

  /** The position of the first field with this id. */
  function FieldIndex(fields: seq<Field>, id: int): (r: Option<nat>)
    ensures r.Some? ==> r.value < |fields| && fields[r.value].id == id
    ensures r.Some? ==> forall j :: 0 <= j < r.value && j < |fields| ==> fields[j].id != id
    ensures r.None? ==> forall f :: f in fields ==> f.id != id
  {
    if fields == [] then None
    else if fields[0].id == id then Some(0)
    else
      match FieldIndex(fields[1..], id)
      case Some(k) => Some(k + 1)
      case None => None
  }

  method FieldByID(st: Struct, id: int) returns (r: Option<nat>)
    ensures r == FieldIndex(st.fields, id)
  {
    for k := 0 to |st.fields|
      invariant forall j :: 0 <= j < k ==> st.fields[j].id != id
    {
      if st.fields[k].id == id {
        return Some(k);
      }
    }
    return None;
  }

  predicate DistinctIds(fields: seq<Field>) {
    forall i, j :: 0 <= i < j < |fields| ==> fields[i].id != fields[j].id
  }

  predicate DistinctNames(fields: seq<Field>) {
    forall i, j :: 0 <= i < j < |fields| ==> fields[i].name != fields[j].name
  }

  /** The wire tag of an IDL type. */
  function TypeTag(typ: string): Option<byte> {
    if typ == "i64" then Some(TI64)
    else if typ == "string" then Some(TSTRING)
    else if typ == "bool" then Some(TBOOL)
    else None
  }

  predicate Supported(fields: seq<Field>) {
    forall f :: f in fields ==> TypeTag(f.typ).Some?
  }

  lemma FieldIndexOf(fields: seq<Field>, k: nat)
    requires k < |fields| && DistinctIds(fields)
    ensures FieldIndex(fields, fields[k].id) == Some(k)
  {
  }

  // ----- validate -----

  datatype SpecError = MissingService | NoMethods | UnknownReq | UnknownResp | ReusedId

  function MethodsOk(spec: Spec, methods: seq<Method>): Option<SpecError> {
    if methods == [] then None
    else if methods[0].req !in spec.structs then Some(UnknownReq)
    else if methods[0].resp !in spec.structs then Some(UnknownResp)
    else MethodsOk(spec, methods[1..])
  }

  function Validation(spec: Spec): Option<SpecError> {
    if spec.service == [] then Some(MissingService)
    else if spec.methods == [] then Some(NoMethods)
    else
      match MethodsOk(spec, spec.methods)
      case Some(e) => Some(e)
      case None => if forall n :: n in spec.structs ==> DistinctIds(spec.structs[n].fields) then None
        else Some(ReusedId)
  }

  /** What every accepted spec has: a service, methods whose structs exist, and distinct ids in every struct. */
  predicate Resolved(spec: Spec) {
    && spec.service != []
    && spec.methods != []
    && (forall m :: m in spec.methods ==> m.req in spec.structs && m.resp in spec.structs)
    && forall n :: n in spec.structs ==> DistinctIds(spec.structs[n].fields)
  }

  lemma {:induction false} MethodsOkMeans(spec: Spec, methods: seq<Method>)
    ensures MethodsOk(spec, methods).None?
        <==> forall m :: m in methods ==> m.req in spec.structs && m.resp in spec.structs
  {
    if methods != [] {
      MethodsOkMeans(spec, methods[1..]);
      assert methods == [methods[0]] + methods[1..];
    }
  }

  /** validate accepts exactly the resolved specs. */
  lemma ValidationIff(spec: Spec)
    ensures Validation(spec).None? <==> Resolved(spec)
  {
    MethodsOkMeans(spec, spec.methods);
  }

  /** The check of one struct, with the map of the ids seen so far. */
  method CheckIds(fields: seq<Field>) returns (ok: bool)
    ensures ok == DistinctIds(fields)
  {
    var seen: map<int, string> := map[];
    for k := 0 to |fields|
      invariant DistinctIds(fields[..k])
      invariant forall id :: id in seen <==> exists j :: 0 <= j < k && fields[j].id == id
    {
      if fields[k].id in seen {
        var j :| 0 <= j < k && fields[j].id == fields[k].id;
        return false;
      }
      seen := seen[fields[k].id := fields[k].name];
    }
    assert fields[..|fields|] == fields;
    return true;
  }

  method Validate(spec: Spec) returns (r: Option<SpecError>)
    ensures r == Validation(spec)
  {
    if spec.service == [] {
      return Some(MissingService);
    }
    if spec.methods == [] {
      return Some(NoMethods);
    }
    for k := 0 to |spec.methods|
      invariant MethodsOk(spec, spec.methods[k..]) == MethodsOk(spec, spec.methods)
    {
      var m := spec.methods[k];
      assert spec.methods[k..][1..] == spec.methods[k + 1..];
      if m.req !in spec.structs {
        return Some(UnknownReq);
      }
      if m.resp !in spec.structs {
        return Some(UnknownResp);
      }
    }
    assert spec.methods[|spec.methods|..] == [];
    var rest := spec.structs.Keys;
    while rest != {}
      invariant rest <= spec.structs.Keys
      invariant forall n :: n in spec.structs && n !in rest ==> DistinctIds(spec.structs[n].fields)
      decreases |rest|
    {
      ghost var some := HasElement(rest);
      var n :| n in rest;
      rest := rest - {n};
      var ok := CheckIds(spec.structs[n].fields);
      if !ok {
        return Some(ReusedId);
      }
    }
    return None;
  }
}
