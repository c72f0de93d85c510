/** The parser of IDL text: Parse and the functions it calls in idl/idl.go. */
module IdlText {
  import opened Wrappers
  import opened GoStrings
  import opened Idl

  datatype ParseError =
    | EmptyServiceName
    | EmptyStructName
    | Unexpected
    | BadMethod
    | BadField
    | BadFieldId
    | UnsupportedFieldType
    | LineTooLong
    | Invalid(error: SpecError)

  // ----- Lines -----

  function StripComment(s: string): string {
    var a := match Index(s, '#') case Some(i) => s[..i] case None => s;
    var b := match IndexOf(a, "//") case Some(i) => a[..i] case None => a;
    TrimSpace(b)
  }

  function TrimSeparators(line: string): string {
    TrimSpace(TrimSuffix(TrimSuffix(line, ";"), ","))
  }

  /** Scanning back from position n: where the parenthesis depth first returns to zero at an opening one. */
  function MatchOpen(line: string, n: nat, depth: int): (r: Option<nat>)
    requires n <= |line|
    ensures r.Some? ==> r.value < n
  {
    if n == 0 then None
    else if line[n - 1] == ')' then MatchOpen(line, n - 1, depth + 1)
    else if line[n - 1] == '(' then
      if depth - 1 == 0 then Some(n - 1) else MatchOpen(line, n - 1, depth - 1)
    else MatchOpen(line, n - 1, depth)
  }

  /** How many more closing than opening parentheses there are from i on. */
  function Unmatched(line: string, i: nat): int
    requires i <= |line|
    decreases |line| - i
  {
    if i == |line| then 0
    else Unmatched(line, i + 1) + (if line[i] == ')' then 1 else if line[i] == '(' then -1 else 0)
  }

  /** The opening parenthesis at i matches the last closing one: up to the end they balance, and from none later. */
  predicate Matches(line: string, i: nat) {
    && i < |line| && line[i] == '(' && Unmatched(line, i) == 0
    && forall j :: i < j < |line| && line[j] == '(' ==> Unmatched(line, j) != 0
  }

  lemma {:induction false} MatchOpenIs(line: string, n: nat)
    requires n <= |line| && forall j :: n <= j < |line| && line[j] == '(' ==> Unmatched(line, j) != 0
    ensures var r := MatchOpen(line, n, Unmatched(line, n));
            && (r.Some? ==> Matches(line, r.value))
            && (r.None? ==> forall i :: 0 <= i < |line| ==> !Matches(line, i))
  {
    if n > 0 && !(line[n - 1] == '(' && Unmatched(line, n - 1) == 0) {
      MatchOpenIs(line, n - 1);
    }
  }

  /** The trailing annotation block, if the text in the last parentheses looks like one. */
  function SplitAnnot(text: string): (string, string) {
    var line := TrimSpace(text);
    if line == [] || line[|line| - 1] != ')' then (line, [])
    else
      match MatchOpen(line, |line|, 0)
      case None => (line, [])
      case Some(i) =>
        if i + 1 > |line| - 1 then (line, [])
        else
          var inner := line[i + 1..|line| - 1];
          if Contains(inner, "=") || Contains(inner, "agw.") then (TrimSpace(line[..i]), inner) else (line, [])
  }

  function Cut(p: string): Option<(string, string)> {
    match Index(p, '=')
    case None => None
    case Some(k) => Some((p[..k], p[k + 1..]))
  }

  /** The map after the first n parts: a later part with the same key wins. */
  function KV(parts: seq<string>, n: nat): map<string, string>
    requires n <= |parts|
  {
    if n == 0 then map[]
    else
      match Cut(TrimSpace(parts[n - 1]))
      case None => KV(parts, n - 1)
      case Some((k, v)) => KV(parts, n - 1)[TrimSpace(k) := TrimQuotes(TrimSpace(v))]
  }

  function ParseKV(annot: string): map<string, string> {
    if annot == [] then map[] else var parts := Split(annot, ','); KV(parts, |parts|)
  }

  function ParseReqType(text: string): Option<string> {
    var inside := TrimSpace(text);
    if inside == [] then None
    else
      match Index(inside, ':')
      case None => Some(inside)
      case Some(colon) =>
        var rest := Fields(TrimSpace(inside[colon + 1..]));
        if rest == [] then None else Some(rest[0])
  }

  /** Name, request and response of a method in either form: `Resp Name(1: Req r)` or `Name(Req) Resp`. */
  function ParseMethodCore(line: string): Option<(string, string, string)> {
    match Index(line, '(')
    case None => None
    case Some(i) =>
      match LastIndex(line, ')')
      case None => None
      case Some(j) =>
        if i < 1 || j < i then None
        else
          var before := Fields(TrimSpace(line[..i]));
          var after := TrimSpace(line[j + 1..]);
          match ParseReqType(TrimSpace(line[i + 1..j]))
          case None => None
          case Some(req) =>
            if |before| == 1 then
              if before[0] == [] || req == [] || after == [] then None else Some((before[0], req, after))
            else if |before| == 2 then
              if before[1] == [] || req == [] || before[0] == [] then None else Some((before[1], req, before[0]))
            else None
  }

  function ParseMethod(text: string): Result<Method, ParseError> {
    var (core, annot) := SplitAnnot(TrimSeparators(text));
    match ParseMethodCore(core)
    case None => Err(BadMethod)
    case Some((name, req, resp)) =>
      var kv := ParseKV(annot);
      Ok(Method(name, req, resp,
                if "agw.method" in kv then Upper(kv["agw.method"]) else [],
                if "agw.uri" in kv then kv["agw.uri"] else []))
  }

  function ParseField(text: string): Result<Field, ParseError> {
    var annotated := SplitAnnot(TrimSeparators(text)).0;
    var core := match Index(annotated, '=') case Some(i) => TrimSpace(annotated[..i]) case None => annotated;
    match Index(core, ':')
    case None => Err(BadField)
    case Some(colon) =>
      if colon < 1 then Err(BadField)
      else
        match Atoi(TrimSpace(core[..colon]))
        case None => Err(BadFieldId)
        case Some(id) =>
          var words := Fields(TrimSpace(core[colon + 1..]));
          var rest := if |words| == 3 && (words[0] == "required" || words[0] == "optional") then words[1..] else words;
          if |rest| != 2 then Err(BadField)
          else if TypeTag(rest[0]).None? then Err(UnsupportedFieldType)
          else Ok(Field(id, rest[0], rest[1]))
  }

  // ----- The state machine -----

  datatype Mode = Top | InService | InStruct(name: string)

  datatype State = State(spec: Spec, mode: Mode)

  function Initial(): State {
    State(Spec([], [], map[]), Top)
  }

  /** The name in a `service X {` or `struct X {` line. */
  function HeaderName(line: string, keyword: string): string {
    TrimSpace(TrimSuffix(TrimPrefix(line, keyword), "{"))
  }

  function StepTop(st: State, line: string): Result<State, ParseError> {
    if HasPrefix(line, "namespace ") || HasPrefix(line, "include ") || HasPrefix(line, "const ")
      || HasPrefix(line, "typedef ") then Ok(st)
    else if HasPrefix(line, "service ") then
      var name := HeaderName(line, "service ");
      if name == [] then Err(EmptyServiceName) else Ok(State(st.spec.(service := name), InService))
    else if HasPrefix(line, "struct ") then
      var name := HeaderName(line, "struct ");
      if name == [] then Err(EmptyStructName)
      else Ok(State(st.spec.(structs := st.spec.structs[name := Struct(name, [])]), InStruct(name)))
    else Err(Unexpected)
  }

  function AddField(spec: Spec, name: string, f: Field): Spec {
    if name in spec.structs then
      spec.(structs := spec.structs[name := Struct(spec.structs[name].name, spec.structs[name].fields + [f])])
    else spec
  }

  function Step(st: State, raw: string): Result<State, ParseError> {
    var line := StripComment(raw);
    if line == [] || line == "{" then Ok(st)
    else if HasPrefix(line, "}") then Ok(st.(mode := Top))
    else
      match st.mode
      case Top => StepTop(st, line)
      case InService =>
        (match ParseMethod(line)
         case Err(e) => Err(e)
         case Ok(m) => Ok(st.(spec := st.spec.(methods := st.spec.methods + [m]))))
      case InStruct(name) =>
        (match ParseField(line)
         case Err(e) => Err(e)
         case Ok(f) => Ok(st.(spec := AddField(st.spec, name, f))))
  }

  /** How a line changes the state; Step is the one of the parser. */
  type Stepper = (State, string) -> Result<State, ParseError>

  function Steps(step: Stepper, st: State, lines: seq<string>): Result<State, ParseError>
    decreases |lines|
  {
    if lines == [] then Ok(st)
    else
      match step(st, lines[0])
      case Err(e) => Err(e)
      case Ok(st') => Steps(step, st', lines[1..])
  }

  function ParseText(text: string): Result<Spec, ParseError> {
    var scanned := Scan(text);
    match Steps(Step, Initial(), scanned.lines)
    case Err(e) => Err(e)
    case Ok(st) =>
      if scanned.tooLong then Err(LineTooLong)
      else
        match Validation(st.spec)
        case Some(e) => Err(Invalid(e))
        case None => Ok(st.spec)
  }

  // ----- The loops -----

  method FindOpen(line: string) returns (r: Option<nat>)
    ensures r == MatchOpen(line, |line|, 0)
    ensures r.Some? ==> Matches(line, r.value)
    ensures r.None? ==> forall i :: 0 <= i < |line| ==> !Matches(line, i)
  {
    MatchOpenIs(line, |line|);
    var depth := 0;
    var i := |line|;
    while i > 0
      invariant 0 <= i <= |line|
      invariant MatchOpen(line, i, depth) == MatchOpen(line, |line|, 0)
    {
      i := i - 1;
      if line[i] == ')' {
        depth := depth + 1;
      } else if line[i] == '(' {
        depth := depth - 1;
        if depth == 0 {
          return Some(i);
        }
      }
    }
    return None;
  }

  method ParseKVLoop(annot: string) returns (out: map<string, string>)
    ensures out == ParseKV(annot)
  {
    hide TrimSpace, TrimQuotes, Cut, Split;
    out := map[];
    if annot == [] {
      return;
    }
    var parts := Split(annot, ',');
    for i := 0 to |parts|
      invariant out == KV(parts, i)
    {
      var kv := Cut(TrimSpace(parts[i]));
      if kv.Some? {
        out := out[TrimSpace(kv.value.0) := TrimQuotes(TrimSpace(kv.value.1))];
      }
    }
  }

  method Parse(text: string) returns (r: Result<Spec, ParseError>)
    ensures r == ParseText(text)
  {
    var scanned := Scan(text);
    var lines := scanned.lines;
    var st := Initial();
    hide Step;
    for k := 0 to |lines|
      invariant Steps(Step, st, lines[k..]) == Steps(Step, Initial(), lines)
    {
      assert lines[k..][1..] == lines[k + 1..];
      var next := Step(st, lines[k]);
      if next.Err? {
        return Err(next.error);
      }
      st := next.value;
    }
    assert lines[|lines|..] == [];
    if scanned.tooLong {
      return Err(LineTooLong);
    }
    var invalid := Validate(st.spec);
    if invalid.Some? {
      return Err(Invalid(invalid.value));
    }
    r := Ok(st.spec);
  }

  // ----- What an accepted spec is -----

  ghost predicate TypesSupported(spec: Spec) {
    forall n :: n in spec.structs ==> Supported(spec.structs[n].fields)
  }

  lemma StepSupported(st: State, raw: string)
    requires TypesSupported(st.spec) && Step(st, raw).Ok?
    ensures TypesSupported(Step(st, raw).value.spec)
  {
    hide StripComment, ParseMethod, ParseField, StepTop, AddField, TypesSupported;
    var line := StripComment(raw);
    StepTopSupported(st, line);
    FieldSupported(line);
    if st.mode.InStruct? && ParseField(line).Ok? {
      AddFieldSupported(st.spec, st.mode.name, ParseField(line).value);
    }
    forall m
      ensures TypesSupported(st.spec.(methods := m))
    {
      MethodsDoNotMatter(st.spec, m);
    }
  }

  lemma StepTopSupported(st: State, line: string)
    requires TypesSupported(st.spec)
    ensures StepTop(st, line).Ok? ==> TypesSupported(StepTop(st, line).value.spec)
  {
    hide HeaderName;
  }

  lemma AddFieldSupported(spec: Spec, name: string, f: Field)
    requires TypesSupported(spec) && TypeTag(f.typ).Some?
    ensures TypesSupported(AddField(spec, name, f))
  {
  }

  lemma MethodsDoNotMatter(spec: Spec, methods: seq<Method>)
    requires TypesSupported(spec)
    ensures TypesSupported(spec.(methods := methods))
  {
  }

  lemma FieldSupported(line: string)
    ensures ParseField(line).Ok? ==> TypeTag(ParseField(line).value.typ).Some?
  {
    hide SplitAnnot, TrimSeparators, Fields, Atoi, TrimSpace, Index, TypeTag;
  }

  // ----- What an accepted line is -----

  lemma {:induction false} WordHasNoSpace(s: string)
    ensures forall c :: c in Word(s) ==> !Space(c)
  {
    if s != [] && !Space(s[0]) {
      WordHasNoSpace(s[1..]);
    }
  }

  lemma {:induction false} FieldsAreWords(s: string)
    ensures forall w :: w in Fields(s) ==> IsWord(w)
    decreases |s|
  {
    if s != [] {
      if Space(s[0]) {
        FieldsAreWords(s[1..]);
      } else {
        WordHasNoSpace(s);
        FieldsAreWords(s[|Word(s)|..]);
      }
    }
  }

  /** An accepted field has a 64-bit id, one of the three types, and a word for its name. */
  lemma AcceptedField(text: string)
    ensures ParseField(text).Ok? ==>
              var f := ParseField(text).value;
              && -0x8000_0000_0000_0000 <= f.id < 0x8000_0000_0000_0000 && IsWord(f.name)
              && (f.typ == "i64" || f.typ == "string" || f.typ == "bool")
  {
    hide SplitAnnot, TrimSeparators, Fields, TrimSpace, Index, IsWord, Digits;
    var annotated := SplitAnnot(TrimSeparators(text)).0;
    var core := match Index(annotated, '=') case Some(i) => TrimSpace(annotated[..i]) case None => annotated;
    if Index(core, ':').Some? {
      FieldsAreWords(TrimSpace(core[Index(core, ':').value + 1..]));
    }
  }

  /** An accepted method has a word for its name, and names its request and its response. */
  lemma AcceptedMethod(text: string)
    ensures ParseMethod(text).Ok? ==>
              var m := ParseMethod(text).value; IsWord(m.name) && m.req != [] && m.resp != []
  {
    hide SplitAnnot, TrimSeparators, ParseKV, Upper, ParseMethodCore;
    AcceptedCore(SplitAnnot(TrimSeparators(text)).0);
  }

  lemma AcceptedCore(line: string)
    ensures ParseMethodCore(line).Some? ==>
              var (name, req, resp) := ParseMethodCore(line).value; IsWord(name) && req != [] && resp != []
  {
    hide Fields, TrimSpace, IsWord, ParseReqType, Index, LastIndex;
    if Index(line, '(').Some? {
      FieldsAreWords(TrimSpace(line[..Index(line, '(').value]));
    }
  }

  /** A line can only add fields of supported types. */
  ghost predicate KeepsSupported(step: Stepper) {
    forall st: State, raw: string :: TypesSupported(st.spec) && step(st, raw).Ok? ==>
      TypesSupported(step(st, raw).value.spec)
  }

  lemma {:induction false} StepsSupported(step: Stepper, st: State, lines: seq<string>)
    requires KeepsSupported(step) && TypesSupported(st.spec) && Steps(step, st, lines).Ok?
    ensures TypesSupported(Steps(step, st, lines).value.spec)
    decreases |lines|
  {
    if lines != [] {
      hide TypesSupported;
      StepsSupported(step, step(st, lines[0]).value, lines[1..]);
    }
  }

  lemma ParserKeepsSupported()
    ensures KeepsSupported(Step)
  {
    hide Step, TypesSupported;
    forall st: State, raw: string | TypesSupported(st.spec) && Step(st, raw).Ok?
      ensures TypesSupported(Step(st, raw).value.spec)
    {
      StepSupported(st, raw);
    }
  }

  /**
   * Every text that parses gives a spec whose methods' structs exist, whose ids are distinct, and whose types are
   * supported.
   */
  lemma AcceptedSpec(text: string)
    ensures ParseText(text).Ok? ==> Resolved(ParseText(text).value) && TypesSupported(ParseText(text).value)
  {
    hide Steps;
    if ParseText(text).Ok? {
      ParserKeepsSupported();
      StepsSupported(Step, Initial(), Scan(text).lines);
      ValidationIff(ParseText(text).value);
    }
  }
}
