/** The spellings of one field and of one method, and that each of them parses to it. */
module IdlLines {
  import opened Wrappers
  import opened GoStrings
  import opened Idl
  import opened IdlText

  // ----- Names, URIs and numbers that can be rendered -----

  predicate NameChar(c: char) {
    'a' <= c <= 'z' || 'A' <= c <= 'Z' || '0' <= c <= '9' || c == '_'
  }

  predicate IsName(s: string) {
    s != [] && forall c :: c in s ==> NameChar(c)
  }

  predicate UriChar(c: char) {
    c != ',' && c != '"' && c != '\'' && c != '(' && c != ')' && c != '#' && c != '\n'
  }

  predicate IsUri(s: string) {
    (forall c :: c in s ==> UriChar(c)) && !Contains(s, "//")
  }

  predicate IsField(f: Field) {
    IsName(f.name) && TypeTag(f.typ).Some? && -0x8000_0000_0000_0000 <= f.id < 0x8000_0000_0000_0000
  }

  predicate IsMethod(m: Method) {
    IsName(m.name) && IsName(m.req) && IsName(m.resp) && IsUri(m.uri)
  }

  lemma NameIsPlain(s: string)
    requires forall c :: c in s ==> NameChar(c)
    ensures forall c :: c in s ==>
        UriChar(c) && !Space(c) && c != '=' && c != ':' && c != '/' && c != ';' && c != '{' && c != '}' && c != '.'
    ensures s != [] ==> IsWord(s) && Tight(s)
  {
    if s != [] {
      assert s[0] in s && s[|s| - 1] in s;
    }
  }

  // ----- Fields -----

  /** How a field is written: a qualifier, a default value, an annotation and a separator, each of them optional. */
  datatype FieldForm = FieldForm(qualifier: string, default: string, note: string, sep: string)

  const PLAIN := FieldForm([], [], [], [])

  predicate IsSep(sep: string) {
    sep == "" || sep == "," || sep == ";" || sep == ",;"
  }

  /** An annotation without parentheses inside that looks like one. */
  predicate IsNote(note: string) {
    && (forall c :: c in note ==> c != '(' && c != ')' && c != '#' && c != '/' && c != '\n')
    && ('=' in note || Contains(note, "agw."))
  }

  predicate IsFieldForm(form: FieldForm) {
    && (form.qualifier == "" || form.qualifier == "required" || form.qualifier == "optional")
    && (forall c :: c in form.default ==> NameChar(c))
    && (form.note == [] || IsNote(form.note))
    && IsSep(form.sep)
  }

  /** The type and the name, with the qualifier in front. */
  function Words(f: Field, qualifier: string): string {
    (if qualifier == [] then [] else qualifier + [' ']) + (f.typ + [' '] + f.name)
  }

  function FieldCore(f: Field, qualifier: string): string {
    ShowInt(f.id) + [':'] + ([' '] + Words(f, qualifier))
  }

  function WithDefault(t: string, default: string): string {
    if default == [] then t else t + [' '] + ['='] + ([' '] + default)
  }

  function WithNote(t: string, note: string): string {
    if note == [] then t else t + [' '] + ['('] + note + [')']
  }

  function FieldText(f: Field, form: FieldForm): string {
    WithNote(WithDefault(FieldCore(f, form.qualifier), form.default), form.note) + form.sep
  }

  lemma TypeIsWord(typ: string)
    requires TypeTag(typ).Some?
    ensures IsWord(typ) && forall c :: c in typ ==> NameChar(c)
  {
  }

  lemma ShownIsPlain(n: int)
    ensures ShowInt(n) != [] && Tight(ShowInt(n))
    ensures forall c :: c in ShowInt(n) ==> (Digit(c) || c == '-') && !Space(c)
  {
    var s := ShowInt(n);
    forall c | c in s
      ensures (Digit(c) || c == '-') && !Space(c)
    {
    }
    assert s[0] in s && s[|s| - 1] in s;
  }

  lemma FieldWords(f: Field, qualifier: string)
    requires IsField(f) && (qualifier == "" || qualifier == "required" || qualifier == "optional")
    ensures Fields(TrimSpace([' '] + Words(f, qualifier)))
         == if qualifier == [] then [f.typ, f.name] else [qualifier, f.typ, f.name]
  {
    hide Fields, TrimSpace, NameChar;
    NameIsPlain(f.name);
    TypeIsWord(f.typ);
    var t, w := f.typ + [' '] + f.name, Words(f, qualifier);
    assert t[0] == f.typ[0] && t[|t| - 1] == f.name[|f.name| - 1];
    assert f.typ[0] in f.typ && f.name[|f.name| - 1] in f.name;
    FieldsTwo(f.typ, f.name);
    assert w[|w| - 1] == t[|t| - 1];
    assert qualifier != [] ==> w[0] == qualifier[0];
    TrimOne(w);
    if qualifier == [] {
      assert w == t;
    } else {
      assert w == qualifier + [' '] + t;
      FieldsCons(qualifier, t);
    }
  }

  /** A character that occurs in no separator, annotation or default value. */
  predicate CoreChar(c: char) {
    NameChar(c) || c == '-' || c == ':' || c == ' '
  }

  lemma FieldCoreChars(f: Field, qualifier: string)
    requires IsField(f) && (qualifier == "" || qualifier == "required" || qualifier == "optional")
    ensures var t := FieldCore(f, qualifier);
            && (forall c :: c in t ==> CoreChar(c))
            && t != [] && Tight(t) && NameChar(t[|t| - 1]) && t[0] != ' ' && '=' !in t
  {
    hide ShowInt, Space;
    TypeIsWord(f.typ);
    ShownIsPlain(f.id);
    NameIsPlain(f.name);
    var t := FieldCore(f, qualifier);
    var a := ShowInt(f.id);
    assert t[0] == a[0] && t[|t| - 1] == f.name[|f.name| - 1];
    assert f.name[|f.name| - 1] in f.name && a[0] in a;
    forall c | c in t
      ensures CoreChar(c)
    {
      assert c in a || c == ':' || c == ' ' || c in qualifier || c in f.typ || c in f.name;
    }
  }

  lemma NoSuffix(t: string, c: char)
    requires t != [] && t[|t| - 1] != c
    ensures TrimSuffix(t, [c]) == t
  {
    assert t[|t| - 1..] == [t[|t| - 1]];
  }

  lemma SuffixGone(t: string, c: char)
    ensures TrimSuffix(t + [c], [c]) == t
  {
    assert (t + [c])[|t|..] == [c] && (t + [c])[..|t|] == t;
  }

  /** Separators go: none, one of them, or a semicolon after a comma. */
  lemma SeparatorsGo(t: string, sep: string)
    requires t != [] && Tight(t) && t[|t| - 1] != ';' && t[|t| - 1] != ',' && IsSep(sep)
    ensures TrimSeparators(t + sep) == t
  {
    hide TrimSuffix, TrimSpace;
    NoSuffix(t, ';');
    NoSuffix(t, ',');
    SuffixGone(t, ';');
    SuffixGone(t, ',');
    SuffixGone(t + [','], ';');
    NoSuffix(t + [','], ';');
    TrimTight(t);
    assert t + "" == t && t + "," == t + [','] && t + ";" == t + [';'] && t + ",;" == t + [','] + [';'];
  }

  lemma NothingToSplit(t: string)
    requires t != [] && Tight(t) && t[|t| - 1] != ')'
    ensures SplitAnnot(t) == (t, [])
  {
    hide TrimSpace, MatchOpen, Contains;
    TrimTight(t);
  }

  /** An annotation goes. */
  lemma NoteGoes(t: string, note: string)
    requires t != [] && Tight(t) && NameChar(t[|t| - 1]) && (note == [] || IsNote(note))
    ensures SplitAnnot(WithNote(t, note)) == (t, note)
  {
    hide SplitAnnot, TrimSpace, Contains;
    if note == [] {
      NothingToSplit(t);
    } else {
      ContainsChar(note, '=');
      assert (t + [' '])[0] == t[0];
      SplitBlock(t + [' '], note);
      TrimOne(t);
    }
  }

  /** A default value goes. */
  lemma DefaultGoes(t: string, default: string)
    requires t != [] && Tight(t) && '=' !in t
    ensures var u := WithDefault(t, default);
            if default == [] then Index(u, '=') == None && u == t
            else Index(u, '=') == Some(|t| + 1) && TrimSpace(u[..|t| + 1]) == t
  {
    hide TrimSpace;
    if default != [] {
      IndexAt(t + [' '], '=', [' '] + default);
      assert WithDefault(t, default)[..|t| + 1] == t + [' '];
      TrimOne(t);
    }
  }

  lemma WithDefaultEnds(t: string, default: string)
    requires t != [] && Tight(t) && NameChar(t[|t| - 1]) && forall c :: c in default ==> NameChar(c)
    ensures var u := WithDefault(t, default); u != [] && Tight(u) && NameChar(u[|u| - 1]) && u[0] == t[0]
  {
    var u := WithDefault(t, default);
    if default != [] {
      assert u[|u| - 1] == default[|default| - 1] && default[|default| - 1] in default;
    }
  }

  lemma WithNoteEnds(t: string, note: string)
    requires t != [] && Tight(t) && NameChar(t[|t| - 1])
    ensures var u := WithNote(t, note);
            && u != [] && Tight(u) && u[|u| - 1] != ';' && u[|u| - 1] != ',' && u[|u| - 1] != '/' && u[0] == t[0]
  {
  }

  lemma ColonSplits(f: Field, qualifier: string)
    ensures var t := FieldCore(f, qualifier);
            && Index(t, ':') == Some(|ShowInt(f.id)|)
            && |ShowInt(f.id)| < |t|
            && t[..|ShowInt(f.id)|] == ShowInt(f.id)
            && t[|ShowInt(f.id)| + 1..] == [' '] + Words(f, qualifier)
  {
    ShownIsPlain(f.id);
    IndexAt(ShowInt(f.id), ':', [' '] + Words(f, qualifier));
  }

  lemma FieldSeparated(f: Field, form: FieldForm)
    requires IsField(f) && IsFieldForm(form)
    ensures var u := WithDefault(FieldCore(f, form.qualifier), form.default);
            SplitAnnot(TrimSeparators(FieldText(f, form))) == (u, form.note)
  {
    hide NameChar, FieldCore, WithDefault, WithNote, SplitAnnot, TrimSeparators, IsNote, Tight;
    var core := FieldCore(f, form.qualifier);
    var u := WithDefault(core, form.default);
    FieldCoreChars(f, form.qualifier);
    WithDefaultEnds(core, form.default);
    WithNoteEnds(u, form.note);
    SeparatorsGo(WithNote(u, form.note), form.sep);
    NoteGoes(u, form.note);
  }

  /** Every spelling of a field parses to it, negative ids included. */
  lemma ParseFieldOf(f: Field, form: FieldForm)
    requires IsField(f) && IsFieldForm(form)
    ensures ParseField(FieldText(f, form)) == Ok(f)
  {
    hide ShowInt, Fields, TrimSpace, Atoi, NameChar, Words, FieldCore, WithDefault, FieldText, SplitAnnot;
    hide TrimSeparators, IsNote, Tight, Index, IsName;
    var core := FieldCore(f, form.qualifier);
    FieldSeparated(f, form);
    FieldCoreChars(f, form.qualifier);
    DefaultGoes(core, form.default);
    ShownIsPlain(f.id);
    ColonSplits(f, form.qualifier);
    FieldWords(f, form.qualifier);
    AtoiOfShown(f.id);
    TrimTight(ShowInt(f.id));
    assert ShowInt(f.id) != [] && |core| > 0;
  }

  // ----- Annotations -----

  lemma {:induction false} MatchOpenSkips(line: string, lo: nat, n: nat)
    requires lo <= n <= |line| && forall i :: lo <= i < n ==> line[i] != '(' && line[i] != ')'
    ensures MatchOpen(line, n, 1) == MatchOpen(line, lo, 1)
  {
    if lo < n {
      MatchOpenSkips(line, lo, n - 1);
    }
  }

  lemma OpenHere(line: string, i: nat)
    requires i < |line| && line[i] == '('
    ensures MatchOpen(line, i + 1, 1) == Some(i)
  {
  }

  lemma CloseHere(line: string)
    requires line != [] && line[|line| - 1] == ')'
    ensures MatchOpen(line, |line|, 0) == MatchOpen(line, |line| - 1, 1)
  {
  }

  /** The last block of a line, when it has no parentheses inside. */
  lemma LastBlock(front: string, inner: string)
    requires '(' !in inner && ')' !in inner
    ensures MatchOpen(front + ['('] + inner + [')'], |front| + |inner| + 2, 0) == Some(|front|)
  {
    hide MatchOpen;
    var line := front + ['('] + inner + [')'];
    OpenHere(line, |front|);
    CloseHere(line);
    forall i | |front| + 1 <= i < |line| - 1
      ensures line[i] != '(' && line[i] != ')'
    {
      assert line[i] == inner[i - |front| - 1];
      assert inner[i - |front| - 1] in inner;
    }
    MatchOpenSkips(line, |front| + 1, |line| - 1);
  }

  lemma SplitBlock(front: string, inner: string)
    requires '(' !in inner && ')' !in inner && front != [] && !Space(front[0])
    ensures var line := front + ['('] + inner + [')'];
            SplitAnnot(line)
            == if Contains(inner, "=") || Contains(inner, "agw.") then (TrimSpace(front), inner) else (line, [])
  {
    hide TrimSpace, MatchOpen, Contains;
    var line := front + ['('] + inner + [')'];
    assert line[0] == front[0] && line[|line| - 1] == ')' && |line| == |front| + |inner| + 2;
    assert Tight(line);
    TrimTight(line);
    LastBlock(front, inner);
    assert line[|front| + 1..|line| - 1] == inner;
    assert line[..|front|] == front;
  }

  lemma CutAt(left: string, right: string)
    requires '=' !in left
    ensures Cut(left + ['='] + right) == Some((left, right))
  {
    IndexAt(left, '=', right);
    var p := left + ['='] + right;
    assert p[..|left|] == left && p[|left| + 1..] == right;
  }

  /** A key and its value, between quotes of either kind. */
  function Attr(q: char, key: string, val: string): string {
    key + " = " + Quoted(q, val)
  }

  function Quoted(q: char, val: string): string {
    [q] + val + [q]
  }

  lemma CutOfAttr(q: char, key: string, val: string)
    requires '=' !in key
    ensures Cut(Attr(q, key, val)) == Some((key + [' '], [' '] + Quoted(q, val)))
  {
    hide Cut, Quoted;
    assert Attr(q, key, val) == (key + [' ']) + ['='] + ([' '] + Quoted(q, val));
    CutAt(key + [' '], [' '] + Quoted(q, val));
  }

  /** Between the quotes the value is found again. */
  lemma ValueOfQuoted(q: char, val: string)
    requires (q == '"' || q == '\'') && forall c :: c in val ==> UriChar(c)
    ensures TrimQuotes(TrimSpace([' '] + Quoted(q, val))) == val
  {
    hide TrimSpace, TrimQuotes;
    var quoted := Quoted(q, val);
    assert quoted[0] == q && quoted[|quoted| - 1] == q;
    TrimOne(quoted);
    Unquoted(q, val);
  }

  lemma AttrIsTight(q: char, key: string, val: string)
    requires (q == '"' || q == '\'') && key != [] && !Space(key[0])
    ensures Tight(Attr(q, key, val)) && Attr(q, key, val) != []
  {
    assert Attr(q, key, val)[0] == key[0] && Attr(q, key, val)[|Attr(q, key, val)| - 1] == q;
  }

  lemma {:induction false} KVFirst(parts: seq<string>, more: seq<string>, n: nat)
    requires n <= |parts|
    ensures KV(parts + more, n) == KV(parts, n)
  {
    hide Cut, TrimSpace, TrimQuotes;
    if n > 0 {
      KVFirst(parts, more, n - 1);
      assert (parts + more)[n - 1] == parts[n - 1];
    }
  }

  predicate IsKey(key: string) {
    key != [] && Tight(key) && '=' !in key && ',' !in key
  }

  lemma AttrTrims(q: char, key: string, val: string)
    requires (q == '"' || q == '\'') && IsKey(key)
    ensures TrimSpace(Attr(q, key, val)) == TrimSpace([' '] + Attr(q, key, val)) == Attr(q, key, val)
  {
    hide Attr, TrimSpace, Space;
    assert !Space(key[0]) by { KeyStarts(key); }
    AttrIsTight(q, key, val);
    TrimTight(Attr(q, key, val));
    TrimOne(Attr(q, key, val));
  }

  lemma KeyStarts(key: string)
    requires IsKey(key)
    ensures !Space(key[0])
  {
  }

  lemma AttrPair(q: char, key: string, val: string)
    requires (q == '"' || q == '\'') && IsKey(key) && forall c :: c in val ==> UriChar(c)
    ensures Cut(Attr(q, key, val)).Some?
    ensures var (k, v) := Cut(Attr(q, key, val)).value; TrimSpace(k) == key && TrimQuotes(TrimSpace(v)) == val
  {
    hide Attr, Cut, Quoted, TrimSpace, TrimQuotes, UriChar;
    CutOfAttr(q, key, val);
    TrimOne(key);
    ValueOfQuoted(q, val);
  }

  lemma NoComma(q: char, key: string, val: string)
    requires q != ',' && ',' !in key && forall c :: c in val ==> UriChar(c)
    ensures ',' !in Attr(q, key, val)
  {
  }

  lemma KVOfOne(q: char, key: string, val: string)
    requires (q == '"' || q == '\'') && IsKey(key) && forall c :: c in val ==> UriChar(c)
    ensures ParseKV(Attr(q, key, val)) == map[key := val]
  {
    hide Attr, Cut, UriChar, TrimSpace, TrimQuotes, Split, Space;
    var p := Attr(q, key, val);
    AttrPair(q, key, val);
    AttrTrims(q, key, val);
    NoComma(q, key, val);
    assert p != [] by { KeyStarts(key); AttrIsTight(q, key, val); }
    SplitOne(p, ',');
    assert KV([p], 0) == map[];
    assert KV([p], 1) == map[key := val];
  }

  /** One more attribute adds its pair, over an earlier one with the same key. */
  lemma KVAdds(annot: string, q: char, key: string, val: string)
    requires annot != []
    requires (q == '"' || q == '\'') && IsKey(key) && forall c :: c in val ==> UriChar(c)
    ensures ParseKV(annot + [','] + ([' '] + Attr(q, key, val))) == ParseKV(annot)[key := val]
  {
    hide Attr, Cut, UriChar, TrimSpace, TrimQuotes, Split, Space;
    var part := [' '] + Attr(q, key, val);
    AttrPair(q, key, val);
    AttrTrims(q, key, val);
    NoComma(q, key, val);
    SplitLast(annot, ',', part);
    KVFirst(Split(annot, ','), [part], |Split(annot, ',')|);
  }

  /** A part without an equals sign is passed over. */
  lemma KVIgnores(annot: string, part: string)
    requires annot != [] && '=' !in part && ',' !in part
    ensures ParseKV(annot + [','] + part) == ParseKV(annot)
  {
    hide TrimSpace, TrimQuotes, Split;
    SplitLast(annot, ',', part);
    TrimIsPart(part);
    KVFirst(Split(annot, ','), [part], |Split(annot, ',')|);
  }

  lemma TrimIsPart(s: string)
    ensures forall c :: c in TrimSpace(s) ==> c in s
  {
  }

  // ----- Methods -----

  /**
   * How a method is written: the response before the name or at the end, the request with or without a name, the
   * attributes in either order between quotes of either kind, the verb in either case, and a separator.
   */
  datatype MethodForm =
    MethodForm(respFirst: bool, named: bool, verb: string, uriFirst: bool, quote: char, sep: string)

  /** w in any mixture of cases; w itself has no small letter. */
  predicate SpellsVerb(v: string, w: string) {
    |v| == |w| && forall i :: 0 <= i < |v| ==> SpellsChar(v[i], w[i])
  }

  predicate SpellsChar(c: char, d: char) {
    NameChar(d) && !('a' <= d <= 'z') && (c == d || ('A' <= d <= 'Z' && c as int == d as int + 32))
  }

  predicate IsMethodForm(m: Method, form: MethodForm) {
    SpellsVerb(form.verb, m.httpMethod) && (form.quote == '"' || form.quote == '\'') && IsSep(form.sep)
  }

  lemma VerbChars(v: string, w: string)
    requires SpellsVerb(v, w)
    ensures Upper(v) == w && (v == [] <==> w == []) && forall c :: c in v ==> NameChar(c)
  {
    forall c | c in v
      ensures NameChar(c)
    {
      var i :| 0 <= i < |v| && v[i] == c;
      assert SpellsChar(v[i], w[i]);
    }
    forall i | 0 <= i < |v|
      ensures Upper(v)[i] == w[i]
    {
      assert SpellsChar(v[i], w[i]);
    }
  }

  function Attrs(m: Method, form: MethodForm): string {
    var verb, uri := Attr(form.quote, "agw.method", form.verb), Attr(form.quote, "agw.uri", m.uri);
    if form.verb == [] then (if m.uri == [] then [] else uri)
    else if m.uri == [] then verb
    else if form.uriFirst then uri + [','] + ([' '] + verb)
    else verb + [','] + ([' '] + uri)
  }

  function Argument(m: Method, form: MethodForm): string {
    if form.named then "1: " + m.req + " req" else m.req
  }

  function Front(m: Method, form: MethodForm): string {
    if form.respFirst then m.resp + [' '] + m.name else m.name
  }

  function After(m: Method, form: MethodForm): string {
    if form.respFirst then [] else [' '] + m.resp
  }

  function MethodBase(m: Method, form: MethodForm): string {
    Front(m, form) + ['('] + Argument(m, form) + [')'] + After(m, form)
  }

  function MethodText(m: Method, form: MethodForm): string {
    WithNote(MethodBase(m, form), Attrs(m, form)) + form.sep
  }

  /** The parsed attributes of a method are its verb in capitals and its URI, absent when empty. */
  lemma AttrsParse(m: Method, form: MethodForm)
    requires IsMethod(m) && IsMethodForm(m, form)
    ensures var kv := ParseKV(Attrs(m, form));
            && (if "agw.method" in kv then Upper(kv["agw.method"]) else []) == m.httpMethod
            && (if "agw.uri" in kv then kv["agw.uri"] else []) == m.uri
  {
    hide ParseKV, Attr, Upper, UriChar, NameChar, SpellsVerb;
    VerbChars(form.verb, m.httpMethod);
    NameIsPlain(form.verb);
    var q := form.quote;
    assert "agw.method" != "agw.uri" by { assert "agw.method"[4] != "agw.uri"[4]; }
    assert IsKey("agw.method") && IsKey("agw.uri");
    AttrIsTight(q, "agw.method", form.verb);
    AttrIsTight(q, "agw.uri", m.uri);
    KVOfOne(q, "agw.method", form.verb);
    KVOfOne(q, "agw.uri", m.uri);
    KVAdds(Attr(q, "agw.method", form.verb), q, "agw.uri", m.uri);
    KVAdds(Attr(q, "agw.uri", m.uri), q, "agw.method", form.verb);
    NoAttributes();
  }

  lemma NoAttributes()
    ensures ParseKV([]) == map[]
  {
  }

  lemma AttrsChars(m: Method, form: MethodForm)
    requires IsMethod(m) && IsMethodForm(m, form)
    ensures var a := Attrs(m, form); '(' !in a && ')' !in a && '#' !in a && '\n' !in a && (a != [] ==> '=' in a)
  {
    hide SpellsVerb, Upper;
    VerbChars(form.verb, m.httpMethod);
    NameIsPlain(form.verb);
    var verb, uri := Attr(form.quote, "agw.method", form.verb), Attr(form.quote, "agw.uri", m.uri);
    forall c | c in Attrs(m, form)
      ensures c == ',' || c == form.quote || UriChar(c)
    {
      assert c == ',' || c == ' ' || c in verb || c in uri;
    }
    assert uri[8] == '=' && verb[11] == '=';
  }

  lemma BaseEnds(m: Method, form: MethodForm)
    requires IsMethod(m)
    ensures var b := MethodBase(m, form);
            b != [] && Tight(b) && (NameChar(b[|b| - 1]) || b[|b| - 1] == ')') && NameChar(b[0])
  {
    NameIsPlain(m.name);
    NameIsPlain(m.resp);
    var b := MethodBase(m, form);
    assert b[0] == Front(m, form)[0];
    assert m.name[0] in m.name && m.resp[0] in m.resp && m.resp[|m.resp| - 1] in m.resp;
    if form.respFirst {
      assert b[|b| - 1] == ')';
    } else {
      assert b[|b| - 1] == m.resp[|m.resp| - 1];
    }
  }

  /** An argument list has nothing in it that an annotation has. */
  lemma PlainArgument(m: Method, form: MethodForm)
    requires IsMethod(m)
    ensures var inner := Argument(m, form);
            '(' !in inner && ')' !in inner && !Contains(inner, "=") && !Contains(inner, "agw.")
  {
    hide Contains;
    NameIsPlain(m.req);
    var inner := Argument(m, form);
    forall c | c in inner
      ensures c != '(' && c != ')' && c != '=' && c != '.'
    {
      assert c in "1: " || c in m.req || c in " req";
    }
    ContainedChars(inner, "=", '=');
    ContainedChars(inner, "agw.", '.');
  }

  lemma SplitMethod(m: Method, form: MethodForm)
    requires IsMethod(m) && IsMethodForm(m, form)
    ensures SplitAnnot(WithNote(MethodBase(m, form), Attrs(m, form))) == (MethodBase(m, form), Attrs(m, form))
  {
    hide Attrs, SplitAnnot, Argument, Contains, TrimSpace, Space;
    var b := MethodBase(m, form);
    BaseEnds(m, form);
    if Attrs(m, form) != [] {
      AttrsChars(m, form);
      ContainsChar(Attrs(m, form), '=');
      assert (b + [' '])[0] == b[0];
      assert !Space(b[0]) by { NotSpace(b); }
      SplitBlock(b + [' '], Attrs(m, form));
      TrimOne(b);
    } else if form.respFirst {
      PlainArgument(m, form);
      assert b == Front(m, form) + ['('] + Argument(m, form) + [')'];
      assert Front(m, form)[0] == b[0];
      assert !Space(b[0]) by { NotSpace(b); }
      SplitBlock(Front(m, form), Argument(m, form));
    } else {
      assert m.resp[|m.resp| - 1] in m.resp;
      assert b[|b| - 1] == m.resp[|m.resp| - 1];
      NothingToSplit(b);
    }
  }

  lemma NotSpace(s: string)
    requires s != [] && Tight(s)
    ensures !Space(s[0])
  {
  }

  /** The parts that parseMethodCore cuts a line into. */
  lemma CoreParts(front: string, inside: string, after: string)
    requires front != [] && '(' !in front && ')' !in after
    ensures var line := front + ['('] + inside + [')'] + after;
            && Index(line, '(') == Some(|front|)
            && LastIndex(line, ')') == Some(|front| + |inside| + 1)
            && line[..|front|] == front
            && line[|front| + 1..|front| + |inside| + 1] == inside
            && line[|front| + |inside| + 2..] == after
  {
    var line := front + ['('] + inside + [')'] + after;
    assert line == front + ['('] + (inside + [')'] + after);
    IndexAt(front, '(', inside + [')'] + after);
    assert line == (front + ['('] + inside) + [')'] + after;
    LastIndexAt(front + ['('] + inside, ')', after);
  }

  lemma CoreOf(front: string, inside: string, after: string, name: string, req: string, resp: string)
    requires front != [] && '(' !in front && ')' !in after && name != [] && req != [] && resp != []
    ensures && ParseReqType(TrimSpace(inside)) == Some(req)
            && (|| Fields(TrimSpace(front)) == [resp, name]
                || (Fields(TrimSpace(front)) == [name] && TrimSpace(after) == resp))
            ==> ParseMethodCore(front + ['('] + inside + [')'] + after) == Some((name, req, resp))
  {
    hide Fields, TrimSpace, ParseReqType, Index, LastIndex;
    CoreParts(front, inside, after);
  }

  lemma JoinedTight(v: string, w: string)
    requires IsWord(v) && IsWord(w)
    ensures Tight(v + [' '] + w)
  {
    var t := v + [' '] + w;
    assert t[0] == v[0] && t[|t| - 1] == w[|w| - 1];
    assert v[0] in v && w[|w| - 1] in w;
  }

  lemma ReqOfNamed(req: string)
    requires IsName(req)
    ensures var inside := "1: " + req + " req"; TrimSpace(inside) == inside && ParseReqType(inside) == Some(req)
  {
    hide Fields, TrimSpace;
    NameIsPlain(req);
    var inside := "1: " + req + " req";
    assert inside[0] == '1' && inside[|inside| - 1] == 'q';
    TrimTight(inside);
    assert inside == ['1'] + [':'] + ([' '] + (req + [' '] + "req"));
    IndexAt(['1'], ':', [' '] + (req + [' '] + "req"));
    assert inside[2..] == [' '] + (req + [' '] + "req");
    var words := req + [' '] + "req";
    assert words[0] == req[0] && words[|words| - 1] == 'q';
    TrimOne(words);
    FieldsTwo(req, "req");
  }

  lemma ArgumentParses(m: Method, form: MethodForm)
    requires IsMethod(m)
    ensures ParseReqType(TrimSpace(Argument(m, form))) == Some(m.req)
  {
    hide Fields, TrimSpace;
    if form.named {
      hide ParseReqType;
      ReqOfNamed(m.req);
    } else {
      NameIsPlain(m.req);
      TrimTight(m.req);
      assert ':' !in m.req;
    }
  }

  lemma CoreParses(m: Method, form: MethodForm)
    requires IsMethod(m)
    ensures ParseMethodCore(MethodBase(m, form)) == Some((m.name, m.req, m.resp))
  {
    hide Fields, TrimSpace, ParseReqType, ParseMethodCore, Contains, Argument;
    NameIsPlain(m.name);
    NameIsPlain(m.resp);
    ArgumentParses(m, form);
    JoinedTight(m.resp, m.name);
    TrimTight(Front(m, form));
    FieldsTwo(m.resp, m.name);
    FieldsOne(m.name);
    TrimOne(m.resp);
    CoreOf(Front(m, form), Argument(m, form), After(m, form), m.name, m.req, m.resp);
  }

  /** Every spelling of a method parses to it. */
  lemma ParseMethodOf(m: Method, form: MethodForm)
    requires IsMethod(m) && IsMethodForm(m, form)
    ensures ParseMethod(MethodText(m, form)) == Ok(m)
  {
    hide MethodBase, Attrs, ParseMethodCore, ParseKV, SplitAnnot, TrimSeparators, SpellsVerb, Upper;
    MethodEnds(m, form);
    SeparatorsGo(WithNote(MethodBase(m, form), Attrs(m, form)), form.sep);
    SplitMethod(m, form);
    AttrsParse(m, form);
    CoreParses(m, form);
  }

  lemma MethodEnds(m: Method, form: MethodForm)
    requires IsMethod(m)
    ensures var u := WithNote(MethodBase(m, form), Attrs(m, form));
            && u != [] && Tight(u) && u[|u| - 1] != ';' && u[|u| - 1] != ',' && u[|u| - 1] != '/' && NameChar(u[0])
  {
    hide MethodBase, Attrs;
    BaseEnds(m, form);
    var u := WithNote(MethodBase(m, form), Attrs(m, form));
    assert u[0] == MethodBase(m, form)[0];
    assert Attrs(m, form) != [] ==> u[|u| - 1] == ')';
  }
}
