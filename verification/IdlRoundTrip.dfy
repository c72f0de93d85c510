/**
 * The texts of a spec: any document of structs, services and skipped lines, each line in any of its spellings, with
 * comments, blank lines and indentation anywhere, parses to what its blocks mean.
 */
module IdlRoundTrip {
  import opened Wrappers
  import opened GoStrings
  import opened Idl
  import opened IdlText
  import opened IdlLines

  // ----- Comments and blanks -----

  lemma {:induction false} IndexOfFinds(s: string, k: nat)
    requires k + 2 <= |s| && s[k..k + 2] == "//"
    ensures Contains(s, "//")
  {
    if k == 0 {
      assert s[..2] == s[0..2];
    } else {
      assert s[1..][k - 1..k + 1] == s[k..k + 2];
      IndexOfFinds(s[1..], k - 1);
    }
  }

  lemma JoinNoComment(a: string, b: string)
    requires !Contains(a, "//") && !Contains(b, "//")
    requires a == [] || b == [] || a[|a| - 1] != '/' || b[0] != '/'
    ensures !Contains(a + b, "//")
  {
    if IndexOf(a + b, "//").Some? {
      var k := IndexOf(a + b, "//").value;
      assert (a + b)[k..k + 2][0] == '/' && (a + b)[k..k + 2][1] == '/';
      assert (a + b)[k] == '/' && (a + b)[k + 1] == '/';
      if k + 2 <= |a| {
        assert a[k..k + 2] == "//";
        IndexOfFinds(a, k);
      } else if k >= |a| {
        assert b[k - |a|..k - |a| + 2] == "//";
        IndexOfFinds(b, k - |a|);
      }
    }
  }

  lemma NoSlashNoComment(s: string)
    requires '/' !in s
    ensures !Contains(s, "//")
  {
    ContainedChars(s, "//", '/');
  }

  /** Text without a comment in it, and to which a comment can be attached. */
  predicate NoRemark(t: string) {
    '#' !in t && !Contains(t, "//") && (t != [] ==> t[|t| - 1] != '/')
  }

  predicate Blanks(s: string) {
    forall c :: c in s ==> c == ' ' || c == '\t'
  }

  /** Nothing, or a comment of either kind. */
  predicate Remark(s: string) {
    s == [] || s[0] == '#' || "//" <= s
  }

  /** The line is the text with blanks around it and a comment after it. */
  predicate IsLine(line: string, t: string, before: string, after: string, remark: string) {
    line == before + t + after + remark && Blanks(before) && Blanks(after) && Remark(remark)
  }

  ghost predicate Written(line: string, t: string) {
    exists before, after, remark :: IsLine(line, t, before, after, remark)
  }

  lemma {:induction false} TrimLeftBlanks(b: string, s: string)
    requires Blanks(b)
    ensures TrimLeft(b + s) == TrimLeft(s)
  {
    if b == [] {
      assert b + s == s;
    } else {
      assert b[0] in b && (b + s)[1..] == b[1..] + s;
      assert forall c :: c in b[1..] ==> c in b;
      TrimLeftBlanks(b[1..], s);
    }
  }

  lemma {:induction false} TrimRightBlanks(s: string, b: string)
    requires Blanks(b)
    ensures TrimRight(s + b) == TrimRight(s)
  {
    if b == [] {
      assert s + b == s;
    } else {
      var n := |b| - 1;
      assert b[n] in b && (s + b)[..|s + b| - 1] == s + b[..n];
      assert forall c :: c in b[..n] ==> c in b;
      TrimRightBlanks(s, b[..n]);
    }
  }

  lemma TrimPadded(before: string, t: string, after: string)
    requires Blanks(before) && Blanks(after) && Tight(t)
    ensures TrimSpace(before + t + after) == t
  {
    hide Blanks;
    assert before + t + after == before + (t + after);
    TrimLeftBlanks(before, t + after);
    if t == [] {
      assert t + after == after + [];
      TrimLeftBlanks(after, []);
    } else {
      assert (t + after)[0] == t[0];
      TrimRightBlanks(t, after);
    }
  }

  lemma PaddedNoRemark(before: string, t: string, after: string)
    requires Blanks(before) && Blanks(after) && NoRemark(t)
    ensures NoRemark(before + t + after)
  {
    hide IndexOf;
    NoSlashNoComment(before);
    NoSlashNoComment(after);
    JoinNoComment(before, t);
    JoinNoComment(before + t, after);
    var s := before + t + after;
    if after != [] {
      assert s[|s| - 1] == after[|after| - 1] && after[|after| - 1] in after;
    } else if t == [] && before != [] {
      assert s[|s| - 1] == before[|before| - 1] && before[|before| - 1] in before;
    }
  }

  /** The first comment is the one that was attached. */
  lemma {:induction false} CommentAt(t: string, rest: string)
    requires !Contains(t + ['/'], "//")
    ensures IndexOf(t + "//" + rest, "//") == Some(|t|)
  {
    var s := t + "//" + rest;
    if t == [] {
      assert s == "//" + rest;
    } else {
      assert (t + ['/'])[..2] == s[..2];
      assert s[1..] == t[1..] + "//" + rest && (t + ['/'])[1..] == t[1..] + ['/'];
      CommentAt(t[1..], rest);
    }
  }

  lemma StripPlain(s: string)
    requires '#' !in s && !Contains(s, "//")
    ensures StripComment(s) == TrimSpace(s)
  {
    hide IndexOf, TrimSpace, Index;
  }

  lemma StripHash(t: string, rest: string)
    requires NoRemark(t)
    ensures StripComment(t + (['#'] + rest)) == TrimSpace(t)
  {
    hide IndexOf, TrimSpace, Index;
    IndexAt(t, '#', rest);
    assert t + (['#'] + rest) == t + ['#'] + rest;
    assert (t + ['#'] + rest)[..|t|] == t;
  }

  lemma StripSlashes(t: string, rest: string)
    requires NoRemark(t)
    ensures StripComment(t + ("//" + rest)) == TrimSpace(t)
  {
    hide IndexOf, TrimSpace, Index;
    var s := t + ("//" + rest);
    NoSlashNoComment([]);
    SlashEnds(t);
    var kept := match Index(s, '#') case Some(i) => s[..i] case None => s;
    if Index(s, '#').Some? {
      var i := Index(s, '#').value;
      forall j | 0 <= j < |t| + 2
        ensures s[j] != '#'
      {
        assert j < |t| ==> s[j] == t[j] && t[j] in t;
      }
      assert kept == t + "//" + rest[..i - |t| - 2];
      CommentAt(t, rest[..i - |t| - 2]);
    } else {
      assert s == t + "//" + rest;
      CommentAt(t, rest);
    }
    assert kept[..|t|] == t;
  }

  lemma SlashEnds(t: string)
    requires NoRemark(t)
    ensures !Contains(t + ['/'], "//")
  {
    hide IndexOf;
    if Contains(t + ['/'], "//") {
      var k := IndexOf(t + ['/'], "//").value;
      assert (t + ['/'])[k..k + 2][0] == '/' && (t + ['/'])[k..k + 2][1] == '/';
      assert (t + ['/'])[k] == '/' && (t + ['/'])[k + 1] == '/';
      if k + 2 <= |t| {
        assert t[k..k + 2] == "//";
        IndexOfFinds(t, k);
      }
    }
  }

  /** Blanks and a comment leave no trace. */
  lemma StripWritten(line: string, t: string)
    requires NoRemark(t) && Tight(t) && Written(line, t)
    ensures StripComment(line) == t
  {
    hide StripComment, NoRemark, TrimSpace, Blanks;
    var before, after, remark :| IsLine(line, t, before, after, remark);
    var s := before + t + after;
    PaddedNoRemark(before, t, after);
    TrimPadded(before, t, after);
    if remark == [] {
      assert line == s;
      StripPlain(s) by { RemarkFree(s); }
    } else if remark[0] == '#' {
      assert remark == ['#'] + remark[1..];
      StripHash(s, remark[1..]);
    } else {
      assert remark == "//" + remark[2..];
      StripSlashes(s, remark[2..]);
    }
  }

  lemma RemarkFree(s: string)
    requires NoRemark(s)
    ensures '#' !in s && !Contains(s, "//")
  {
  }

  /** In every state, a line with blanks around it and a comment after it steps the parser as the bare line does. */
  lemma RemarksDoNotMatter(st: State, line: string, t: string)
    requires NoRemark(t) && Tight(t) && Written(line, t)
    ensures Step(st, line) == Step(st, t)
  {
    hide StripComment, StepTop, ParseMethod, ParseField, NoRemark;
    StripWritten(line, t);
    assert IsLine(t, t, [], [], []);
    StripWritten(t, t);
  }

  /** A comment, a line of blanks, and a line with only the opening brace of a block. */
  ghost predicate Ignored(line: string) {
    Written(line, []) || Written(line, "{")
  }

  /** The line starts with this text, and anything follows. */
  predicate StartsWith(line: string, before: string, head: string, rest: string) {
    line == before + head + rest && Blanks(before)
  }

  lemma {:induction false} TrimRightKeeps(head: string, rest: string)
    requires head != [] && !Space(head[|head| - 1])
    ensures head <= TrimRight(head + rest)
  {
    var s := head + rest;
    if rest != [] && Space(s[|s| - 1]) {
      assert s[..|s| - 1] == head + rest[..|rest| - 1];
      TrimRightKeeps(head, rest[..|rest| - 1]);
    }
  }

  /** What a comment leaves of a line that starts with text without one. */
  lemma CutKeepsFront(line: string, front: string) returns (b: string)
    requires front <= line && '#' !in front && '/' !in front
    ensures front <= b && StripComment(line) == TrimSpace(b)
  {
    hide Index, IndexOf, TrimSpace;
    forall i | 0 <= i < |front|
      ensures line[i] != '#'
    {
      assert front[i] in front;
    }
    var a := match Index(line, '#') case Some(i) => line[..i] case None => line;
    assert front <= a;
    b := match IndexOf(a, "//") case Some(i) => a[..i] case None => a;
    SlashesLater(a, front);
  }

  /** Whatever follows it, comments included, the beginning of a line stays. */
  lemma StripKeepsHead(line: string, before: string, head: string, rest: string)
    requires StartsWith(line, before, head, rest)
    requires head != [] && Tight(head) && '#' !in head && '/' !in head
    ensures head <= StripComment(line)
  {
    hide TrimRight, TrimLeft, StripComment, Tight, Space;
    var front := before + head;
    assert front <= line;
    var b := CutKeepsFront(line, front);
    var more := b[|front|..];
    assert b == before + (head + more);
    TrimLeftBlanks(before, head + more);
    NoSpaceAhead(head, more);
    NoSpaceBehind(head);
    TrimRightKeeps(head, more);
  }

  lemma NoSpaceBehind(head: string)
    requires head != [] && Tight(head)
    ensures !Space(head[|head| - 1])
  {
  }

  lemma SlashesLater(a: string, front: string)
    requires front <= a && '/' !in front
    ensures IndexOf(a, "//").Some? ==> IndexOf(a, "//").value >= |front|
  {
    hide IndexOf;
    if IndexOf(a, "//").Some? {
      var k := IndexOf(a, "//").value;
      assert a[k..k + 2][0] == a[k];
      forall j | 0 <= j < |front|
        ensures a[j] != '/'
      {
        assert a[j] == front[j] && front[j] in front;
      }
    }
  }

  lemma NoSpaceAhead(head: string, more: string)
    requires head != [] && Tight(head)
    ensures TrimLeft(head + more) == head + more
  {
  }

  // ----- The lines of a document -----

  ghost predicate FieldLine(line: string, f: Field) {
    exists form :: IsFieldForm(form) && Written(line, FieldText(f, form))
  }

  ghost predicate MethodLine(line: string, m: Method) {
    exists form :: IsMethodForm(m, form) && Written(line, MethodText(m, form))
  }

  /** The brace may be left to the next line. */
  predicate IsTail(tail: string) {
    tail == " {" || tail == "{" || tail == ""
  }

  function Header(keyword: string, name: string, tail: string): string {
    keyword + (name + tail)
  }

  ghost predicate HeaderLine(line: string, keyword: string, name: string) {
    exists tail :: IsTail(tail) && Written(line, Header(keyword, name, tail))
  }

  ghost predicate CloseLine(line: string) {
    exists before, rest :: StartsWith(line, before, "}", rest)
  }

  predicate IsSkipped(keyword: string) {
    keyword == "namespace " || keyword == "include " || keyword == "const " || keyword == "typedef "
  }

  ghost predicate SkippedLine(line: string) {
    exists keyword, before, c, rest :: IsSkipped(keyword) && NameChar(c)
                                       && StartsWith(line, before, keyword + [c], rest)
  }

  /** What a reader of lines has to do with them. */
  ghost predicate Reads(step: Stepper) {
    && (forall spec, name, line :: IsName(name) && HeaderLine(line, "struct ", name) ==>
          step(State(spec, Top), line)
          == Ok(State(spec.(structs := spec.structs[name := Struct(name, [])]), InStruct(name))))
    && (forall spec, name, line :: IsName(name) && HeaderLine(line, "service ", name) ==>
          step(State(spec, Top), line) == Ok(State(spec.(service := name), InService)))
    && (forall spec, name, f, line :: IsField(f) && FieldLine(line, f) ==>
          step(State(spec, InStruct(name)), line) == Ok(State(AddField(spec, name, f), InStruct(name))))
    && (forall spec, m, line :: IsMethod(m) && MethodLine(line, m) ==>
          step(State(spec, InService), line) == Ok(State(spec.(methods := spec.methods + [m]), InService)))
    && (forall st: State, line :: CloseLine(line) ==> step(st, line) == Ok(st.(mode := Top)))
    && (forall spec, line :: SkippedLine(line) ==> step(State(spec, Top), line) == Ok(State(spec, Top)))
    && forall st: State, line :: Ignored(line) ==> step(st, line) == Ok(st)
  }

  lemma HeaderStep(spec: Spec, keyword: string, name: string, line: string)
    requires IsName(name) && (keyword == "struct " || keyword == "service ") && HeaderLine(line, keyword, name)
    ensures Step(State(spec, Top), line)
         == if keyword == "struct "
            then Ok(State(spec.(structs := spec.structs[name := Struct(name, [])]), InStruct(name)))
            else Ok(State(spec.(service := name), InService))
  {
    hide StripComment, HeaderName, Written, NoRemark, Tight, IsName;
    var tail :| IsTail(tail) && Written(line, Header(keyword, name, tail));
    var t := Header(keyword, name, tail);
    HeaderStrips(keyword, name, tail);
    HeaderNames(keyword, name, tail);
    StripWritten(line, t);
    assert t[0] == 's' && t[1] == keyword[1] && keyword <= t;
  }

  lemma HeaderStrips(keyword: string, name: string, tail: string)
    requires IsName(name) && (keyword == "struct " || keyword == "service ") && IsTail(tail)
    ensures var t := Header(keyword, name, tail);
            NoRemark(t) && Tight(t) && '\n' !in t && name != [] && |t| > |keyword|
  {
    hide Contains;
    NameIsPlain(name);
    var t := Header(keyword, name, tail);
    assert t[0] == 's';
    forall c | c in t
      ensures c != '#' && c != '/' && c != '\n'
    {
      assert c in keyword || c in name || c in tail;
    }
    assert t[|t| - 1] == if tail == "" then name[|name| - 1] else '{';
    assert name[|name| - 1] in name;
    NoSlashNoComment(t);
  }

  lemma HeaderNames(keyword: string, name: string, tail: string)
    requires IsName(name) && IsTail(tail)
    ensures HeaderName(Header(keyword, name, tail), keyword) == name
  {
    hide TrimSpace, Contains, TrimSuffix, NameChar;
    NameIsPlain(name);
    var t := Header(keyword, name, tail);
    assert name[|name| - 1] in name;
    assert TrimPrefix(t, keyword) == name + tail;
    TrimOne(name);
    TrimTight(name);
    if tail == "" {
      assert name + tail == name;
      NoSuffix(name, '{');
    } else if tail == "{" {
      SuffixGone(name, '{');
    } else {
      assert name + tail == name + [' '] + ['{'];
      SuffixGone(name + [' '], '{');
    }
  }

  lemma FieldChars(f: Field, form: FieldForm)
    requires IsField(f) && IsFieldForm(form)
    ensures var t := FieldText(f, form);
            && '#' !in t && '/' !in t && '\n' !in t
            && t != [] && Tight(t) && t[0] != '{' && t[0] != '}'
  {
    hide FieldCore, Tight;
    var core := FieldCore(f, form.qualifier);
    FieldCoreChars(f, form.qualifier);
    WithDefaultEnds(core, form.default);
    var u := WithDefault(core, form.default);
    WithNoteEnds(u, form.note);
    var w := WithNote(u, form.note);
    assert core[0] in core;
    forall c | c in FieldText(f, form)
      ensures c != '#' && c != '/' && c != '\n'
    {
      assert c in core || c in form.default || c in form.note || c in form.sep || c in " =()";
    }
    SepKeepsTight(w, form.sep);
  }

  lemma SepKeepsTight(t: string, sep: string)
    requires t != [] && Tight(t) && IsSep(sep)
    ensures Tight(t + sep) && (t + sep)[0] == t[0]
  {
  }

  lemma FieldLineStep(spec: Spec, name: string, f: Field, line: string)
    requires IsField(f) && FieldLine(line, f)
    ensures Step(State(spec, InStruct(name)), line) == Ok(State(AddField(spec, name, f), InStruct(name)))
  {
    hide FieldText, ParseField, StripComment, AddField, IsField, Written, Tight, IsFieldForm, Contains;
    var form :| IsFieldForm(form) && Written(line, FieldText(f, form));
    var t := FieldText(f, form);
    FieldChars(f, form);
    NoSlashNoComment(t);
    assert t[|t| - 1] in t;
    StripWritten(line, t);
    ParseFieldOf(f, form);
  }

  lemma AttrNoComment(q: char, key: string, val: string)
    requires '/' !in key && q != '/' && !Contains(val, "//")
    ensures !Contains(Attr(q, key, val), "//")
  {
    hide IndexOf;
    var front := key + " = ";
    NoSlashNoComment(front);
    NoSlashNoComment([q]);
    JoinNoComment([q], val);
    JoinNoComment([q] + val, [q]);
    JoinNoComment(front, [q] + val + [q]);
  }

  lemma AttrsNoComment(m: Method, form: MethodForm)
    requires IsMethod(m) && IsMethodForm(m, form)
    ensures !Contains(Attrs(m, form), "//")
  {
    hide Contains, Upper, SpellsVerb;
    VerbChars(form.verb, m.httpMethod);
    NameIsPlain(form.verb);
    NoSlashNoComment(form.verb);
    AttrNoComment(form.quote, "agw.method", form.verb);
    AttrNoComment(form.quote, "agw.uri", m.uri);
    NoSlashNoComment([]);
    JoinedNoComment(Attr(form.quote, "agw.method", form.verb), Attr(form.quote, "agw.uri", m.uri));
    JoinedNoComment(Attr(form.quote, "agw.uri", m.uri), Attr(form.quote, "agw.method", form.verb));
  }

  lemma JoinedNoComment(p: string, q: string)
    requires !Contains(p, "//") && !Contains(q, "//")
    ensures !Contains(p + [','] + ([' '] + q), "//")
  {
    hide Contains;
    NoSlashNoComment([',']);
    NoSlashNoComment([' ']);
    JoinNoComment([' '], q);
    JoinNoComment(p, [',']);
    assert (p + [','])[|p + [',']| - 1] == ',';
    JoinNoComment(p + [','], [' '] + q);
  }

  lemma BaseChars(m: Method, form: MethodForm)
    requires IsMethod(m)
    ensures var b := MethodBase(m, form); '/' !in b && '#' !in b && '\n' !in b
  {
    hide Contains;
    NameIsPlain(m.name);
    NameIsPlain(m.req);
    NameIsPlain(m.resp);
    forall c | c in MethodBase(m, form)
      ensures c != '/' && c != '#' && c != '\n'
    {
      assert c in m.name || c in m.req || c in m.resp || c in "1: " || c in " req" || c in "() ";
    }
  }

  lemma MethodChars(m: Method, form: MethodForm)
    requires IsMethod(m) && IsMethodForm(m, form)
    ensures var t := MethodText(m, form);
            NoRemark(t) && '\n' !in t && t != [] && Tight(t) && NameChar(t[0])
  {
    hide Contains, MethodBase, Attrs, IsMethod, Tight, SpellsVerb, NameChar;
    BaseChars(m, form);
    AttrsChars(m, form);
    AttrsNoComment(m, form);
    MethodEnds(m, form);
    var b, a := MethodBase(m, form), Attrs(m, form);
    var u := WithNote(b, a);
    NoSlashNoComment(b);
    if a != [] {
      NoSlashNoComment([' ']);
      NoSlashNoComment(['(']);
      NoSlashNoComment([')']);
      JoinNoComment(b, [' ']);
      JoinNoComment(b + [' '], ['(']);
      assert (b + [' '] + ['('])[|b| + 1] == '(';
      JoinNoComment(b + [' '] + ['('], a);
      JoinNoComment(b + [' '] + ['('] + a, [')']);
    }
    NoSlashNoComment(form.sep);
    JoinNoComment(u, form.sep);
    SepKeepsTight(u, form.sep);
    assert form.sep == [] ==> u + form.sep == u;
  }

  lemma MethodLineStep(spec: Spec, m: Method, line: string)
    requires IsMethod(m) && MethodLine(line, m)
    ensures Step(State(spec, InService), line) == Ok(State(spec.(methods := spec.methods + [m]), InService))
  {
    hide MethodText, ParseMethod, StripComment, IsMethod, Written, Tight, IsMethodForm, NoRemark;
    var form :| IsMethodForm(m, form) && Written(line, MethodText(m, form));
    MethodChars(m, form);
    StripWritten(line, MethodText(m, form));
    ParseMethodOf(m, form);
  }

  lemma CloseStep(st: State, line: string)
    requires CloseLine(line)
    ensures Step(st, line) == Ok(st.(mode := Top))
  {
    hide StepTop, ParseMethod, ParseField, StripComment;
    var before, rest :| StartsWith(line, before, "}", rest);
    StripKeepsHead(line, before, "}", rest);
  }

  lemma SkippedStep(spec: Spec, line: string)
    requires SkippedLine(line)
    ensures Step(State(spec, Top), line) == Ok(State(spec, Top))
  {
    hide ParseMethod, ParseField, StripComment, StartsWith, NameChar, HeaderName;
    var keyword, before, c, rest :| IsSkipped(keyword) && NameChar(c)
                                    && StartsWith(line, before, keyword + [c], rest);
    var head := keyword + [c];
    NameIsPlain([c]);
    assert head[|head| - 1] == c && c in [c];
    StripKeepsHead(line, before, head, rest);
    var t := StripComment(line);
    assert t[..|keyword|] == keyword && t[0] == keyword[0];
  }

  lemma IgnoredStep(st: State, line: string)
    requires Ignored(line)
    ensures Step(st, line) == Ok(st)
  {
    hide StepTop, ParseMethod, ParseField, StripComment, Written;
    NoSlashNoComment([]);
    NoSlashNoComment("{");
    if Written(line, []) {
      StripWritten(line, []);
    } else {
      StripWritten(line, "{");
    }
  }

  /** At the top level nothing else is accepted. */
  lemma UnexpectedLine(spec: Spec, line: string, t: string)
    requires NoRemark(t) && Tight(t) && Written(line, t) && t != [] && t != "{" && t[0] != '}'
    requires !("namespace " <= t) && !("include " <= t) && !("const " <= t) && !("typedef " <= t)
    requires !("service " <= t) && !("struct " <= t)
    ensures Step(State(spec, Top), line) == Err(Unexpected)
  {
    hide StripComment, ParseMethod, ParseField, NoRemark, Written, HeaderName;
    StripWritten(line, t);
  }

  lemma NoName(keyword: string)
    ensures HeaderName(keyword + "{", keyword) == []
  {
    hide TrimSpace;
    assert TrimPrefix(keyword + "{", keyword) == "{";
    SuffixGone([], '{');
    assert [] + ['{'] == "{";
    TrimTight([]);
  }

  /** A block needs a name. */
  lemma NamelessBlock(spec: Spec, line: string, keyword: string)
    requires (keyword == "struct " || keyword == "service ") && Written(line, keyword + "{")
    ensures Step(State(spec, Top), line) == Err(if keyword == "struct " then EmptyStructName else EmptyServiceName)
  {
    hide StripComment, ParseMethod, ParseField, Written, HeaderName, NoRemark, Contains;
    var t := keyword + "{";
    assert t[0] == 's' && t[1] == keyword[1] && keyword <= t && t[|t| - 1] == '{';
    NoName(keyword);
    Braced(keyword);
    StripWritten(line, t);
  }

  lemma Braced(keyword: string)
    requires keyword == "struct " || keyword == "service "
    ensures NoRemark(keyword + "{")
  {
    hide IndexOf;
    NoSlashNoComment(keyword + "{");
  }

  /** The parser does all of it. */
  lemma ParserReads()
    ensures Reads(Step)
  {
    hide Step, IsName, IsField, IsMethod, HeaderLine, FieldLine, MethodLine, CloseLine, SkippedLine, Ignored, AddField;
    forall spec, name, line | IsName(name) && HeaderLine(line, "struct ", name)
      ensures Step(State(spec, Top), line)
           == Ok(State(spec.(structs := spec.structs[name := Struct(name, [])]), InStruct(name)))
    {
      HeaderStep(spec, "struct ", name, line);
    }
    forall spec, name, line | IsName(name) && HeaderLine(line, "service ", name)
      ensures Step(State(spec, Top), line) == Ok(State(spec.(service := name), InService))
    {
      HeaderStep(spec, "service ", name, line);
    }
    forall spec, name, f, line | IsField(f) && FieldLine(line, f)
      ensures Step(State(spec, InStruct(name)), line) == Ok(State(AddField(spec, name, f), InStruct(name)))
    {
      FieldLineStep(spec, name, f, line);
    }
    forall spec, m, line | IsMethod(m) && MethodLine(line, m)
      ensures Step(State(spec, InService), line) == Ok(State(spec.(methods := spec.methods + [m]), InService))
    {
      MethodLineStep(spec, m, line);
    }
    forall st: State, line | CloseLine(line)
      ensures Step(st, line) == Ok(st.(mode := Top))
    {
      CloseStep(st, line);
    }
    forall spec, line | SkippedLine(line)
      ensures Step(State(spec, Top), line) == Ok(State(spec, Top))
    {
      SkippedStep(spec, line);
    }
    forall st: State, line | Ignored(line)
      ensures Step(st, line) == Ok(st)
    {
      IgnoredStep(st, line);
    }
  }

  // ----- Documents -----

  predicate IsStruct(s: Struct) {
    IsName(s.name) && forall f :: f in s.fields ==> IsField(f)
  }

  /** What stands between two lines at the top level. */
  datatype Block = StructBlock(s: Struct) | ServiceBlock(name: string, methods: seq<Method>) | SkippedBlock

  ghost predicate FieldLines(lines: seq<string>, fields: seq<Field>) {
    |lines| == |fields| && forall i :: 0 <= i < |fields| ==> IsField(fields[i]) && FieldLine(lines[i], fields[i])
  }

  ghost predicate MethodLines(lines: seq<string>, methods: seq<Method>) {
    |lines| == |methods| && forall i :: 0 <= i < |methods| ==> IsMethod(methods[i]) && MethodLine(lines[i], methods[i])
  }

  ghost predicate Spells(lines: seq<string>, b: Block) {
    && lines != []
    && var n := |lines| - 1;
    && match b
       case SkippedBlock => n == 0 && SkippedLine(lines[0])
       case StructBlock(s) =>
         && n > 0 && IsName(s.name) && HeaderLine(lines[0], "struct ", s.name)
         && FieldLines(lines[1..n], s.fields) && CloseLine(lines[n])
       case ServiceBlock(name, methods) =>
         && n > 0 && IsName(name) && HeaderLine(lines[0], "service ", name)
         && MethodLines(lines[1..n], methods) && CloseLine(lines[n])
  }

  ghost predicate SpellsAll(doc: seq<seq<string>>, blocks: seq<Block>) {
    |doc| == |blocks| && forall i :: 0 <= i < |blocks| ==> Spells(doc[i], blocks[i])
  }

  function Flat(doc: seq<seq<string>>): seq<string> {
    if doc == [] then [] else doc[0] + Flat(doc[1..])
  }

  /** A later struct of the same name wins, and so does a later service name; methods add up. */
  function Meaning(spec: Spec, blocks: seq<Block>): Spec
    decreases |blocks|
  {
    if blocks == [] then spec
    else
      match blocks[0]
      case SkippedBlock => Meaning(spec, blocks[1..])
      case StructBlock(s) => Meaning(spec.(structs := spec.structs[s.name := s]), blocks[1..])
      case ServiceBlock(name, methods) =>
        Meaning(spec.(service := name, methods := spec.methods + methods), blocks[1..])
  }

  /** The lines are these, with ignored ones anywhere in between. */
  ghost predicate Interspersed(lines: seq<string>, of: seq<string>) {
    if lines == [] then of == []
    else
      || (Ignored(lines[0]) && Interspersed(lines[1..], of))
      || (of != [] && lines[0] == of[0] && Interspersed(lines[1..], of[1..]))
  }

  lemma {:induction false} StepsAppend(step: Stepper, st: State, a: seq<string>, b: seq<string>)
    requires Steps(step, st, a).Ok?
    ensures Steps(step, st, a + b) == Steps(step, Steps(step, st, a).value, b)
    decreases |a|
  {
    if a == [] {
      assert a + b == b;
    } else {
      assert (a + b)[1..] == a[1..] + b;
      StepsAppend(step, step(st, a[0]).value, a[1..], b);
    }
  }

  lemma StepsOne(step: Stepper, st: State, line: string)
    ensures Steps(step, st, [line]) == step(st, line)
  {
    assert [line][1..] == [];
  }

  /** A header line, the lines of a block, and its last line. */
  lemma StepsBlock(step: Stepper, st0: State, first: string, st1: State, block: seq<string>, st2: State, last: string)
    requires step(st0, first) == Ok(st1) && Steps(step, st1, block) == Ok(st2)
    ensures Steps(step, st0, [first] + block + [last]) == step(st2, last)
  {
    hide Steps;
    StepsOne(step, st0, first);
    StepsAppend(step, st0, [first], block);
    StepsOne(step, st2, last);
    StepsAppend(step, st0, [first] + block, [last]);
  }

  lemma {:induction false} StepsInterspersed(step: Stepper, st: State, lines: seq<string>, of: seq<string>)
    requires Reads(step) && Interspersed(lines, of)
    ensures Steps(step, st, lines) == Steps(step, st, of)
    decreases |lines|
  {
    if lines != [] {
      if Ignored(lines[0]) && Interspersed(lines[1..], of) {
        ReadsIgnored(step, st, lines[0]);
        StepsInterspersed(step, st, lines[1..], of);
      } else if step(st, lines[0]).Ok? {
        StepsInterspersed(step, step(st, lines[0]).value, lines[1..], of[1..]);
      }
    }
  }

  lemma ReadsIgnored(step: Stepper, st: State, line: string)
    requires Reads(step) && Ignored(line)
    ensures step(st, line) == Ok(st)
  {
  }

  lemma ReadsHeaders(step: Stepper, spec: Spec, name: string, line: string)
    requires Reads(step) && IsName(name)
    ensures HeaderLine(line, "struct ", name) ==>
              step(State(spec, Top), line)
              == Ok(State(spec.(structs := spec.structs[name := Struct(name, [])]), InStruct(name)))
    ensures HeaderLine(line, "service ", name) ==>
              step(State(spec, Top), line) == Ok(State(spec.(service := name), InService))
  {
  }

  lemma ReadsField(step: Stepper, spec: Spec, name: string, f: Field, line: string)
    requires Reads(step) && IsField(f) && FieldLine(line, f)
    ensures step(State(spec, InStruct(name)), line) == Ok(State(AddField(spec, name, f), InStruct(name)))
  {
  }

  lemma ReadsMethod(step: Stepper, spec: Spec, m: Method, line: string)
    requires Reads(step) && IsMethod(m) && MethodLine(line, m)
    ensures step(State(spec, InService), line) == Ok(State(spec.(methods := spec.methods + [m]), InService))
  {
  }

  lemma ReadsOutside(step: Stepper, st: State, line: string)
    requires Reads(step)
    ensures CloseLine(line) ==> step(st, line) == Ok(st.(mode := Top))
    ensures SkippedLine(line) && st.mode == Top ==> step(st, line) == Ok(st)
  {
  }

  lemma {:induction false} FieldsSteps(step: Stepper, spec: Spec, name: string, lines: seq<string>, fields: seq<Field>)
    requires Reads(step) && name in spec.structs && FieldLines(lines, fields)
    ensures var s := spec.structs[name];
            Steps(step, State(spec, InStruct(name)), lines)
            == Ok(State(spec.(structs := spec.structs[name := Struct(s.name, s.fields + fields)]), InStruct(name)))
    decreases |fields|
  {
    hide Reads, IsField, FieldLine;
    var s := spec.structs[name];
    if fields == [] {
      assert s.fields + [] == s.fields;
      assert spec.structs[name := Struct(s.name, s.fields)] == spec.structs;
    } else {
      var spec1 := AddField(spec, name, fields[0]);
      ReadsField(step, spec, name, fields[0], lines[0]);
      assert forall i :: 0 <= i < |fields[1..]| ==> fields[1..][i] == fields[i + 1] && lines[1..][i] == lines[i + 1];
      FieldsSteps(step, spec1, name, lines[1..], fields[1..]);
      assert (s.fields + [fields[0]]) + fields[1..] == s.fields + fields;
      var done := Struct(s.name, s.fields + fields);
      assert spec1.structs[name := done] == spec.structs[name := done];
    }
  }

  lemma {:induction false} MethodsSteps(step: Stepper, spec: Spec, lines: seq<string>, methods: seq<Method>)
    requires Reads(step) && MethodLines(lines, methods)
    ensures Steps(step, State(spec, InService), lines)
         == Ok(State(spec.(methods := spec.methods + methods), InService))
    decreases |methods|
  {
    hide Reads, IsMethod, MethodLine;
    if methods == [] {
      assert spec.methods + [] == spec.methods;
    } else {
      ReadsMethod(step, spec, methods[0], lines[0]);
      assert forall i :: 0 <= i < |methods[1..]| ==>
        methods[1..][i] == methods[i + 1] && lines[1..][i] == lines[i + 1];
      MethodsSteps(step, spec.(methods := spec.methods + [methods[0]]), lines[1..], methods[1..]);
      assert (spec.methods + [methods[0]]) + methods[1..] == spec.methods + methods;
    }
  }

  /** One block, from the top level to the top level. */
  lemma BlockSteps(step: Stepper, spec: Spec, lines: seq<string>, b: Block)
    requires Reads(step) && Spells(lines, b)
    ensures Steps(step, State(spec, Top), lines) == Ok(State(Meaning(spec, [b]), Top))
  {
    hide Reads, Steps, FieldLines, MethodLines, HeaderLine, CloseLine, SkippedLine, IsName;
    var n := |lines| - 1;
    match b
    case SkippedBlock =>
      ReadsOutside(step, State(spec, Top), lines[0]);
      assert lines == [lines[0]];
      StepsOne(step, State(spec, Top), lines[0]);
    case StructBlock(s) =>
      var begun := spec.(structs := spec.structs[s.name := Struct(s.name, [])]);
      var ended := spec.(structs := spec.structs[s.name := s]);
      ReadsHeaders(step, spec, s.name, lines[0]);
      FieldsSteps(step, begun, s.name, lines[1..n], s.fields);
      assert [] + s.fields == s.fields && begun.structs[s.name := s] == ended.structs;
      ReadsOutside(step, State(ended, InStruct(s.name)), lines[n]);
      assert lines == [lines[0]] + lines[1..n] + [lines[n]];
      StepsBlock(step, State(spec, Top), lines[0], State(begun, InStruct(s.name)), lines[1..n],
                 State(ended, InStruct(s.name)), lines[n]);
    case ServiceBlock(name, methods) =>
      var begun := spec.(service := name);
      var ended := begun.(methods := spec.methods + methods);
      ReadsHeaders(step, spec, name, lines[0]);
      MethodsSteps(step, begun, lines[1..n], methods);
      ReadsOutside(step, State(ended, InService), lines[n]);
      assert lines == [lines[0]] + lines[1..n] + [lines[n]];
      StepsBlock(step, State(spec, Top), lines[0], State(begun, InService), lines[1..n],
                 State(ended, InService), lines[n]);
  }

  lemma {:induction false} DocumentSteps(step: Stepper, spec: Spec, doc: seq<seq<string>>, blocks: seq<Block>)
    requires Reads(step) && SpellsAll(doc, blocks)
    ensures Steps(step, State(spec, Top), Flat(doc)) == Ok(State(Meaning(spec, blocks), Top))
    decreases |blocks|
  {
    hide Reads, Spells;
    if blocks != [] {
      BlockSteps(step, spec, doc[0], blocks[0]);
      assert forall i :: 0 <= i < |blocks[1..]| ==> blocks[1..][i] == blocks[i + 1] && doc[1..][i] == doc[i + 1];
      DocumentSteps(step, Meaning(spec, [blocks[0]]), doc[1..], blocks[1..]);
      MeaningFirst(spec, blocks);
      StepsAppend(step, State(spec, Top), doc[0], Flat(doc[1..]));
    }
  }

  lemma MeaningFirst(spec: Spec, blocks: seq<Block>)
    requires blocks != []
    ensures Meaning(spec, blocks) == Meaning(Meaning(spec, [blocks[0]]), blocks[1..])
  {
    assert [blocks[0]][1..] == [];
  }

  lemma {:induction false} StepsPrefix(step: Stepper, st: State, a: seq<string>, b: seq<string>)
    requires a <= b && Steps(step, st, b).Ok?
    ensures Steps(step, st, a).Ok?
    decreases |a|
  {
    if a != [] {
      StepsPrefix(step, step(st, a[0]).value, a[1..], b[1..]);
    }
  }

  /**
   * What every document means: blocks in any order, each line in any of its spellings, with comments, blank lines and
   * braces of their own anywhere. It parses to that spec exactly when the spec passes the validation and no line has
   * 64 KB or more.
   */
  lemma ParseOfDocument(doc: seq<seq<string>>, blocks: seq<Block>, lines: seq<string>)
    requires SpellsAll(doc, blocks) && Interspersed(lines, Flat(doc)) && forall l :: l in lines ==> CleanLine(l)
    ensures var r, spec := ParseText(Joined(lines)), Meaning(Spec([], [], map[]), blocks);
            if exists l :: l in lines && !Short(l) then r == Err(LineTooLong)
            else
              match Validation(spec)
              case Some(e) => r == Err(Invalid(e))
              case None => r == Ok(spec)
  {
    hide Steps, Step, Reads, SpellsAll, Interspersed, CleanLine, Scan, Joined, Short, Validation;
    ParserReads();
    DocumentSteps(Step, Initial().spec, doc, blocks);
    StepsInterspersed(Step, Initial(), lines, Flat(doc));
    ScanOfJoined(lines);
    StepsPrefix(Step, Initial(), Scan(Joined(lines)).lines, lines);
  }

  // ----- The canonical text -----

  function Indented(s: string): string {
    [' '] + ([' '] + s)
  }

  function CanonicalFields(fields: seq<Field>): seq<string> {
    seq(|fields|, i requires 0 <= i < |fields| => Indented(FieldText(fields[i], PLAIN)))
  }

  function CanonicalMethods(methods: seq<Method>, forms: seq<MethodForm>): seq<string>
    requires |methods| == |forms|
  {
    seq(|methods|, i requires 0 <= i < |methods| => Indented(MethodText(methods[i], forms[i])))
  }

  function StructLines(s: Struct): seq<string> {
    [Header("struct ", s.name, " {")] + CanonicalFields(s.fields) + ["}"]
  }

  function ServiceLines(service: string, methods: seq<Method>, forms: seq<MethodForm>): seq<string>
    requires |methods| == |forms|
  {
    [Header("service ", service, " {")] + CanonicalMethods(methods, forms) + ["}"]
  }

  /** The structs, then the service. */
  function CanonicalDoc(structs: seq<Struct>, service: string, methods: seq<Method>, forms: seq<MethodForm>)
    : seq<seq<string>>
    requires |methods| == |forms|
  {
    seq(|structs|, i requires 0 <= i < |structs| => StructLines(structs[i])) + [ServiceLines(service, methods, forms)]
  }

  function CanonicalBlocks(structs: seq<Struct>, service: string, methods: seq<Method>): seq<Block> {
    seq(|structs|, i requires 0 <= i < |structs| => StructBlock(structs[i])) + [ServiceBlock(service, methods)]
  }

  function Rendered(structs: seq<Struct>, service: string, methods: seq<Method>, forms: seq<MethodForm>): string
    requires |methods| == |forms|
  {
    Joined(Flat(CanonicalDoc(structs, service, methods, forms)))
  }

  /** The structs by name, on top of those already there. */
  function WithStructs(m: map<string, Struct>, structs: seq<Struct>): map<string, Struct>
    decreases |structs|
  {
    if structs == [] then m else WithStructs(m[structs[0].name := structs[0]], structs[1..])
  }

  lemma WrittenPlain(t: string)
    ensures Written(t, t) && Written(Indented(t), t)
  {
    assert IsLine(t, t, [], [], []);
    assert IsLine(Indented(t), t, "  ", [], []);
  }

  lemma HeaderWritten(keyword: string, name: string)
    requires IsName(name) && (keyword == "struct " || keyword == "service ")
    ensures HeaderLine(Header(keyword, name, " {"), keyword, name) && CleanLine(Header(keyword, name, " {"))
  {
    hide Written, NameChar, NoRemark;
    WrittenPlain(Header(keyword, name, " {"));
    HeaderStrips(keyword, name, " {");
    var t := Header(keyword, name, " {");
    assert t[|t| - 1] == '{';
  }

  lemma CloseWritten()
    ensures CloseLine("}") && CleanLine("}")
  {
    assert StartsWith("}", [], "}", []);
  }

  lemma FieldWritten(f: Field)
    requires IsField(f)
    ensures FieldLine(Indented(FieldText(f, PLAIN)), f) && CleanLine(Indented(FieldText(f, PLAIN)))
  {
    hide Written, FieldText;
    FieldChars(f, PLAIN);
    WrittenPlain(FieldText(f, PLAIN));
    IndentedClean(FieldText(f, PLAIN));
  }

  lemma IndentedClean(t: string)
    requires '\n' !in t && Tight(t) && t != []
    ensures CleanLine(Indented(t))
  {
    assert Indented(t)[|Indented(t)| - 1] == t[|t| - 1];
  }

  lemma MethodWritten(m: Method, form: MethodForm)
    requires IsMethod(m) && IsMethodForm(m, form)
    ensures MethodLine(Indented(MethodText(m, form)), m) && CleanLine(Indented(MethodText(m, form)))
  {
    hide Written, MethodText, IsMethod, IsMethodForm, NoRemark;
    MethodChars(m, form);
    WrittenPlain(MethodText(m, form));
    IndentedClean(MethodText(m, form));
  }

  ghost predicate AllClean(lines: seq<string>) {
    forall l :: l in lines ==> CleanLine(l)
  }

  lemma StructWritten(s: Struct)
    requires IsStruct(s)
    ensures Spells(StructLines(s), StructBlock(s)) && AllClean(StructLines(s))
  {
    hide IsField, FieldText, HeaderLine, FieldLine, CloseLine, IsName, CleanLine, Header, Indented;
    var lines, n := StructLines(s), |StructLines(s)| - 1;
    HeaderWritten("struct ", s.name);
    CloseWritten();
    assert lines[1..n] == CanonicalFields(s.fields);
    forall i | 0 <= i < |s.fields|
      ensures FieldLine(lines[1..n][i], s.fields[i]) && CleanLine(lines[1..n][i]) && IsField(s.fields[i])
    {
      assert s.fields[i] in s.fields;
      FieldWritten(s.fields[i]);
    }
  }

  lemma ServiceWritten(service: string, methods: seq<Method>, forms: seq<MethodForm>)
    requires |methods| == |forms| && IsName(service)
    requires forall i :: 0 <= i < |methods| ==> IsMethod(methods[i]) && IsMethodForm(methods[i], forms[i])
    ensures var lines := ServiceLines(service, methods, forms);
            Spells(lines, ServiceBlock(service, methods)) && AllClean(lines)
  {
    hide IsMethod, IsMethodForm, MethodText, HeaderLine, MethodLine, CloseLine, IsName, CleanLine, Header, Indented;
    var lines := ServiceLines(service, methods, forms);
    var n := |lines| - 1;
    HeaderWritten("service ", service);
    CloseWritten();
    assert lines[1..n] == CanonicalMethods(methods, forms);
    forall i | 0 <= i < |methods|
      ensures MethodLine(lines[1..n][i], methods[i]) && CleanLine(lines[1..n][i])
    {
      MethodWritten(methods[i], forms[i]);
    }
  }

  lemma {:induction false} FlatClean(doc: seq<seq<string>>)
    requires forall i :: 0 <= i < |doc| ==> AllClean(doc[i])
    ensures AllClean(Flat(doc))
    decreases |doc|
  {
    hide CleanLine;
    if doc != [] {
      assert AllClean(doc[0]);
      assert forall i :: 0 <= i < |doc[1..]| ==> doc[1..][i] == doc[i + 1];
      FlatClean(doc[1..]);
    }
  }

  lemma {:induction false} InterspersedSame(lines: seq<string>)
    ensures Interspersed(lines, lines)
  {
    if lines != [] {
      InterspersedSame(lines[1..]);
    }
  }

  lemma {:induction false} MeaningOfCanonical(structs: seq<Struct>, service: string, methods: seq<Method>,
                                              m: map<string, Struct>)
    ensures Meaning(Spec([], [], m), CanonicalBlocks(structs, service, methods))
         == Spec(service, methods, WithStructs(m, structs))
    decreases |structs|
  {
    var blocks := CanonicalBlocks(structs, service, methods);
    if structs == [] {
      assert blocks == [ServiceBlock(service, methods)] && blocks[1..] == [];
      assert [] + methods == methods;
    } else {
      assert blocks[1..] == CanonicalBlocks(structs[1..], service, methods);
      MeaningOfCanonical(structs[1..], service, methods, m[structs[0].name := structs[0]]);
    }
  }

  /**
   * Parsing undoes rendering: for every valid spec with identifier-like names and plain URIs, its canonical text
   * parses to the spec, with the structs in any order and every method in any of its spellings, unless one of its
   * lines has 64 KB or more: such a text is refused.
   */
  lemma ParseOfRendered(structs: seq<Struct>, service: string, methods: seq<Method>, forms: seq<MethodForm>)
    requires |methods| == |forms| && IsName(service) && forall s :: s in structs ==> IsStruct(s)
    requires forall i :: 0 <= i < |methods| ==> IsMethod(methods[i]) && IsMethodForm(methods[i], forms[i])
    requires Resolved(Spec(service, methods, WithStructs(map[], structs)))
    ensures var r := ParseText(Rendered(structs, service, methods, forms));
            if exists l :: l in Flat(CanonicalDoc(structs, service, methods, forms)) && !Short(l)
            then r == Err(LineTooLong)
            else r == Ok(Spec(service, methods, WithStructs(map[], structs)))
  {
    hide IsStruct, IsMethod, IsMethodForm, IsName, Spells, AllClean, StructLines, ServiceLines, ParseText;
    hide Joined, Short;
    var doc, blocks := CanonicalDoc(structs, service, methods, forms), CanonicalBlocks(structs, service, methods);
    forall i | 0 <= i < |doc|
      ensures Spells(doc[i], blocks[i]) && AllClean(doc[i])
    {
      if i < |structs| {
        assert structs[i] in structs;
        StructWritten(structs[i]);
      } else {
        ServiceWritten(service, methods, forms);
      }
    }
    FlatClean(doc);
    CleanEach(Flat(doc));
    InterspersedSame(Flat(doc));
    ParseOfDocument(doc, blocks, Flat(doc));
    MeaningOfCanonical(structs, service, methods, map[]);
    ValidationIff(Spec(service, methods, WithStructs(map[], structs)));
  }

  lemma CleanEach(lines: seq<string>)
    requires AllClean(lines)
    ensures forall l :: l in lines ==> CleanLine(l)
  {
  }
}
