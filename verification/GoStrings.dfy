/** The functions of Go's strings, strconv and bufio packages that the IDL parser uses. */
module GoStrings {
  import opened Wrappers

  /** unicode.IsSpace. */
  predicate Space(c: char) {
    var n := c as int;
    || 9 <= n <= 13 || n == 32 || n == 0x85 || n == 0xA0 || n == 0x1680 || 0x2000 <= n <= 0x200A
    || n == 0x2028 || n == 0x2029 || n == 0x202F || n == 0x205F || n == 0x3000
  }

  function TrimLeft(s: string): (r: string)
    ensures |r| <= |s| && r == s[|s| - |r|..]
  {
    if s != [] && Space(s[0]) then TrimLeft(s[1..]) else s
  }

  function TrimRight(s: string): (r: string)
    ensures |r| <= |s| && r == s[..|r|]
  {
    if s != [] && Space(s[|s| - 1]) then TrimRight(s[..|s| - 1]) else s
  }

  function TrimSpace(s: string): string {
    TrimRight(TrimLeft(s))
  }

  /** strings.IndexByte, with None for -1. */
  function Index(s: string, c: char): (r: Option<nat>)
    ensures r.Some? ==> r.value < |s| && s[r.value] == c && c !in s[..r.value]
    ensures r.None? ==> c !in s
  {
    if s == [] then None
    else if s[0] == c then Some(0)
    else
      match Index(s[1..], c)
      case None => None
      case Some(k) =>
        assert s[..k + 1] == [s[0]] + s[1..][..k];
        Some(k + 1)
  }

  /** strings.LastIndexByte, with None for -1. */
  function LastIndex(s: string, c: char): (r: Option<nat>)
    ensures r.Some? ==> r.value < |s| && s[r.value] == c && c !in s[r.value + 1..]
    ensures r.None? ==> c !in s
  {
    if s == [] then None
    else if s[|s| - 1] == c then Some(|s| - 1)
    else
      var r := LastIndex(s[..|s| - 1], c);
      assert s == s[..|s| - 1] + [s[|s| - 1]];
      assert r.Some? ==> s[r.value + 1..] == s[..|s| - 1][r.value + 1..] + [s[|s| - 1]];
      r
  }

  /** strings.Index of a substring, with None for -1. */
  function IndexOf(s: string, sub: string): (r: Option<nat>)
    ensures r.Some? ==> r.value + |sub| <= |s| && s[r.value..r.value + |sub|] == sub
  {
    if sub <= s then Some(0)
    else if s == [] then None
    else
      match IndexOf(s[1..], sub)
      case None => None
      case Some(k) => Some(k + 1)
  }

  predicate Contains(s: string, sub: string) {
    IndexOf(s, sub).Some?
  }

  predicate HasPrefix(s: string, p: string) {
    p <= s
  }

  function TrimPrefix(s: string, p: string): string {
    if p <= s then s[|p|..] else s
  }

  function TrimSuffix(s: string, p: string): string {
    if |p| <= |s| && s[|s| - |p|..] == p then s[..|s| - |p|] else s
  }

  /** The leading run of non-space characters. */
  function Word(s: string): (r: string)
    ensures |r| <= |s| && r == s[..|r|]
    ensures s != [] && !Space(s[0]) ==> r != []
  {
    if s == [] || Space(s[0]) then [] else [s[0]] + Word(s[1..])
  }

  function Fields(s: string): seq<string>
    decreases |s|
  {
    if s == [] then []
    else if Space(s[0]) then Fields(s[1..])
    else [Word(s)] + Fields(s[|Word(s)|..])
  }

  /** strings.Split on a one-character separator. */
  function Split(s: string, c: char): (r: seq<string>)
    ensures r != []
    decreases |s|
  {
    match Index(s, c)
    case None => [s]
    case Some(k) => [s[..k]] + Split(s[k + 1..], c)
  }

  predicate Quote(c: char) {
    c == '"' || c == '\''
  }

  /** strings.Trim with both quotes as the cutset. */
  function TrimQuotes(s: string): string
    decreases |s|
  {
    if s != [] && Quote(s[0]) then TrimQuotes(s[1..])
    else if s != [] && Quote(s[|s| - 1]) then TrimQuotes(s[..|s| - 1])
    else s
  }

  /** strings.ToUpper on the ASCII letters. */
  function Upper(s: string): string {
    seq(|s|, i requires 0 <= i < |s| => if 'a' <= s[i] <= 'z' then ((s[i] as int) - 32) as char else s[i])
  }

  predicate Digit(c: char) {
    '0' <= c <= '9'
  }

  /** The value of a decimal digit. */
  function DigitValue(c: char): nat {
    if Digit(c) then (c as int) - ('0' as int) else 0
  }

  function Digits(s: string): nat
    requires forall c :: c in s ==> Digit(c)
  {
    if s == [] then 0
    else
      10 * Digits(s[..|s| - 1]) + DigitValue(s[|s| - 1])
  }

  /** strconv.Atoi on a 64-bit machine. */
  function Atoi(s: string): Option<int> {
    var signed := s != [] && (s[0] == '-' || s[0] == '+');
    var ds := if signed then s[1..] else s;
    if ds == [] || exists c :: c in ds && !Digit(c) then None
    else
      var n: int := if signed && s[0] == '-' then -(Digits(ds) as int) else Digits(ds);
      if -0x8000_0000_0000_0000 <= n < 0x8000_0000_0000_0000 then Some(n) else None
  }

  function DropReturn(s: string): string {
    if s != [] && s[|s| - 1] == '\r' then s[..|s| - 1] else s
  }

  /** The length of a character in UTF-8. */
  function Width(c: char): nat {
    var n := c as int;
    if n < 0x80 then 1 else if n < 0x800 then 2 else if n < 0x1_0000 then 3 else 4
  }

  function ByteLength(s: string): nat {
    if s == [] then 0 else Width(s[0]) + ByteLength(s[1..])
  }

  /** bufio.MaxScanTokenSize, the size of the buffer in which a line and its newline have to fit. */
  const MAX_TOKEN: nat := 65536

  predicate Short(line: string) {
    ByteLength(line) < MAX_TOKEN
  }

  /** What bufio.Scanner yields: the lines up to the first that is too long, and whether there was one. */
  datatype Scanned = Scanned(lines: seq<string>, tooLong: bool)

  function Scan(s: string): Scanned
    decreases |s|
  {
    if s == [] then Scanned([], false)
    else
      var k := match Index(s, '\n') case Some(k) => k case None => |s|;
      if !Short(s[..k]) then Scanned([], true)
      else
        var rest := if k < |s| then Scan(s[k + 1..]) else Scanned([], false);
        rest.(lines := [DropReturn(s[..k])] + rest.lines)
  }

  // ----- Rendering numbers -----

  function DigitChar(d: nat): char
    requires d < 10
  {
    (48 + d) as char
  }

  function ShowNat(n: nat): (s: string)
    ensures s != [] && forall c :: c in s ==> Digit(c)
  {
    if n < 10 then [DigitChar(n)] else ShowNat(n / 10) + [DigitChar(n % 10)]
  }

  function ShowInt(n: int): string {
    if n < 0 then ['-'] + ShowNat(-n) else ShowNat(n)
  }

  lemma {:induction false} DigitsOfShown(n: nat)
    ensures Digits(ShowNat(n)) == n
  {
    if n < 10 {
      assert ShowNat(n)[..0] == [];
    } else {
      DigitsOfShown(n / 10);
      var s := ShowNat(n);
      assert s[..|s| - 1] == ShowNat(n / 10) && s[|s| - 1] == DigitChar(n % 10);
    }
  }

  lemma AtoiUnsigned(ds: string)
    requires ds != [] && (forall c :: c in ds ==> Digit(c)) && Digits(ds) < 0x8000_0000_0000_0000
    ensures Atoi(ds) == Some(Digits(ds))
  {
    hide Digits;
    assert Digit(ds[0]) by { assert ds[0] in ds; }
  }

  lemma AtoiMinus(ds: string)
    requires ds != [] && (forall c :: c in ds ==> Digit(c)) && Digits(ds) <= 0x8000_0000_0000_0000
    ensures Atoi(['-'] + ds) == Some(-(Digits(ds) as int))
  {
    hide Digits;
    assert (['-'] + ds)[1..] == ds;
  }

  lemma AtoiOfShown(n: int)
    requires -0x8000_0000_0000_0000 <= n < 0x8000_0000_0000_0000
    ensures Atoi(ShowInt(n)) == Some(n)
  {
    hide Atoi, Digits, ShowNat;
    if n < 0 {
      DigitsOfShown(-n);
      AtoiMinus(ShowNat(-n));
    } else {
      DigitsOfShown(n);
      AtoiUnsigned(ShowNat(n));
    }
  }

  // ----- How the functions act on text put together from parts -----

  lemma {:induction false} IndexAt(a: string, c: char, b: string)
    requires c !in a
    ensures Index(a + [c] + b, c) == Some(|a|)
  {
    if a != [] {
      assert (a + [c] + b)[1..] == a[1..] + [c] + b;
      IndexAt(a[1..], c, b);
    }
  }

  lemma {:induction false} LastIndexAt(a: string, c: char, b: string)
    requires c !in b
    ensures LastIndex(a + [c] + b, c) == Some(|a|)
  {
    var s := a + [c] + b;
    if b != [] {
      assert s[..|s| - 1] == a + [c] + b[..|b| - 1];
      assert b[|b| - 1] in b;
      LastIndexAt(a, c, b[..|b| - 1]);
    }
  }

  /** Text that neither starts nor ends with a space. */
  predicate Tight(s: string) {
    s != [] ==> !Space(s[0]) && !Space(s[|s| - 1])
  }

  lemma TrimTight(s: string)
    requires Tight(s)
    ensures TrimSpace(s) == s
  {
  }

  lemma TrimOne(s: string)
    requires Tight(s)
    ensures TrimSpace([' '] + s) == s
    ensures s != [] ==> TrimSpace(s + [' ']) == s
  {
    assert ([' '] + s)[1..] == s;
    assert TrimLeft(s) == s;
    assert TrimLeft([' '] + s) == s;
    if s != [] {
      assert (s + [' '])[..|s|] == s;
      assert TrimLeft(s + [' ']) == s + [' '];
    }
  }

  lemma {:induction false} WordOf(w: string, rest: string)
    requires (forall c :: c in w ==> !Space(c)) && (rest == [] || Space(rest[0]))
    ensures Word(w + rest) == w
  {
    if w != [] {
      assert (w + rest)[1..] == w[1..] + rest;
      assert w[0] in w;
      WordOf(w[1..], rest);
    }
  }

  predicate IsWord(w: string) {
    w != [] && forall c :: c in w ==> !Space(c)
  }

  lemma FieldsOne(w: string)
    requires IsWord(w)
    ensures Fields(w) == [w]
  {
    assert w + [] == w;
    WordOf(w, []);
    assert w[0] in w;
    assert w[|w|..] == [];
  }

  lemma FieldsCons(w: string, s: string)
    requires IsWord(w)
    ensures Fields(w + [' '] + s) == [w] + Fields(s)
  {
    var t := w + [' '] + s;
    assert t == w + ([' '] + s);
    WordOf(w, [' '] + s);
    assert w[0] in w;
    assert t[|w|..] == [' '] + s;
    assert ([' '] + s)[1..] == s;
  }

  lemma FieldsTwo(v: string, w: string)
    requires IsWord(v) && IsWord(w)
    ensures Fields(v + [' '] + w) == [v, w]
  {
    FieldsCons(v, w);
    FieldsOne(w);
  }

  lemma SplitOne(s: string, c: char)
    requires c !in s
    ensures Split(s, c) == [s]
  {
  }

  lemma SplitTwo(a: string, c: char, b: string)
    requires c !in a && c !in b
    ensures Split(a + [c] + b, c) == [a, b]
  {
    IndexAt(a, c, b);
    assert (a + [c] + b)[..|a|] == a && (a + [c] + b)[|a| + 1..] == b;
    SplitOne(b, c);
  }

  /** The last part of a split text is what follows the last separator. */
  lemma {:induction false} SplitLast(s: string, c: char, part: string)
    requires c !in part
    ensures Split(s + [c] + part, c) == Split(s, c) + [part]
    decreases |s|
  {
    var t := s + [c] + part;
    match Index(s, c) {
      case None =>
        SplitTwo(s, c, part);
      case Some(k) =>
        assert t == s[..k] + [c] + (s[k + 1..] + [c] + part);
        IndexAt(s[..k], c, s[k + 1..] + [c] + part);
        assert t[..k] == s[..k] && t[k + 1..] == s[k + 1..] + [c] + part;
        SplitLast(s[k + 1..], c, part);
    }
  }

  lemma Unquoted(q: char, s: string)
    requires (q == '"' || q == '\'') && forall c :: c in s ==> c != '"' && c != '\''
    ensures TrimQuotes([q] + s + [q]) == s
  {
    var t := [q] + s + [q];
    assert t[1..] == s + [q];
    assert TrimQuotes(t) == TrimQuotes(s + [q]);
    if s == [] {
      assert s + [q] == [q] && [q][1..] == [];
      assert TrimQuotes([q]) == TrimQuotes([]);
    } else {
      assert s[0] in s && s[|s| - 1] in s;
      assert (s + [q])[..|s|] == s;
      assert TrimQuotes(s) == s;
    }
  }

  lemma ContainedChars(s: string, sub: string, c: char)
    ensures Contains(s, sub) && c in sub ==> c in s
  {
    if IndexOf(s, sub).Some? && c in sub {
      var k := IndexOf(s, sub).value;
      var i :| 0 <= i < |sub| && sub[i] == c;
      assert s[k..k + |sub|][i] == c;
      assert s[k + i] == c;
    }
  }

  lemma {:induction false} ContainsChar(s: string, c: char)
    ensures Contains(s, [c]) <==> c in s
  {
    if s != [] {
      ContainsChar(s[1..], c);
      assert s[..1] == [s[0]];
      assert s == [s[0]] + s[1..];
    }
  }

  function Joined(lines: seq<string>): string {
    if lines == [] then [] else lines[0] + ['\n'] + Joined(lines[1..])
  }

  predicate CleanLine(l: string) {
    '\n' !in l && (l == [] || l[|l| - 1] != '\r')
  }

  /** Scanning text gives back its clean lines, up to the first that is too long. */
  lemma {:induction false} ScanOfJoined(lines: seq<string>)
    requires forall l :: l in lines ==> CleanLine(l)
    ensures Scan(Joined(lines)).tooLong <==> exists l :: l in lines && !Short(l)
    ensures Scan(Joined(lines)).lines <= lines
    ensures !Scan(Joined(lines)).tooLong ==> Scan(Joined(lines)).lines == lines
  {
    if lines != [] {
      hide Short;
      var l, rest := lines[0], Joined(lines[1..]);
      assert l in lines;
      IndexAt(l, '\n', rest);
      assert (l + ['\n'] + rest)[..|l|] == l && (l + ['\n'] + rest)[|l| + 1..] == rest;
      assert lines == [l] + lines[1..];
      ScanOfJoined(lines[1..]);
    }
  }
}
