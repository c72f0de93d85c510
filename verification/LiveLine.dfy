/** The terminal-style line buffer of a running job: absorb of liveRun in platform/server/ops.go. */
module LiveLine {

  /** Committed text, and the pending line. A char stands for a byte. */
  datatype Line = Line(buf: string, cur: string)

  function Full(l: Line): string {
    l.buf + l.cur
  }

  /** strings.ReplaceAll(s, "\r\n", "\n"). */
  function Normalize(s: string): string {
    if s == [] then []
    else if |s| >= 2 && s[0] == '\r' && s[1] == '\n' then ['\n'] + Normalize(s[2..])
    else [s[0]] + Normalize(s[1..])
  }

  /** One byte: a carriage return discards the pending line, a newline commits it. */
  function Feed1(l: Line, c: char): Line {
    if c == '\r' then l.(cur := [])
    else if c == '\n' then Line(l.buf + l.cur + ['\n'], [])
    else l.(cur := l.cur + [c])
  }

  function Feed(l: Line, s: string): Line
    decreases |s|
  {
    if s == [] then l else Feed(Feed1(l, s[0]), s[1..])
  }

  function Absorb(l: Line, s: string): Line {
    Feed(l, Normalize(s))
  }

  lemma {:induction false} FeedAppend(l: Line, s: string, t: string)
    ensures Feed(l, s + t) == Feed(Feed(l, s), t)
    decreases |s|
  {
    if s == [] {
      assert s + t == t;
    } else {
      assert (s + t)[1..] == s[1..] + t;
      FeedAppend(Feed1(l, s[0]), s[1..], t);
    }
  }

  /** The committed text so far only ever stays in front. */
  lemma {:induction false} FeedKeepsBuf(b: string, c: string, s: string)
    ensures Feed(Line(b, c), s) == Line(b + Feed(Line([], c), s).buf, Feed(Line([], c), s).cur)
    decreases |s|
  {
    if s == [] {
      assert b + [] == b;
    } else {
      var l, l0 := Feed1(Line(b, c), s[0]), Feed1(Line([], c), s[0]);
      assert l.buf == b + l0.buf && l.cur == l0.cur;
      FeedKeepsBuf(l.buf, l.cur, s[1..]);
      FeedKeepsBuf(l0.buf, l0.cur, s[1..]);
      var rest := Feed(Line([], l0.cur), s[1..]).buf;
      assert (b + l0.buf) + rest == b + (l0.buf + rest);
    }
  }

  // ----- Shape of the buffer -----

  /** Committed text is whole lines, and the pending line has no line end. */
  predicate WellFormed(l: Line) {
    (l.buf == [] || l.buf[|l.buf| - 1] == '\n') && '\n' !in l.cur && '\r' !in l.cur
  }

  lemma {:induction false} FeedWellFormed(l: Line, s: string)
    requires WellFormed(l)
    ensures WellFormed(Feed(l, s))
    decreases |s|
  {
    if s != [] {
      FeedWellFormed(Feed1(l, s[0]), s[1..]);
    }
  }

  /** After any sequence of chunks the buffer is whole lines, and it has only grown. */
  lemma AbsorbCommits(l: Line, s: string)
    requires WellFormed(l)
    ensures WellFormed(Absorb(l, s)) && l.buf <= Absorb(l, s).buf
  {
    FeedWellFormed(l, Normalize(s));
    FeedKeepsBuf(l.buf, l.cur, Normalize(s));
  }

  // ----- Independence of chunking -----

  /** The cut between the chunks goes through a line end "\r\n". */
  predicate Splits(x: string, y: string) {
    x != [] && y != [] && x[|x| - 1] == '\r' && y[0] == '\n'
  }

  lemma NormalizePair(t: string)
    ensures Normalize(['\r', '\n'] + t) == ['\n'] + Normalize(t)
  {
    assert (['\r', '\n'] + t)[2..] == t;
  }

  lemma NormalizeOne(c: char, t: string)
    requires !(c == '\r' && t != [] && t[0] == '\n')
    ensures Normalize([c] + t) == [c] + Normalize(t)
  {
    assert ([c] + t)[1..] == t;
  }

  lemma AppendPair(t: string, y: string)
    requires Normalize(t + y) == Normalize(t) + Normalize(y)
    ensures Normalize(['\r', '\n'] + t + y) == Normalize(['\r', '\n'] + t) + Normalize(y)
  {
    hide Normalize;
    assert ['\r', '\n'] + t + y == ['\r', '\n'] + (t + y);
    NormalizePair(t);
    NormalizePair(t + y);
  }

  lemma AppendOne(c: char, t: string, y: string)
    requires Normalize(t + y) == Normalize(t) + Normalize(y)
    requires !(c == '\r' && t != [] && t[0] == '\n') && !Splits([c] + t, y)
    ensures Normalize([c] + t + y) == Normalize([c] + t) + Normalize(y)
  {
    hide Normalize;
    assert [c] + t + y == [c] + (t + y);
    NormalizeOne(c, t);
    NormalizeOne(c, t + y);
  }

  lemma {:induction false} NormalizeAppend(x: string, y: string)
    requires !Splits(x, y)
    ensures Normalize(x + y) == Normalize(x) + Normalize(y)
    decreases |x|
  {
    if x == [] {
      assert x + y == y;
    } else {
      hide Normalize;
      if |x| >= 2 && x[0] == '\r' && x[1] == '\n' {
        assert x == ['\r', '\n'] + x[2..];
        NormalizeAppend(x[2..], y);
        AppendPair(x[2..], y);
      } else {
        assert x == [x[0]] + x[1..];
        NormalizeAppend(x[1..], y);
        AppendOne(x[0], x[1..], y);
      }
    }
  }

  lemma NormalizeLastReturn(z: string)
    ensures Normalize(z + ['\r']) == Normalize(z) + ['\r']
  {
    NormalizeAppend(z, ['\r']);
    assert ['\r'][1..] == [];
  }

  lemma NormalizeFirstNewline(w: string)
    ensures Normalize(['\n'] + w) == ['\n'] + Normalize(w)
  {
    assert (['\n'] + w)[1..] == w;
  }

  lemma NormalizeLineEnd(z: string, w: string)
    ensures Normalize(z + ['\r', '\n'] + w) == Normalize(z) + ['\n'] + Normalize(w)
  {
    assert z + ['\r', '\n'] + w == z + (['\r', '\n'] + w);
    NormalizeAppend(z, ['\r', '\n'] + w);
    assert (['\r', '\n'] + w)[2..] == w;
  }

  lemma SplitLines(l: Line, z: string, w: string)
    ensures var p := Absorb(l, z);
            && Absorb(Absorb(l, z + ['\r']), ['\n'] + w) == Feed(Line(p.buf + ['\n'], []), Normalize(w))
            && Absorb(l, z + ['\r', '\n'] + w) == Feed(Line(p.buf + p.cur + ['\n'], []), Normalize(w))
  {
    var p := Absorb(l, z);
    NormalizeLastReturn(z);
    FeedAppend(l, Normalize(z), ['\r']);
    assert Feed(p, ['\r']) == p.(cur := []) by { assert ['\r'][1..] == []; }
    NormalizeFirstNewline(w);
    FeedAppend(p.(cur := []), ['\n'], Normalize(w));
    assert Feed(p.(cur := []), ['\n']) == Line(p.buf + [] + ['\n'], []) by { assert ['\n'][1..] == []; }
    assert p.buf + [] + ['\n'] == p.buf + ['\n'];
    NormalizeLineEnd(z, w);
    FeedAppend(l, Normalize(z) + ['\n'], Normalize(w));
    FeedAppend(l, Normalize(z), ['\n']);
    assert Feed(p, ['\n']) == Line(p.buf + p.cur + ['\n'], []) by { assert ['\n'][1..] == []; }
  }

  /**
   * Feeding x and then y is the same as feeding them together exactly when the cut does not split a "\r\n", or
   * splits one that ends an empty pending line: a split line end discards the line it should commit.
   */
  lemma ChunkingIff(l: Line, x: string, y: string)
    ensures Absorb(Absorb(l, x), y) == Absorb(l, x + y)
       <==> !Splits(x, y) || Absorb(l, x[..|x| - 1]).cur == []
  {
    if !Splits(x, y) {
      NormalizeAppend(x, y);
      FeedAppend(l, Normalize(x), Normalize(y));
    } else {
      var z, w := x[..|x| - 1], y[1..];
      assert x == z + ['\r'] && y == ['\n'] + w && x + y == z + ['\r', '\n'] + w;
      SplitLines(l, z, w);
      var p := Absorb(l, z);
      FeedKeepsBuf(p.buf + ['\n'], [], Normalize(w));
      FeedKeepsBuf(p.buf + p.cur + ['\n'], [], Normalize(w));
      var rest := Feed(Line([], []), Normalize(w)).buf;
      assert |p.buf + ['\n'] + rest| + |p.cur| == |p.buf + p.cur + ['\n'] + rest|;
      if p.cur == [] {
        assert p.buf + p.cur == p.buf;
      }
    }
  }

  // ----- Chunks that only append to what is shown -----

  /** The pending line at the first newline of s, or at its end: a carriage return before that restarts it. */
  function Pending(cur: string, s: string): string
    decreases |s|
  {
    if s == [] || s[0] == '\n' then cur
    else if s[0] == '\r' then Pending([], s[1..])
    else Pending(cur + [s[0]], s[1..])
  }

  /** What a text shows first is the committed text and that line; anything more starts with a newline. */
  lemma {:induction false} FeedShows(l: Line, s: string)
    ensures var shown, first := Full(Feed(l, s)), l.buf + Pending(l.cur, s);
            first <= shown && (|shown| > |first| ==> shown[|first|] == '\n')
    decreases |s|
  {
    if s != [] {
      var l1 := Feed1(l, s[0]);
      if s[0] == '\n' {
        FeedKeepsBuf(l1.buf, l1.cur, s[1..]);
      } else {
        FeedShows(l1, s[1..]);
      }
    }
  }

  lemma PrefixCancel(buf: string, a: string, b: string)
    ensures buf + a <= buf + b <==> a <= b
  {
    if buf + a <= buf + b {
      assert a == (buf + a)[|buf|..] == (buf + b)[|buf|..][..|a|] == b[..|a|];
    }
  }

  /** A prefix without newline ends before the first newline. */
  lemma PrefixBeforeNewline(a: string, line: string, shown: string)
    requires '\n' !in a && line <= shown && (|shown| > |line| ==> shown[|line|] == '\n')
    ensures a <= shown <==> a <= line
  {
    assert |a| > |line| ==> a[|line|] in a;
  }

  /** Feeding s keeps the shown text in front exactly when the first line of s leaves the pending line in front. */
  lemma ShownStaysIff(l: Line, s: string)
    requires WellFormed(l)
    ensures Full(l) <= Full(Feed(l, s)) <==> l.cur <= Pending(l.cur, s)
  {
    hide Feed, Pending;
    FeedShows(l, s);
    var shown, line := Full(Feed(l, s)), Pending(l.cur, s);
    var rest := shown[|l.buf|..];
    assert shown == l.buf + rest by { assert shown[..|l.buf|] == (l.buf + line)[..|l.buf|] == l.buf; }
    PrefixCancel(l.buf, line, rest);
    PrefixCancel(l.buf, l.cur, rest);
    PrefixBeforeNewline(l.cur, line, rest);
  }

  /** If the first line of s has no carriage return, the pending line only grows. */
  lemma {:induction false} PendingGrows(cur: string, s: string, k: nat)
    requires k <= |s| && '\r' !in s[..k] && (k == |s| || s[k] == '\n')
    ensures cur <= Pending(cur, s)
    decreases |s|
  {
    if s != [] && s[0] != '\n' {
      assert k > 0 && s[0] in s[..k];
      assert s[1..][..k - 1] == s[..k][1..];
      PendingGrows(cur + [s[0]], s[1..], k - 1);
    }
  }

  // ----- Text without bare carriage returns -----

  /** Every carriage return of the chunk is part of a "\r\n". */
  predicate NoBareReturn(s: string) {
    '\r' !in Normalize(s)
  }

  lemma {:induction false} FeedAddsText(l: Line, s: string)
    requires '\r' !in s
    ensures Full(Feed(l, s)) == Full(l) + s
    decreases |s|
  {
    if s == [] {
      assert Full(l) + s == Full(l);
    } else {
      var l1 := Feed1(l, s[0]);
      assert Full(l1) == Full(l) + [s[0]];
      FeedAddsText(l1, s[1..]);
      assert Full(l) + [s[0]] + s[1..] == Full(l) + s;
    }
  }
}
