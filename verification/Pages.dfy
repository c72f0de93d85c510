/**
 * Versioned pages with rollback, in memory (projects/board/content_mem.go) and on MySQL
 * (projects/board/content_mysql.go), against the log of the calls that were made.
 */
module Pages {
  import opened Wrappers
  import opened Sets
  import opened Sorting

  type Files = map<string, string>

  datatype PageError = NotFound | BadPath | BadFiles

  /** The checks on paths and file sets, which give the cleaned value or refuse. */
  datatype PageRules = PageRules(path: string -> Option<string>, files: Files -> Option<Files>)

  /** What is stored for one version, and when it was stored. */
  datatype Upload = Upload(files: Files, at: string)

  datatype PageVer = PageVer(ver: int, upload: Upload)

  /** What is returned about a version: the names of its files are sorted. */
  datatype PageVersion = PageVersion(path: string, version: int, files: seq<string>, current: bool, createdAt: string)

  function Names(files: Files): seq<string> {
    Ascending(files.Keys)
  }

  /** The names of the files of the version, each once, in the order of their bytes. */
  ghost predicate Lists(v: PageVersion, files: Files) {
    InOrder(v.files, Before) && forall x :: x in v.files <==> x in files
  }

  lemma NamesIs(files: Files)
    ensures InOrder(Names(files), Before) && forall x :: x in Names(files) <==> x in files
  {
    AscendingIs(files.Keys);
  }

  // ----- The memory store -----

  datatype Mem = Mem(pages: map<string, seq<PageVer>>, current: map<string, int>)

  /** A Go map gives the zero value for a missing key. */
  function Versions(m: Mem, p: string): seq<PageVer> {
    if p in m.pages then m.pages[p] else []
  }

  function Current(m: Mem, p: string): int {
    if p in m.current then m.current[p] else 0
  }

  function MemPut(rules: PageRules, m: Mem, path: string, files: Files, now: string)
    : (Mem, Result<PageVersion, PageError>)
  {
    match rules.path(path)
    case None => (m, Err(BadPath))
    case Some(p) =>
      match rules.files(files)
      case None => (m, Err(BadFiles))
      case Some(fs) =>
        var v := |Versions(m, p)| + 1;
        var pages := m.pages[p := Versions(m, p) + [PageVer(v, Upload(fs, now))]];
        (Mem(pages, m.current[p := v]), Ok(PageVersion(p, v, Names(fs), true, now)))
  }

  function MemRollback(rules: PageRules, m: Mem, path: string, version: int): (Mem, Result<PageVersion, PageError>) {
    match rules.path(path)
    case None => (m, Err(BadPath))
    case Some(p) =>
      var vs := Versions(m, p);
      if version < 1 || version > |vs| then (m, Err(NotFound))
      else
        var v := vs[version - 1];
        (m.(current := m.current[p := version]), Ok(PageVersion(p, v.ver, Names(v.upload.files), true, v.upload.at)))
  }

  /** The current pointer is 0 or one of the versions, so the index below is in range in every run. */
  ghost predicate Pointing(m: Mem) {
    forall p :: 0 <= Current(m, p) <= |Versions(m, p)|
  }

  function MemFiles(m: Mem, p: string): Result<Files, PageError> {
    var cur := Current(m, p);
    if cur == 0 then Err(NotFound)
    else if 1 <= cur <= |Versions(m, p)| then Ok(Versions(m, p)[cur - 1].upload.files)
    else Err(NotFound)
  }

  function Shown(m: Mem, p: string, v: PageVer): PageVersion {
    PageVersion(p, v.ver, Names(v.upload.files), v.ver == Current(m, p), v.upload.at)
  }

  /** All versions, from the newest to the oldest. */
  function MemVersionList(m: Mem, p: string): (r: seq<PageVersion>)
    ensures |r| == |Versions(m, p)|
  {
    var vs := Versions(m, p);
    seq(|vs|, i requires 0 <= i < |vs| => Shown(m, p, vs[|vs| - 1 - i]))
  }

  function MemVersions(rules: PageRules, m: Mem, path: string): Result<seq<PageVersion>, PageError> {
    match rules.path(path)
    case None => Err(BadPath)
    case Some(p) => if Versions(m, p) == [] then Err(NotFound) else Ok(MemVersionList(m, p))
  }

  /** The paths with a current version. */
  function Served(current: map<string, int>): set<string> {
    set p | p in current && current[p] > 0
  }

  function MemPaths(m: Mem): seq<string> {
    Ascending(Served(m.current))
  }

  class MemPages {
    var pages: map<string, seq<PageVer>>
    var current: map<string, int>
    const rules: PageRules

    ghost function St(): Mem
      reads this
    {
      Mem(pages, current)
    }

    constructor (rules: PageRules)
      ensures St() == Mem(map[], map[]) && this.rules == rules
    {
      this.rules := rules;
      pages, current := map[], map[];
    }

    method PutPage(path: string, files: Files, now: string) returns (r: Result<PageVersion, PageError>)
      requires Pointing(St())
      modifies this
      ensures Pointing(St())
      ensures (St(), r) == MemPut(rules, old(St()), path, files, now)
      ensures r.Ok? ==> Lists(r.value, rules.files(files).value)
    {
      hide Names;
      var p := rules.path(path);
      if p.None? {
        return Err(BadPath);
      }
      var fs := rules.files(files);
      if fs.None? {
        return Err(BadFiles);
      }
      var vs := if p.value in pages then pages[p.value] else [];
      var v := |vs| + 1;
      PutKeepsPointing(rules, St(), path, files, now);
      pages := pages[p.value := vs + [PageVer(v, Upload(fs.value, now))]];
      current := current[p.value := v];
      r := Ok(PageVersion(p.value, v, Names(fs.value), true, now));
      NamesIs(fs.value);
    }

    method RollbackPage(path: string, version: int) returns (r: Result<PageVersion, PageError>)
      requires Pointing(St())
      modifies this
      ensures Pointing(St())
      ensures (St(), r) == MemRollback(rules, old(St()), path, version)
    {
      hide Names;
      var p := rules.path(path);
      if p.None? {
        return Err(BadPath);
      }
      var vs := if p.value in pages then pages[p.value] else [];
      if version < 1 || version > |vs| {
        return Err(NotFound);
      }
      RollbackKeepsPointing(rules, St(), path, version);
      current := current[p.value := version];
      var v := vs[version - 1];
      r := Ok(PageVersion(p.value, v.ver, Names(v.upload.files), true, v.upload.at));
    }

    method PageFiles(p: string) returns (r: Result<Files, PageError>)
      requires Pointing(St())
      ensures r == MemFiles(St(), p)
    {
      var cur := if p in current then current[p] else 0;
      if cur == 0 {
        return Err(NotFound);
      }
      assert 0 <= Current(St(), p) <= |Versions(St(), p)|;
      r := Ok(pages[p][cur - 1].upload.files);
    }

    method ListPageVersions(path: string) returns (r: Result<seq<PageVersion>, PageError>)
      ensures r == MemVersions(rules, St(), path)
    {
      var p := rules.path(path);
      if p.None? {
        return Err(BadPath);
      }
      var vs := if p.value in pages then pages[p.value] else [];
      if |vs| == 0 {
        return Err(NotFound);
      }
      hide Names, Shown;
      var out := ShowVersions(p.value, vs);
      assert out == MemVersionList(St(), p.value);
      r := Ok(out);
    }

    /** The loop over the versions, from the last to the first. */
    method ShowVersions(p: string, vs: seq<PageVer>) returns (out: seq<PageVersion>)
      ensures |out| == |vs| && forall i :: 0 <= i < |vs| ==> out[i] == Shown(St(), p, vs[|vs| - 1 - i])
    {
      hide Names;
      var cur := if p in current then current[p] else 0;
      out := [];
      var i := |vs|;
      while i > 0
        invariant 0 <= i <= |vs| && |out| == |vs| - i
        invariant forall j :: 0 <= j < |out| ==> out[j] == Shown(St(), p, vs[|vs| - 1 - j])
      {
        i := i - 1;
        var v := vs[i];
        out := out + [PageVersion(p, v.ver, Names(v.upload.files), v.ver == cur, v.upload.at)];
      }
    }

    /** Exactly the paths with a current version, sorted. */
    method ListPagePaths() returns (paths: seq<string>)
      ensures forall p :: p in paths <==> Current(St(), p) > 0
      ensures InOrder(paths, Before)
      ensures paths == MemPaths(St())
    {
      AscendingIs(Served(current));
      paths := Ascending(Served(current));
    }
  }

  lemma PutKeepsPointing(rules: PageRules, m: Mem, path: string, files: Files, now: string)
    requires Pointing(m)
    ensures Pointing(MemPut(rules, m, path, files, now).0)
  {
    hide Names;
    var m' := MemPut(rules, m, path, files, now).0;
    forall p
      ensures 0 <= Current(m', p) <= |Versions(m', p)|
    {
      assert 0 <= Current(m, p) <= |Versions(m, p)|;
    }
  }

  lemma RollbackKeepsPointing(rules: PageRules, m: Mem, path: string, version: int)
    requires Pointing(m)
    ensures Pointing(MemRollback(rules, m, path, version).0)
  {
    var m' := MemRollback(rules, m, path, version).0;
    forall p
      ensures 0 <= Current(m', p) <= |Versions(m', p)|
    {
      assert 0 <= Current(m, p) <= |Versions(m, p)|;
    }
  }

  // ----- The MySQL store -----

  /** board_page: path to current_version; board_page_version: (path, version) to the upload. */
  datatype Sql = Sql(page: map<string, int>, version: map<(string, int), Upload>)

  function VersionsOf(s: Sql, p: string): set<int> {
    set k | k in s.version && k.0 == p :: k.1
  }

  /** COALESCE(MAX(version), 0). */
  ghost predicate IsMax(s: Sql, p: string, m: int) {
    if VersionsOf(s, p) == {} then m == 0 else m in VersionsOf(s, p) && forall v :: v in VersionsOf(s, p) ==> v <= m
  }

  /** Versions count from 1, and a page points at one of its versions. */
  ghost predicate PointsAtRow(s: Sql) {
    && (forall k :: k in s.version ==> k.1 > 0)
    && forall p :: p in s.page ==> (p, s.page[p]) in s.version
  }

  class MysqlPages {
    var page: map<string, int>
    var version: map<(string, int), Upload>
    const rules: PageRules
    /** The order of the column's collation, which need not be that of the bytes. */
    const collation: (string, string) -> bool

    ghost function St(): Sql
      reads this
    {
      Sql(page, version)
    }

    ghost predicate Valid()
      reads this
    {
      PointsAtRow(St()) && Order(collation)
    }

    constructor (rules: PageRules, collation: (string, string) -> bool)
      requires Order(collation)
      ensures Valid() && St() == Sql(map[], map[]) && this.rules == rules && this.collation == collation
    {
      this.rules := rules;
      this.collation := collation;
      page, version := map[], map[];
    }

    /** The aggregate of the SELECT, taken row by row. */
    method MaxVersion(p: string) returns (m: int)
      requires forall k :: k in version ==> k.1 > 0
      ensures IsMax(St(), p, m)
    {
      m := 0;
      var rest := version.Keys;
      while rest != {}
        invariant rest <= version.Keys
        invariant m == 0 || (p, m) in version
        invariant m >= 0 && forall k :: k in version && k !in rest && k.0 == p ==> k.1 <= m
        decreases |rest|
      {
        ghost var some := HasElement(rest);
        var k :| k in rest;
        rest := rest - {k};
        if k.0 == p {
          m := if k.1 > m then k.1 else m;
        }
      }
      MaxOfRows(St(), p, m);
    }

    method PutPage(path: string, files: Files, now: string) returns (r: Result<PageVersion, PageError>)
      requires Valid()
      modifies this
      ensures Valid()
      ensures (St(), r) == SqlPut(rules, old(St()), path, files, now)
      ensures r.Ok? ==> Lists(r.value, rules.files(files).value)
    {
      hide Names;
      var p := rules.path(path);
      if p.None? {
        return Err(BadPath);
      }
      var fs := rules.files(files);
      if fs.None? {
        return Err(BadFiles);
      }
      ghost var s0 := St();
      if p.value !in page {
        page := page[p.value := 0];
      }
      var maxV := MaxVersion(p.value);
      MaxIs(s0, p.value, maxV);
      var v := maxV + 1;
      version := version[(p.value, v) := Upload(fs.value, now)];
      page := page[p.value := v];
      assert page == s0.page[p.value := v];
      r := Ok(PageVersion(p.value, v, Names(fs.value), true, now));
      NamesIs(fs.value);
    }

    method RollbackPage(path: string, ver: int) returns (r: Result<PageVersion, PageError>)
      requires Valid()
      modifies this
      ensures Valid()
      ensures (St(), r) == SqlRollback(rules, old(St()), path, ver)
    {
      hide Names;
      var p := rules.path(path);
      if p.None? {
        return Err(BadPath);
      }
      if (p.value, ver) !in version {
        return Err(NotFound);
      }
      if p.value in page {
        page := page[p.value := ver];
      }
      var row := version[(p.value, ver)];
      r := Ok(PageVersion(p.value, ver, Names(row.files), true, row.at));
    }

    method ListPageVersions(path: string) returns (r: Result<seq<PageVersion>, PageError>)
      ensures r == SqlVersions(rules, St(), path)
    {
      hide Newest, Names, RowOf;
      var p := rules.path(path);
      if p.None? {
        return Err(BadPath);
      }
      if p.value !in page {
        return Err(NotFound);
      }
      ghost var s := St();
      var rows := Newest(Sql(page, version), p.value);
      RowsExist(s, p.value);
      var out := ShowRows(p.value, rows);
      assert out == NewestRows(s, p.value);
      r := Ok(out);
    }

    /** The loop over the rows of the query. */
    method ShowRows(p: string, rows: seq<int>) returns (out: seq<PageVersion>)
      requires p in page && forall v :: v in rows ==> (p, v) in version
      ensures |out| == |rows| && forall i :: 0 <= i < |rows| ==> out[i] == RowOf(St(), p, rows[i])
    {
      hide Names;
      var cur := page[p];
      out := [];
      for i := 0 to |rows|
        invariant |out| == i && forall j :: 0 <= j < i ==> out[j] == RowOf(St(), p, rows[j])
      {
        assert rows[i] in rows;
        var row := version[(p, rows[i])];
        out := out + [PageVersion(p, rows[i], Names(row.files), rows[i] == cur, row.at)];
      }
    }

    /** Served paths in the order of the collation, at most 1000, and one that is missing comes after all of those. */
    method ListPagePaths() returns (paths: seq<string>)
      requires Valid()
      ensures |paths| <= 1000 && InOrder(paths, collation) && forall p :: p in paths ==> p in Served(page)
      ensures forall p :: p in Served(page) && p !in paths ==>
          |paths| == 1000 && forall q :: q in paths ==> collation(q, p)
      ensures paths == SqlPaths(St(), collation)
    {
      var all := Sorted(Served(page), collation);
      paths := Limited(all, 1000);
      forall p, q | p in all && p !in paths && q in paths
        ensures |paths| == 1000 && collation(q, p)
      {
        var i :| 0 <= i < |all| && all[i] == p;
        var j :| 0 <= j < |paths| && paths[j] == q;
        assert i >= |paths| && all[j] == q;
      }
    }

    /** The join of the two tables on the current version; it has a row for every page. */
    method PageFiles(p: string) returns (r: Result<Files, PageError>)
      requires Valid()
      ensures r.Ok? <==> p in page
      ensures r == SqlFiles(St(), p)
    {
      if p in page && (p, page[p]) in version {
        r := Ok(version[(p, page[p])].files);
      } else {
        r := Err(NotFound);
      }
    }
  }

  lemma VersionsHere(s: Sql, p: string, v: int)
    ensures v in VersionsOf(s, p) <==> (p, v) in s.version
  {
    if v in VersionsOf(s, p) {
      var k :| k in s.version && k.0 == p && k.1 == v;
      assert k == (p, v);
    }
  }

  lemma RowsExist(s: Sql, p: string)
    ensures forall v :: v in Newest(s, p) ==> (p, v) in s.version
  {
    forall v | v in Newest(s, p)
      ensures (p, v) in s.version
    {
      assert v in Descending(VersionsOf(s, p));
      VersionsHere(s, p, v);
    }
  }

  /** The next version is one more than the greatest in the table. */
  ghost function SqlPut(rules: PageRules, s: Sql, path: string, files: Files, now: string)
    : (Sql, Result<PageVersion, PageError>)
  {
    match rules.path(path)
    case None => (s, Err(BadPath))
    case Some(p) =>
      match rules.files(files)
      case None => (s, Err(BadFiles))
      case Some(fs) =>
        var v := MaxOf(s, p) + 1;
        (Sql(s.page[p := v], s.version[(p, v) := Upload(fs, now)]), Ok(PageVersion(p, v, Names(fs), true, now)))
  }

  /** A rollback updates the row of board_page if there is one. */
  function SqlRollback(rules: PageRules, s: Sql, path: string, ver: int): (Sql, Result<PageVersion, PageError>) {
    match rules.path(path)
    case None => (s, Err(BadPath))
    case Some(p) =>
      if (p, ver) !in s.version then (s, Err(NotFound))
      else
        var row := s.version[(p, ver)];
        var after := if p in s.page then s.(page := s.page[p := ver]) else s;
        (after, Ok(PageVersion(p, ver, Names(row.files), true, row.at)))
  }

  function SqlFiles(s: Sql, p: string): Result<Files, PageError> {
    if p in s.page && (p, s.page[p]) in s.version then Ok(s.version[(p, s.page[p])].files) else Err(NotFound)
  }

  /** LIMIT n. */
  function Limited<T>(s: seq<T>, n: nat): seq<T> {
    if |s| <= n then s else s[..n]
  }

  /** The answer cut down to n entries. */
  function UpTo(n: nat, r: Result<seq<PageVersion>, PageError>): Result<seq<PageVersion>, PageError> {
    if r.Ok? then Ok(Limited(r.value, n)) else r
  }

  function RowOf(s: Sql, p: string, v: int): PageVersion {
    var cur := if p in s.page then s.page[p] else 0;
    var row := if (p, v) in s.version then s.version[(p, v)] else Upload(map[], "");
    PageVersion(p, v, Names(row.files), v == cur, row.at)
  }

  /** ORDER BY version DESC LIMIT 200. */
  function Newest(s: Sql, p: string): seq<int> {
    Limited(Descending(VersionsOf(s, p)), 200)
  }

  function NewestRows(s: Sql, p: string): seq<PageVersion> {
    Rows(s, p, Newest(s, p))
  }

  function Rows(s: Sql, p: string, vs: seq<int>): seq<PageVersion> {
    seq(|vs|, i requires 0 <= i < |vs| => RowOf(s, p, vs[i]))
  }

  /** The rows of those versions, if board_page has the path. */
  function SqlVersions(rules: PageRules, s: Sql, path: string): Result<seq<PageVersion>, PageError> {
    match rules.path(path)
    case None => Err(BadPath)
    case Some(p) =>
      if p !in s.page then Err(NotFound) else Ok(NewestRows(s, p))
  }

  /** WHERE current_version > 0 ORDER BY path LIMIT 1000. */
  function SqlPaths(s: Sql, collation: (string, string) -> bool): seq<string>
    requires Order(collation)
  {
    Limited(Sorted(Served(s.page), collation), 1000)
  }

  ghost function MaxOf(s: Sql, p: string): int {
    if m :| IsMax(s, p, m) then m else 0
  }

  lemma MaxIs(s: Sql, p: string, m: int)
    requires IsMax(s, p, m)
    ensures MaxOf(s, p) == m
  {
    var n :| IsMax(s, p, n) && MaxOf(s, p) == n;
  }

  lemma MaxOfRows(s: Sql, p: string, m: int)
    requires m == 0 || (p, m) in s.version
    requires m >= 0 && forall k :: k in s.version && k.0 == p ==> 0 < k.1 <= m
    ensures IsMax(s, p, m)
  {
    forall v | v in VersionsOf(s, p)
      ensures 0 < v <= m && (p, v) in s.version
    {
      var k :| k in s.version && k.0 == p && k.1 == v;
      assert k == (p, v);
    }
    if (p, m) in s.version {
      assert m in VersionsOf(s, p);
    } else {
      forall v
        ensures v !in VersionsOf(s, p)
      {
      }
    }
  }

  /** The tables hold what the memory store holds: versions 1 to n of each path, and the same current versions. */
  ghost predicate Same(m: Mem, s: Sql) {
    && (forall p, v :: (p, v) in s.version <==> 1 <= v <= |Versions(m, p)|)
    && (forall p, v :: 1 <= v <= |Versions(m, p)| ==> Versions(m, p)[v - 1] == PageVer(v, s.version[(p, v)]))
    && m.current == s.page
    && (forall p :: p in s.page ==> 1 <= s.page[p] <= |Versions(m, p)|)
    && (forall p :: |Versions(m, p)| > 0 ==> p in s.page)
  }

  lemma CountIsMax(m: Mem, s: Sql, p: string)
    requires Same(m, s)
    ensures MaxOf(s, p) == |Versions(m, p)|
  {
    var n := |Versions(m, p)|;
    VersionsAre(m, s, p);
    if n > 0 {
      assert n in VersionsOf(s, p);
    } else {
      assert forall v :: v !in VersionsOf(s, p);
    }
    MaxIs(s, p, n);
  }

  lemma PutSame(rules: PageRules, m: Mem, s: Sql, path: string, files: Files, now: string)
    requires Same(m, s)
    ensures Same(MemPut(rules, m, path, files, now).0, SqlPut(rules, s, path, files, now).0)
    ensures MemPut(rules, m, path, files, now).1 == SqlPut(rules, s, path, files, now).1
  {
    if rules.path(path).Some? && rules.files(files).Some? {
      var p, fs := rules.path(path).value, rules.files(files).value;
      CountIsMax(m, s, p);
      AddedSame(m, s, p, Upload(fs, now));
    }
  }

  lemma AddedSame(m: Mem, s: Sql, p: string, u: Upload)
    requires Same(m, s)
    ensures var v := |Versions(m, p)| + 1;
            Same(Mem(m.pages[p := Versions(m, p) + [PageVer(v, u)]], m.current[p := v]),
              Sql(s.page[p := v], s.version[(p, v) := u]))
  {
    var v := |Versions(m, p)| + 1;
    var m' := Mem(m.pages[p := Versions(m, p) + [PageVer(v, u)]], m.current[p := v]);
    var s' := Sql(s.page[p := v], s.version[(p, v) := u]);
    forall q
      ensures Versions(m', q) == if q == p then Versions(m, p) + [PageVer(v, u)] else Versions(m, q)
    {
    }
    forall q, w
      ensures (q, w) in s'.version <==> 1 <= w <= |Versions(m', q)|
    {
      assert (q, w) in s.version <==> 1 <= w <= |Versions(m, q)|;
    }
  }

  lemma RollbackSame(rules: PageRules, m: Mem, s: Sql, path: string, ver: int)
    requires Same(m, s)
    ensures Same(MemRollback(rules, m, path, ver).0, SqlRollback(rules, s, path, ver).0)
    ensures MemRollback(rules, m, path, ver).1 == SqlRollback(rules, s, path, ver).1
  {
    if rules.path(path).Some? {
      var p := rules.path(path).value;
      assert (p, ver) in s.version <==> 1 <= ver <= |Versions(m, p)|;
      var m' := MemRollback(rules, m, path, ver).0;
      assert forall q :: Versions(m', q) == Versions(m, q);
    }
  }

  // ----- The log -----

  datatype Call = PutCall(path: string, files: Files, now: string) | RollbackCall(path: string, version: int)

  function Apply(rules: PageRules, m: Mem, c: Call): Mem {
    match c
    case PutCall(path, files, now) => MemPut(rules, m, path, files, now).0
    case RollbackCall(path, version) => MemRollback(rules, m, path, version).0
  }

  function Run(rules: PageRules, calls: seq<Call>): Mem {
    if calls == [] then Mem(map[], map[])
    else Apply(rules, Run(rules, calls[..|calls| - 1]), calls[|calls| - 1])
  }

  /** What a path has been given: the uploads of its successful puts, in order. */
  function Log(rules: PageRules, calls: seq<Call>, p: string): seq<Upload> {
    if calls == [] then []
    else
      var before := Log(rules, calls[..|calls| - 1], p);
      var c := calls[|calls| - 1];
      if c.PutCall? && rules.path(c.path) == Some(p) && rules.files(c.files).Some?
      then before + [Upload(rules.files(c.files).value, c.now)]
      else before
  }

  /** A successful put points at the version it adds, a rollback at an earlier one, and other calls at nothing. */
  function PointsTo(rules: PageRules, c: Call, p: string, versions: nat): Option<nat> {
    if rules.path(c.path) != Some(p) then None
    else if c.PutCall? then (if rules.files(c.files).Some? then Some(versions + 1) else None)
    else if 1 <= c.version <= versions then Some(c.version)
    else None
  }

  /** The version of the last successful put, or last rolled back to; 0 if there is none. */
  function Pointed(rules: PageRules, calls: seq<Call>, p: string): nat {
    if calls == [] then 0
    else
      var earlier := calls[..|calls| - 1];
      match PointsTo(rules, calls[|calls| - 1], p, |Log(rules, earlier, p)|)
      case Some(v) => v
      case None => Pointed(rules, earlier, p)
  }

  /** The files of that version. */
  function Published(rules: PageRules, calls: seq<Call>, p: string): Result<Files, PageError> {
    var log, v := Log(rules, calls, p), Pointed(rules, calls, p);
    if 1 <= v <= |log| then Ok(log[v - 1].files) else Err(NotFound)
  }

  /** A call adds a version to its path, or none. */
  lemma StepVersions(rules: PageRules, m: Mem, c: Call, p: string)
    ensures var vs := Versions(m, p);
            Versions(Apply(rules, m, c), p)
              == if c.PutCall? && rules.path(c.path) == Some(p) && rules.files(c.files).Some?
                 then vs + [PageVer(|vs| + 1, Upload(rules.files(c.files).value, c.now))] else vs
  {
    hide Names;
  }

  /**
   * Versions are exactly 1 to n, each with the files that the log gives it: a rollback neither adds nor changes
   * one.
   */
  lemma {:induction false} VersionsAreTheLog(rules: PageRules, calls: seq<Call>, p: string)
    ensures |Versions(Run(rules, calls), p)| == |Log(rules, calls, p)|
    ensures forall i :: 0 <= i < |Log(rules, calls, p)| ==>
        Versions(Run(rules, calls), p)[i] == PageVer(i + 1, Log(rules, calls, p)[i])
  {
    if calls != [] {
      hide Names, Apply, Versions;
      VersionsAreTheLog(rules, calls[..|calls| - 1], p);
      StepVersions(rules, Run(rules, calls[..|calls| - 1]), calls[|calls| - 1], p);
    }
  }

  /** How one call changes the pointer of p. */
  lemma StepCurrent(rules: PageRules, m: Mem, c: Call, p: string)
    ensures match PointsTo(rules, c, p, |Versions(m, p)|)
            case Some(v) => Current(Apply(rules, m, c), p) == v
            case None => Current(Apply(rules, m, c), p) == Current(m, p)
  {
    hide Names;
  }

  lemma {:induction false} CurrentIsPointed(rules: PageRules, calls: seq<Call>, p: string)
    ensures Current(Run(rules, calls), p) == Pointed(rules, calls, p) <= |Log(rules, calls, p)|
  {
    VersionsAreTheLog(rules, calls, p);
    PointsRight(rules, calls);
    assert 0 <= Current(Run(rules, calls), p) <= |Versions(Run(rules, calls), p)|;
    if calls != [] {
      hide Apply, Log, Versions, Pointing, Run, PointsTo, Current;
      var earlier := calls[..|calls| - 1];
      CurrentIsPointed(rules, earlier, p);
      VersionsAreTheLog(rules, earlier, p);
      StepCurrent(rules, Run(rules, earlier), calls[|calls| - 1], p);
      RunLast(rules, calls);
    } else {
      assert Current(Mem(map[], map[]), p) == 0;
    }
  }

  /** PageFiles serves the last published files, whatever the run of puts and rollbacks. */
  lemma FilesArePublished(rules: PageRules, calls: seq<Call>, p: string)
    ensures MemFiles(Run(rules, calls), p) == Published(rules, calls, p)
  {
    hide Run, Log, Pointed, Versions, Current;
    VersionsAreTheLog(rules, calls, p);
    CurrentIsPointed(rules, calls, p);
  }

  lemma RunLast(rules: PageRules, calls: seq<Call>)
    requires calls != []
    ensures Run(rules, calls) == Apply(rules, Run(rules, calls[..|calls| - 1]), calls[|calls| - 1])
  {
  }

  lemma {:induction false} PointsRight(rules: PageRules, calls: seq<Call>)
    ensures Pointing(Run(rules, calls))
  {
    if calls != [] {
      PointsRight(rules, calls[..|calls| - 1]);
      var m := Run(rules, calls[..|calls| - 1]);
      match calls[|calls| - 1]
      case PutCall(path, files, now) => PutKeepsPointing(rules, m, path, files, now);
      case RollbackCall(path, version) => RollbackKeepsPointing(rules, m, path, version);
    }
  }

  /** Append-only: what a path's version is, it stays, whatever happens later. */
  lemma {:induction false} VersionsImmutable(rules: PageRules, calls: seq<Call>, later: seq<Call>, p: string)
    ensures Versions(Run(rules, calls), p) <= Versions(Run(rules, calls + later), p)
  {
    if later == [] {
      assert calls + later == calls;
    } else {
      var init := later[..|later| - 1];
      hide Names, Apply, Versions;
      assert (calls + later)[..|calls + later| - 1] == calls + init;
      VersionsImmutable(rules, calls, init, p);
      StepVersions(rules, Run(rules, calls + init), later[|later| - 1], p);
    }
  }

  /** A put after any run, rollbacks included, gets the next number and becomes current. */
  lemma PutGetsNextVersion(rules: PageRules, calls: seq<Call>, path: string, files: Files, now: string)
    requires rules.path(path).Some? && rules.files(files).Some?
    ensures var p, fs := rules.path(path).value, rules.files(files).value;
            MemPut(rules, Run(rules, calls), path, files, now).1
              == Ok(PageVersion(p, |Log(rules, calls, p)| + 1, Names(fs), true, now))
  {
    hide Names, Log;
    VersionsAreTheLog(rules, calls, rules.path(path).value);
  }

  /** This is version v of the path: what its upload holds, and when it was stored. */
  ghost predicate Describes(r: PageVersion, p: string, v: int, upload: Upload, current: bool) {
    r.path == p && r.version == v && r.current == current && r.createdAt == upload.at && Lists(r, upload.files)
  }

  lemma ShownDescribes(m: Mem, p: string, v: PageVer)
    ensures Describes(Shown(m, p, v), p, v.ver, v.upload, v.ver == Current(m, p))
  {
    NamesIs(v.upload.files);
  }

  /**
   * After any run, what a put and a rollback answer: the next version with the files that were put, and the version
   * rolled back to with the files that it was put with. Both are then current.
   */
  lemma AnswersAreTheLog(rules: PageRules, calls: seq<Call>, path: string, files: Files, now: string, version: int)
    ensures var put := MemPut(rules, Run(rules, calls), path, files, now).1;
            if rules.path(path).None? then put == Err(BadPath)
            else if rules.files(files).None? then put == Err(BadFiles)
            else
              var p := rules.path(path).value;
              var upload := Upload(rules.files(files).value, now);
              put.Ok? && Describes(put.value, p, |Log(rules, calls, p)| + 1, upload, true)
    ensures var back := MemRollback(rules, Run(rules, calls), path, version).1;
            if rules.path(path).None? then back == Err(BadPath)
            else
              var p := rules.path(path).value;
              var log := Log(rules, calls, p);
              if 1 <= version <= |log| then back.Ok? && Describes(back.value, p, version, log[version - 1], true)
              else back == Err(NotFound)
  {
    hide Run, Log, Names, Versions;
    if rules.path(path).Some? {
      VersionsAreTheLog(rules, calls, rules.path(path).value);
      if rules.files(files).Some? {
        NamesIs(rules.files(files).value);
      }
      if 1 <= version <= |Log(rules, calls, rules.path(path).value)| {
        NamesIs(Log(rules, calls, rules.path(path).value)[version - 1].files);
      }
    }
  }

  /** After any run the version list is the log from its end, with the published version marked. */
  lemma ListingIsTheLog(rules: PageRules, calls: seq<Call>, path: string)
    ensures var list := MemVersions(rules, Run(rules, calls), path);
            if rules.path(path).None? then list == Err(BadPath)
            else
              var p := rules.path(path).value;
              var log := Log(rules, calls, p);
              if log == [] then list == Err(NotFound)
              else
                && list.Ok? && |list.value| == |log|
                && forall i :: 0 <= i < |log| ==>
                     var v := |log| - i;
                     Describes(list.value[i], p, v, log[v - 1], v == Pointed(rules, calls, p))
  {
    hide Run, Log, Shown, Describes, Versions, Pointed;
    if rules.path(path).Some? {
      var p, m := rules.path(path).value, Run(rules, calls);
      VersionsAreTheLog(rules, calls, p);
      CurrentIsPointed(rules, calls, p);
      forall i | 0 <= i < |Log(rules, calls, p)|
        ensures Describes(MemVersionList(m, p)[i], p, |Log(rules, calls, p)| - i,
                          Log(rules, calls, p)[|Log(rules, calls, p)| - i - 1],
                          |Log(rules, calls, p)| - i == Pointed(rules, calls, p))
      {
        ShownDescribes(m, p, Versions(m, p)[|Versions(m, p)| - 1 - i]);
      }
    }
  }

  // ----- MySQL against memory -----

  ghost function SqlApply(rules: PageRules, s: Sql, c: Call): Sql {
    match c
    case PutCall(path, files, now) => SqlPut(rules, s, path, files, now).0
    case RollbackCall(path, version) => SqlRollback(rules, s, path, version).0
  }

  ghost function SqlRun(rules: PageRules, calls: seq<Call>): Sql {
    if calls == [] then Sql(map[], map[])
    else SqlApply(rules, SqlRun(rules, calls[..|calls| - 1]), calls[|calls| - 1])
  }

  lemma {:induction false} SqlRunSame(rules: PageRules, calls: seq<Call>)
    ensures Same(Run(rules, calls), SqlRun(rules, calls))
  {
    if calls != [] {
      var earlier := calls[..|calls| - 1];
      SqlRunSame(rules, earlier);
      match calls[|calls| - 1]
      case PutCall(path, files, now) => PutSame(rules, Run(rules, earlier), SqlRun(rules, earlier), path, files, now);
      case RollbackCall(path, version) =>
        RollbackSame(rules, Run(rules, earlier), SqlRun(rules, earlier), path, version);
    }
  }

  /** The collation orders these paths as their bytes do. */
  ghost predicate OrderedAlike(s: set<string>, collation: (string, string) -> bool) {
    forall p, q :: p in s && q in s && Before(p, q) ==> collation(p, q)
  }

  /** The paths are listed alike up to the limit if the collation orders them as bytes; with no more, only then. */
  lemma PathsSameIff(m: Mem, s: Sql, collation: (string, string) -> bool)
    requires m.current == s.page && Order(collation)
    ensures OrderedAlike(Served(m.current), collation) ==> SqlPaths(s, collation) == Limited(MemPaths(m), 1000)
    ensures |Served(m.current)| <= 1000 ==>
              (SqlPaths(s, collation) == MemPaths(m) <==> OrderedAlike(Served(m.current), collation))
  {
    hide Sorted;
    BeforeIsOrder();
    SameOrderIff(Served(m.current), Before, collation);
  }

  /**
   * After the same calls the MAX + 1 tables answer the next call, whatever it is, exactly as the memory store does,
   * but for the limits of its listings and the order of the paths.
   */
  lemma MysqlAnswersAsMemory(rules: PageRules, calls: seq<Call>, path: string, files: Files, now: string, version: int,
                             collation: (string, string) -> bool)
    requires Order(collation)
    ensures SqlPut(rules, SqlRun(rules, calls), path, files, now).1
        == MemPut(rules, Run(rules, calls), path, files, now).1
    ensures SqlRollback(rules, SqlRun(rules, calls), path, version).1
        == MemRollback(rules, Run(rules, calls), path, version).1
    ensures SqlFiles(SqlRun(rules, calls), path) == MemFiles(Run(rules, calls), path) == Published(rules, calls, path)
    ensures SqlVersions(rules, SqlRun(rules, calls), path)
         == UpTo(200, MemVersions(rules, Run(rules, calls), path))
    ensures OrderedAlike(Served(Run(rules, calls).current), collation) ==>
              SqlPaths(SqlRun(rules, calls), collation) == Limited(MemPaths(Run(rules, calls)), 1000)
  {
    var m, s := Run(rules, calls), SqlRun(rules, calls);
    hide Run, SqlRun, Published, Names, SqlPaths, MemPaths, OrderedAlike;
    SqlRunSame(rules, calls);
    PutSame(rules, m, s, path, files, now);
    RollbackSame(rules, m, s, path, version);
    FilesArePublished(rules, calls, path);
    VersionsSame(rules, m, s, path);
    PathsSameIff(m, s, collation);
  }

  lemma VersionsSame(rules: PageRules, m: Mem, s: Sql, path: string)
    requires Same(m, s)
    ensures SqlVersions(rules, s, path) == UpTo(200, MemVersions(rules, m, path))
  {
    hide Names, NewestRows, Limited, MemVersionList;
    if rules.path(path).Some? {
      ListingSame(m, s, rules.path(path).value);
    }
  }

  lemma ListingSame(m: Mem, s: Sql, p: string)
    requires Same(m, s)
    ensures NewestRows(s, p) == Limited(MemVersionList(m, p), 200)
  {
    hide Same, Rows, MemVersionList, Descending, VersionsOf, Limited;
    RowsSame(m, s, p);
    RowsLimited(s, p, Descending(VersionsOf(s, p)), 200);
  }

  lemma RowsLimited(s: Sql, p: string, vs: seq<int>, n: nat)
    ensures Rows(s, p, Limited(vs, n)) == Limited(Rows(s, p, vs), n)
  {
    hide RowOf;
  }

  lemma RowsSame(m: Mem, s: Sql, p: string)
    requires Same(m, s)
    ensures Rows(s, p, Descending(VersionsOf(s, p))) == MemVersionList(m, p)
  {
    hide VersionsOf, Descending, Same, Shown, RowOf, Versions;
    var n, vs := |Versions(m, p)|, Descending(VersionsOf(s, p));
    VersionsAre(m, s, p);
    DescendingRange(VersionsOf(s, p), n);
    forall i | 0 <= i < n
      ensures RowOf(s, p, vs[i]) == MemVersionList(m, p)[i]
    {
      RowSame(m, s, p, n - i);
    }
  }

  lemma VersionsAre(m: Mem, s: Sql, p: string)
    requires Same(m, s)
    ensures forall v :: v in VersionsOf(s, p) <==> 1 <= v <= |Versions(m, p)|
  {
    forall v
      ensures v in VersionsOf(s, p) <==> 1 <= v <= |Versions(m, p)|
    {
      VersionsHere(s, p, v);
    }
  }

  lemma RowSame(m: Mem, s: Sql, p: string, v: int)
    requires Same(m, s) && 1 <= v <= |Versions(m, p)|
    ensures RowOf(s, p, v) == Shown(m, p, Versions(m, p)[v - 1])
  {
    hide Names;
    assert (p, v) in s.version && Versions(m, p)[v - 1] == PageVer(v, s.version[(p, v)]);
  }
}
