/** The decisions of `main` (mcp_deploy.py:319-546): loading the
    configuration and confirming a clean, the prepare phase that resolves
    versions and fetches the archives in a fixed order with its exit codes,
    and the names of the jars the compile phase packages. */
module Deploy {
  import opened Text
  import opened Paths
  import opened Disk
  import opened Fetch
  import opened Catalogs
  import opened Versions

  /** The keys of `mctoolchain.json` that `main` reads. */
  datatype Config = Config(usemcp: bool, mcpversion: string, useforge: bool, forgeversion: string,
                           usemcpc: bool, mcpcBuild: string)

  /** How a phase ends: it carries on, the script exits with a code, or an
      exception ends it. */
  datatype Exit = Continue | Exited(code: int) | Crashed

  // ---------------------------------------------------------------------
  // Start

  /** `str.lower` on ASCII text. */
  function Lower(s: string): (r: string)
    ensures |r| == |s|
    ensures forall i :: 0 <= i < |s| ==> r[i] == if 'A' <= s[i] <= 'Z' then (s[i] as int + 32) as char else s[i]
  {
    if s == [] then ""
    else [if 'A' <= s[0] <= 'Z' then (s[0] as int + 32) as char else s[0]] + Lower(s[1..])
  }

  predicate Confirmed(answer: string) {
    Lower(answer) in ["y", "yes"]
  }

  predicate Cleaning(argv: seq<string>) {
    "clean" in argv || "forceclean" in argv
  }

  /** The decisions before any work (mcp_deploy.py:328-383): a configuration
      that cannot be loaded (missing, unreadable or empty) exits with 6; a
      clean that is not forced and whose answer is not "y" or "yes" in any
      case exits with 7. */
  function Start(config: Option<Config>, argv: seq<string>, answer: string): (e: Exit)
    ensures e.Continue? || e.Exited?
  {
    if config.None? then Exited(6)
    else if Cleaning(argv) && "forceclean" !in argv && !Confirmed(answer) then Exited(7)
    else Continue
  }

  /** Exit 6 means no configuration, exit 7 an unconfirmed clean; a forced
      clean never asks, and "Y", "Yes" and "YES" confirm. */
  lemma StartCodes(config: Option<Config>, argv: seq<string>, answer: string)
    ensures Start(config, argv, answer) == Exited(6) <==> config.None?
    ensures Start(config, argv, answer) == Exited(7) <==>
      config.Some? && Cleaning(argv) && "forceclean" !in argv && !Confirmed(answer)
    ensures config.Some? && "forceclean" in argv ==> Start(config, argv, answer) == Continue
    ensures Confirmed("Y") && Confirmed("Yes") && Confirmed("YES") && !Confirmed("") && !Confirmed("no")
  {
    assert Lower("Y") == "y";
    assert Lower("Yes") == "yes";
    assert Lower("YES") == "yes";
    assert Lower("no") == "no";
  }

  // ---------------------------------------------------------------------
  // Prepare

  /** The catalogues, as the server would return them. */
  datatype Pages = Pages(mcpWiki: string, forgeIndex: string, mcpcDownloads: seq<Download>)

  /** The catalogues as the parsers read them; a parser that raises gives
      `None`. */
  datatype Lists = Lists(mcp: Option<McpList>, forge: Option<ForgeList>, mcpc: seq<Download>)

  function Read(pages: Pages): Lists {
    Lists(McpCatalog(pages.mcpWiki), ForgeCatalog(pages.forgeIndex), pages.mcpcDownloads)
  }
  datatype Page = McpWiki | ForgeIndex | McpcDownloads

  /** What the prepare phase does, in order: fetch a request, or read a
      catalogue. */
  datatype Event = Requested(req: Request) | Consulted(page: Page)

  /** The state the phase threads: the disk, the replies the network has yet
      to give, and the events so far. */
  datatype Run = Run(tree: Tree, rest: seq<Reply>, events: seq<Event>)

  /** What `getMCPC` gave: not asked, no matching download (None), or the
      result of fetching the match. */
  datatype McpcState = Unused | Unmatched | Retrieved(result: Fetched)

  /** The end of the phase, with the values the install phase goes on to
      use: the client and server jars and the MCPC jar. */
  datatype Prepared = Prepared(run: Run, exit: Exit, client: bool, server: bool, mcpc: McpcState)

  /** A `get*` call as `main` makes it (verbose=True, so one retry). A raise
      inside `getZipOrDownload` is not caught by the wrapper. */
  function Get(r: Run, req: Request): (Run, Fetched) {
    var f := FetchAt(r.tree, req.file, r.rest, Budget(true));
    (Run(f.tree, f.rest, r.events + [Requested(req)]), f.result)
  }

  /** How `main` goes on after a `get*` whose result it checks: `False`
      exits with `code`, and a raise ends the script. */
  function Checked(f: Fetched, code: int): (e: Exit)
    ensures e == Continue <==> f == Got
    ensures e == Crashed <==> f == Raised
    ensures e.Exited? ==> e.code == code
  {
    match f
    case Got => Continue
    case Refused => Exited(code)
    case Raised => Crashed
  }

  function Consult(r: Run, page: Page): Run {
    r.(events := r.events + [Consulted(page)])
  }

  /** The client jar, then the server jar (mcp_deploy.py:414-423). A raise
      in either fetch ends the script; only the catalogue path (`checked`)
      exits with 3 when one of them is `False`. */
  function Jars(r: Run, cv: string, sv: string, checked: bool, sep: char): Prepared {
    var (r1, c) := Get(r, ClientRequest(cv, sep));
    if c.Raised? then Prepared(r1, Crashed, false, false, Unused)
    else
      var (r2, s) := Get(r1, ServerRequest(sv, sep));
      var exit := if s.Raised? then Crashed else if checked && !(c == Got && s == Got) then Exited(3) else Continue;
      Prepared(r2, exit, c == Got, s == Got, Unused)
  }

  /** The Minecraft versions of an MCP release (mcp_deploy.py:413-429): the
      static table first; otherwise the wiki catalogue, whose "server" field
      names the client jar and whose "client" field names the server jar.
      Only the catalogue path checks the two fetches. */
  function ResolveSpec(r: Run, v: string, table: map<string, string>, lists: Lists, sep: char): Prepared {
    if v in table then Jars(r, table[v], table[v], false, sep)
    else
      var r1 := Consult(r, McpWiki);
      match lists.mcp
      case None => Prepared(r1, Crashed, false, false, Unused)
      case Some(list) =>
        if v !in list then Prepared(r1, Exited(2), false, false, Unused)
        else Jars(r1, list[v].server, list[v].client, true, sep)
  }

  /** getForge (mcp_deploy.py:249-256) and its check (mcp_deploy.py:437-444). */
  function ForgeSpec(r: Run, build: string, lists: Lists, sep: char): (Run, Exit) {
    var r1 := Consult(r, ForgeIndex);
    match lists.forge
    case None => (r1, Crashed)
    case Some(fvl) =>
      match ForgeRequest(fvl, build, sep)
      case Unlisted => (r1, Exited(4))
      case NoSource => (r1, Crashed)
      case Source(req) =>
        var (r2, f) := Get(r1, req);
        (r2, Checked(f, 4))
  }

  /** getMCPC (mcp_deploy.py:258-265); `main` does not check its result. */
  function McpcSpec(r: Run, build: string, lists: Lists, sep: char): (Run, McpcState) {
    var r1 := Consult(r, McpcDownloads);
    match FirstMcpc(lists.mcpc, build)
    case None => (r1, Unmatched)
    case Some(dl) =>
      var (r2, f) := Get(r1, McpcRequest(dl, sep));
      (r2, Retrieved(f))
  }

  /** The prepare phase (mcp_deploy.py:406-447). */
  function PrepareSpec(t: Tree, cfg: Config, table: map<string, string>, lists: Lists, q: seq<Reply>, sep: char): Prepared {
    var r0 := Run(t, q, []);
    if !cfg.usemcp then McpcStage(Prepared(r0, Continue, false, false, Unused), cfg, lists, sep)
    else
      var (r1, mcp) := Get(r0, McpRequest(cfg.mcpversion, sep));
      if mcp != Got then Prepared(r1, Checked(mcp, 1), false, false, Unused)
      else
        var res := ResolveSpec(r1, cfg.mcpversion, table, lists, sep);
        if res.exit != Continue then res else LaterSpec(res, cfg, lists, sep)
  }

  /** What follows a resolution: LWJGL, Forge when configured, MCPC. */
  function LaterSpec(p: Prepared, cfg: Config, lists: Lists, sep: char): Prepared {
    var (r2, lwjgl) := Get(p.run, LwjglRequest(sep));
    if lwjgl != Got then p.(run := r2, exit := Checked(lwjgl, 5))
    else AfterLwjgl(p.(run := r2), cfg, lists, sep)
  }

  function AfterLwjgl(p: Prepared, cfg: Config, lists: Lists, sep: char): Prepared {
    var f := ForgeStage(p, cfg, lists, sep);
    if f.exit != Continue then f else McpcStage(f, cfg, lists, sep)
  }

  function ForgeStage(p: Prepared, cfg: Config, lists: Lists, sep: char): Prepared {
    if cfg.useforge then
      var (r, e) := ForgeSpec(p.run, cfg.forgeversion, lists, sep);
      p.(run := r, exit := e)
    else p
  }

  function McpcStage(p: Prepared, cfg: Config, lists: Lists, sep: char): Prepared {
    if cfg.usemcpc then
      var (r, m) := McpcSpec(p.run, cfg.mcpcBuild, lists, sep);
      p.(run := r, mcpc := m, exit := if m == Retrieved(Raised) then Crashed else p.exit)
    else p
  }

  lemma ExtendValid(p: Path, n: string, sep: char)
    requires ValidPath(p, sep) && ValidName(n, sep)
    ensures ValidPath(p + [n], sep)
  {
  }

  lemma RootValid(sep: char)
    requires HostSep(sep)
    ensures ValidPath(CacheDir(), sep)
  {
    assert ValidName("var", sep) && ValidName("lib", sep) && ValidName("jenkins", sep);
    assert ValidName("tools", sep) && ValidName("minecraft", sep) && ValidName("cache", sep);
  }

  lemma LwjglValid(sep: char)
    requires HostSep(sep)
    ensures ValidPath(LwjglRequest(sep).file, sep)
  {
    RootValid(sep);
    ParseValid(CacheDir(), "lwjgl_minecraft_1.2.5.zip", sep);
  }

  /** The cache directories are valid paths on either host. */
  lemma CacheValid(sep: char)
    requires HostSep(sep)
    ensures ValidPath(McCacheDir(), sep) && ValidPath(McpCacheDir(), sep)
    ensures ValidPath(ForgeCacheDir(), sep) && ValidPath(McpcCacheDir(), sep)
    ensures ValidPath(CacheDir(), sep)
  {
    RootValid(sep);
    assert ValidName("minecraft", sep) && ValidName("mcp", sep);
    assert ValidName("forge", sep) && ValidName("mcpc-craftbukkit", sep);
    ExtendValid(CacheDir(), "minecraft", sep);
    ExtendValid(CacheDir(), "mcp", sep);
    ExtendValid(CacheDir(), "forge", sep);
    ExtendValid(CacheDir(), "mcpc-craftbukkit", sep);
  }

  /** A `get*` call on the file system. */
  method Getter(fs: FileSystem, req: Request, events: seq<Event>, q: seq<Reply>)
    returns (result: Fetched, events': seq<Event>, rest: seq<Reply>)
    requires fs.Valid() && ValidPath(req.file, fs.sep)
    modifies fs
    ensures fs.Valid()
    ensures (Run(fs.tree, rest, events'), result) == Get(Run(old(fs.tree), q, events), req)
  {
    result, rest := GetRequest(fs, req, true, q);
    events' := events + [Requested(req)];
  }

  /** The prepare phase on the file system: the same calls in the same order
      as the source, each `get*` through `Getter`. */
  method Prepare(fs: FileSystem, cfg: Config, pages: Pages, replies: seq<Reply>)
    returns (exit: Exit, client: bool, server: bool, mcpc: McpcState, events: seq<Event>, rest: seq<Reply>)
    requires fs.Valid() && HostSep(fs.sep)
    modifies fs
    ensures fs.Valid()
    ensures Prepared(Run(fs.tree, rest, events), exit, client, server, mcpc)
      == PrepareSpec(old(fs.tree), cfg, Mcp2Mc, Read(pages), replies, fs.sep)
  {
    CacheValid(fs.sep);
    exit, client, server, mcpc, events, rest := Continue, false, false, Unused, [], replies;
    if !cfg.usemcp {
      exit, mcpc, events, rest := McpcStep(fs, cfg, pages, false, false, events, rest);
      return;
    }
    var mcp;
    ParseValid(McpCacheDir(), cfg.mcpversion + ".zip", fs.sep);
    mcp, events, rest := Getter(fs, McpRequest(cfg.mcpversion, fs.sep), events, rest);
    if mcp != Got {
      exit := Checked(mcp, 1);
      return;
    }
    exit, client, server, events, rest := Resolution(fs, cfg.mcpversion, Mcp2Mc, pages, events, rest);
    if exit != Continue {
      return;
    }
    exit, mcpc, events, rest := Later(fs, cfg, pages, client, server, events, rest);
  }

  /** LWJGL, Forge and MCPC, after a resolution. */
  method Later(fs: FileSystem, cfg: Config, pages: Pages, client: bool, server: bool, events: seq<Event>, q: seq<Reply>)
    returns (exit: Exit, mcpc: McpcState, events': seq<Event>, rest: seq<Reply>)
    requires fs.Valid() && HostSep(fs.sep)
    modifies fs
    ensures fs.Valid()
    ensures Prepared(Run(fs.tree, rest, events'), exit, client, server, mcpc)
      == LaterSpec(Prepared(Run(old(fs.tree), q, events), Continue, client, server, Unused), cfg, Read(pages), fs.sep)
  {
    LwjglValid(fs.sep);
    ghost var p0 := Prepared(Run(fs.tree, q, events), Continue, client, server, Unused);
    exit, mcpc := Continue, Unused;
    var lwjgl;
    lwjgl, events', rest := Getter(fs, LwjglRequest(fs.sep), events, q);
    ghost var p1 := Prepared(Run(fs.tree, rest, events'), Continue, client, server, Unused);
    assert LaterSpec(p0, cfg, Read(pages), fs.sep)
      == if lwjgl != Got then p1.(exit := Checked(lwjgl, 5)) else AfterLwjgl(p1, cfg, Read(pages), fs.sep);
    if lwjgl != Got {
      exit := Checked(lwjgl, 5);
      return;
    }
    exit, mcpc, events', rest := AfterLwjglSteps(fs, cfg, pages, client, server, events', rest);
  }

  /** Forge and MCPC, once LWJGL is in. */
  method AfterLwjglSteps(fs: FileSystem, cfg: Config, pages: Pages, client: bool, server: bool, events: seq<Event>, q: seq<Reply>)
    returns (exit: Exit, mcpc: McpcState, events': seq<Event>, rest: seq<Reply>)
    requires fs.Valid() && HostSep(fs.sep)
    modifies fs
    ensures fs.Valid()
    ensures Prepared(Run(fs.tree, rest, events'), exit, client, server, mcpc)
      == AfterLwjgl(Prepared(Run(old(fs.tree), q, events), Continue, client, server, Unused), cfg, Read(pages), fs.sep)
  {
    mcpc := Unused;
    exit, events', rest := ForgeStep(fs, cfg, pages, client, server, events, q);
    if exit != Continue {
      return;
    }
    exit, mcpc, events', rest := McpcStep(fs, cfg, pages, client, server, events', rest);
  }

  /** getForge when configured. */
  method ForgeStep(fs: FileSystem, cfg: Config, pages: Pages, client: bool, server: bool, events: seq<Event>, q: seq<Reply>)
    returns (exit: Exit, events': seq<Event>, rest: seq<Reply>)
    requires fs.Valid() && HostSep(fs.sep)
    modifies fs
    ensures fs.Valid()
    ensures Prepared(Run(fs.tree, rest, events'), exit, client, server, Unused)
      == ForgeStage(Prepared(Run(old(fs.tree), q, events), Continue, client, server, Unused), cfg, Read(pages), fs.sep)
  {
    exit, events', rest := Continue, events, q;
    if cfg.useforge {
      exit, events', rest := GetForge(fs, cfg.forgeversion, pages, events, q);
    }
  }

  /** getMCPC when configured; a raise in it ends the script. */
  method McpcStep(fs: FileSystem, cfg: Config, pages: Pages, client: bool, server: bool, events: seq<Event>, q: seq<Reply>)
    returns (exit: Exit, mcpc: McpcState, events': seq<Event>, rest: seq<Reply>)
    requires fs.Valid() && HostSep(fs.sep)
    modifies fs
    ensures fs.Valid()
    ensures Prepared(Run(fs.tree, rest, events'), exit, client, server, mcpc)
      == McpcStage(Prepared(Run(old(fs.tree), q, events), Continue, client, server, Unused), cfg, Read(pages), fs.sep)
  {
    exit, mcpc, events', rest := Continue, Unused, events, q;
    if cfg.usemcpc {
      mcpc, events', rest := GetMcpc(fs, cfg.mcpcBuild, pages, events, q);
      if mcpc == Retrieved(Raised) {
        exit := Crashed;
      }
    }
  }

  /** The client and server jars on the file system. */
  method GetJars(fs: FileSystem, cv: string, sv: string, checked: bool, events: seq<Event>, q: seq<Reply>)
    returns (exit: Exit, client: bool, server: bool, events': seq<Event>, rest: seq<Reply>)
    requires fs.Valid() && HostSep(fs.sep)
    modifies fs
    ensures fs.Valid()
    ensures Prepared(Run(fs.tree, rest, events'), exit, client, server, Unused)
      == Jars(Run(old(fs.tree), q, events), cv, sv, checked, fs.sep)
  {
    CacheValid(fs.sep);
    ParseValid(McCacheDir(), ClientName(cv), fs.sep);
    ParseValid(McCacheDir(), ServerName(sv), fs.sep);
    var c, s;
    c, events', rest := Getter(fs, ClientRequest(cv, fs.sep), events, q);
    if c.Raised? {
      return Crashed, false, false, events', rest;
    }
    s, events', rest := Getter(fs, ServerRequest(sv, fs.sep), events', rest);
    client, server := c == Got, s == Got;
    exit := if s.Raised? then Crashed else if checked && !(client && server) then Exited(3) else Continue;
  }

  /** The version resolution of the prepare phase. */
  method Resolution(fs: FileSystem, v: string, table: map<string, string>, pages: Pages, events: seq<Event>, q: seq<Reply>)
    returns (exit: Exit, client: bool, server: bool, events': seq<Event>, rest: seq<Reply>)
    requires fs.Valid() && HostSep(fs.sep)
    modifies fs
    ensures fs.Valid()
    ensures Prepared(Run(fs.tree, rest, events'), exit, client, server, Unused)
      == ResolveSpec(Run(old(fs.tree), q, events), v, table, Read(pages), fs.sep)
  {
    if v in table {
      exit, client, server, events', rest := GetJars(fs, table[v], table[v], false, events, q);
      return;
    }
    events', rest := events + [Consulted(McpWiki)], q;
    var list := McpVersionList(pages.mcpWiki);
    if list.None? {
      return Crashed, false, false, events', rest;
    }
    if v !in list.value {
      return Exited(2), false, false, events', rest;
    }
    exit, client, server, events', rest := GetJars(fs, list.value[v].server, list.value[v].client, true, events', rest);
  }

  method GetForge(fs: FileSystem, build: string, pages: Pages, events: seq<Event>, q: seq<Reply>)
    returns (exit: Exit, events': seq<Event>, rest: seq<Reply>)
    requires fs.Valid() && HostSep(fs.sep)
    modifies fs
    ensures fs.Valid()
    ensures (Run(fs.tree, rest, events'), exit) == ForgeSpec(Run(old(fs.tree), q, events), build, Read(pages), fs.sep)
  {
    CacheValid(fs.sep);
    events', rest := events + [Consulted(ForgeIndex)], q;
    var fvl := ForgeVersionList(pages.forgeIndex);
    if fvl.None? {
      return Crashed, events', rest;
    }
    var source := ForgeRequest(fvl.value, build, fs.sep);
    if source.Unlisted? {
      return Exited(4), events', rest;
    }
    if source.NoSource? {
      return Crashed, events', rest;
    }
    ParseValid(ForgeCacheDir(), ForgeName(fvl.value[build].version), fs.sep);
    var f;
    f, events', rest := Getter(fs, source.req, events', rest);
    exit := Checked(f, 4);
  }

  method GetMcpc(fs: FileSystem, build: string, pages: Pages, events: seq<Event>, q: seq<Reply>)
    returns (mcpc: McpcState, events': seq<Event>, rest: seq<Reply>)
    requires fs.Valid() && HostSep(fs.sep)
    modifies fs
    ensures fs.Valid()
    ensures (Run(fs.tree, rest, events'), mcpc) == McpcSpec(Run(old(fs.tree), q, events), build, Read(pages), fs.sep)
  {
    CacheValid(fs.sep);
    events', rest := events + [Consulted(McpcDownloads)], q;
    var dl := FindMcpc(pages.mcpcDownloads, build);
    if dl.None? {
      return Unmatched, events', rest;
    }
    ParseValid(McpcCacheDir(), dl.value.name, fs.sep);
    var f;
    f, events', rest := Getter(fs, McpcRequest(dl.value, fs.sep), events', rest);
    mcpc := Retrieved(f);
  }

  // ---------------------------------------------------------------------
  // Properties of the prepare phase

  /** `b` continues `a`. */
  predicate Extends<T(==)>(a: seq<T>, b: seq<T>) {
    |a| <= |b| && b[..|a|] == a
  }

  lemma ExtendsAt<T>(a: seq<T>, b: seq<T>, i: int)
    requires Extends(a, b) && 0 <= i < |a|
    ensures b[i] == a[i]
  {
    assert b[..|a|][i] == b[i];
  }

  lemma ExtendsTrans<T>(a: seq<T>, b: seq<T>, c: seq<T>)
    requires Extends(a, b) && Extends(b, c)
    ensures Extends(a, c)
  {
    assert c[..|a|] == c[..|b|][..|a|];
  }

  /** `b` is `a` and one more event `e`. */
  predicate Step(a: seq<Event>, b: seq<Event>, e: Event) {
    Extends(a, b) && |b| == |a| + 1 && b[|a|] == e
  }

  lemma Pair(s: seq<Event>, a: Event, b: Event)
    requires |s| == 2 && s[0] == a && s[1] == b
    ensures s == [a, b]
  {
  }

  /** No wiki lookup among the events from `k` on. */
  predicate NoWikiFrom(s: seq<Event>, k: nat) {
    forall i :: k <= i < |s| ==> s[i] != Consulted(McpWiki)
  }

  lemma NoWikiTrans(a: seq<Event>, b: seq<Event>, k: nat)
    requires Extends(a, b) && k <= |a| && NoWikiFrom(a, k) && NoWikiFrom(b, |a|)
    ensures NoWikiFrom(b, k)
  {
    forall i | k <= i < |a| ensures b[i] != Consulted(McpWiki) {
      ExtendsAt(a, b, i);
    }
  }

  lemma NoWikiNone(s: seq<Event>)
    requires NoWikiFrom(s, 0)
    ensures Consulted(McpWiki) !in s
  {
  }

  /** A fetch appends its request to the events. */
  lemma GetStep(r: Run, req: Request)
    ensures Step(r.events, Get(r, req).0.events, Requested(req))
    ensures NoWikiFrom(Get(r, req).0.events, |r.events|)
    ensures Get(r, req).0.events == r.events + [Requested(req)]
  {
    var e := Get(r, req).0.events;
    assert e[..|r.events|] == r.events;
  }

  /** A page read appends itself to the events. */
  lemma ConsultStep(r: Run, page: Page)
    ensures Step(r.events, Consult(r, page).events, Consulted(page))
    ensures page != McpWiki ==> NoWikiFrom(Consult(r, page).events, |r.events|)
  {
    var e := Consult(r, page).events;
    assert e[..|r.events|] == r.events;
  }

  /** The two jar fetches: the client request first, the server request
      only when the client fetch did not raise; a raise in either ends the
      phase, and otherwise the phase carries on unless the results are
      checked and one of them is `False`, which exits with 3. */
  lemma JarsFacts(r: Run, cv: string, sv: string, checked: bool, sep: char)
    ensures var o := Jars(r, cv, sv, checked, sep);
      var (r1, c) := Get(r, ClientRequest(cv, sep));
      var s := Get(r1, ServerRequest(sv, sep)).1;
      o.mcpc == Unused && Extends(r.events, o.run.events) && NoWikiFrom(o.run.events, |r.events|)
      && |o.run.events| > |r.events| && o.run.events[|r.events|] == Requested(ClientRequest(cv, sep))
      && (c.Raised? ==> |o.run.events| == |r.events| + 1)
      && (!c.Raised? ==> (|o.run.events| == |r.events| + 2
                          && o.run.events[|r.events| + 1] == Requested(ServerRequest(sv, sep))
                          && o.client == (c == Got) && o.server == (s == Got)))
      && (o.exit == Crashed <==> c.Raised? || s.Raised?)
      && (o.exit != Crashed ==> ((o.exit == Continue <==> !checked || (o.client && o.server))
                                 && (o.exit != Continue ==> o.exit == Exited(3))))
  {
    var a := ClientRequest(cv, sep);
    var b := ServerRequest(sv, sep);
    var (r1, c) := Get(r, a);
    GetStep(r, a);
    if !c.Raised? {
      var r2 := Get(r1, b).0;
      GetStep(r1, b);
      ExtendsTrans(r.events, r1.events, r2.events);
      ExtendsAt(r1.events, r2.events, |r.events|);
      NoWikiTrans(r1.events, r2.events, |r.events|);
    }
  }

  /** The static table fetches the two jars of the release's Minecraft
      version and checks neither: the phase carries on unless one of the
      fetches raised. */
  lemma ResolveStatic(r: Run, v: string, table: map<string, string>, lists: Lists, sep: char)
    requires v in table
    ensures var o := ResolveSpec(r, v, table, lists, sep);
      var (r1, c) := Get(r, ClientRequest(table[v], sep));
      var s := Get(r1, ServerRequest(table[v], sep)).1;
      o.mcpc == Unused && Extends(r.events, o.run.events) && NoWikiFrom(o.run.events, |r.events|)
      && |o.run.events| > |r.events| && o.run.events[|r.events|] == Requested(ClientRequest(table[v], sep))
      && (!c.Raised? ==> (|o.run.events| == |r.events| + 2
                          && o.run.events[|r.events| + 1] == Requested(ServerRequest(table[v], sep))))
      && (o.exit == Crashed <==> c.Raised? || s.Raised?)
      && (o.exit != Crashed ==> o.exit == Continue)
  {
    JarsFacts(r, table[v], table[v], false, sep);
  }

  /** The catalogue reads the wiki, swaps the fields and checks both
      jars: a raise ends the phase, otherwise it carries on exactly when
      both jars are in and exits with 3 when not. */
  lemma ResolveCatalog(r: Run, v: string, table: map<string, string>, lists: Lists, sep: char)
    requires v !in table && lists.mcp.Some? && v in lists.mcp.value
    ensures var o := ResolveSpec(r, v, table, lists, sep);
      var rel := lists.mcp.value[v];
      var (r2, c) := Get(Consult(r, McpWiki), ClientRequest(rel.server, sep));
      var s := Get(r2, ServerRequest(rel.client, sep)).1;
      o.mcpc == Unused && Extends(r.events, o.run.events)
      && |o.run.events| > |r.events| + 1 && o.run.events[|r.events|] == Consulted(McpWiki)
      && o.run.events[|r.events| + 1] == Requested(ClientRequest(rel.server, sep))
      && (!c.Raised? ==> (|o.run.events| == |r.events| + 3
                          && o.run.events[|r.events| + 2] == Requested(ServerRequest(rel.client, sep))))
      && (o.exit == Crashed <==> c.Raised? || s.Raised?)
      && (o.exit != Crashed ==> ((o.exit == Continue <==> o.client && o.server)
                                 && (o.exit != Continue ==> o.exit == Exited(3))))
  {
    var rel := lists.mcp.value[v];
    var r1 := Consult(r, McpWiki);
    var o := Jars(r1, rel.server, rel.client, true, sep);
    ConsultStep(r, McpWiki);
    JarsFacts(r1, rel.server, rel.client, true, sep);
    ExtendsTrans(r.events, r1.events, o.run.events);
    ExtendsAt(r1.events, o.run.events, |r.events|);
  }

  /** Without the static table, the wiki is read and a missing catalogue or
      release ends the phase. */
  lemma ResolveMissing(r: Run, v: string, table: map<string, string>, lists: Lists, sep: char)
    requires v !in table && !(lists.mcp.Some? && v in lists.mcp.value)
    ensures var o := ResolveSpec(r, v, table, lists, sep);
      o.mcpc == Unused && Step(r.events, o.run.events, Consulted(McpWiki))
      && o.exit == (if lists.mcp.None? then Crashed else Exited(2))
  {
    ConsultStep(r, McpWiki);
  }

  /** Forge adds its events at the end, the index first, and never reads
      the wiki. */
  lemma ForgeEvents(r: Run, build: string, lists: Lists, sep: char)
    ensures var o := ForgeSpec(r, build, lists, sep).0;
      Extends(r.events, o.events) && |o.events| > |r.events| && o.events[|r.events|] == Consulted(ForgeIndex)
      && NoWikiFrom(o.events, |r.events|)
  {
    var r1 := Consult(r, ForgeIndex);
    ConsultStep(r, ForgeIndex);
    if lists.forge.Some? {
      var src := ForgeRequest(lists.forge.value, build, sep);
      if src.Source? {
        var r2 := Get(r1, src.req).0;
        GetStep(r1, src.req);
        ExtendsTrans(r.events, r1.events, r2.events);
        ExtendsAt(r1.events, r2.events, |r.events|);
        NoWikiTrans(r1.events, r2.events, |r.events|);
      }
    }
  }

  /** Forge carries on exactly when the build has a source and its archive
      is in; it raises when the index cannot be read, the build has no
      source or the fetch raised, and exits with 4 otherwise. */
  lemma ForgeExits(r: Run, build: string, lists: Lists, sep: char)
    ensures var e := ForgeSpec(r, build, lists, sep).1;
      var r1 := Consult(r, ForgeIndex);
      (e == Continue || e == Exited(4) || e == Crashed)
      && (e == Continue <==> (lists.forge.Some? && ForgeRequest(lists.forge.value, build, sep).Source?
                              && Get(r1, ForgeRequest(lists.forge.value, build, sep).req).1 == Got))
      && (e == Crashed <==> (lists.forge.None? || ForgeRequest(lists.forge.value, build, sep).NoSource?
                             || (ForgeRequest(lists.forge.value, build, sep).Source?
                                 && Get(r1, ForgeRequest(lists.forge.value, build, sep).req).1 == Raised)))
  {
  }

  /** Forge, when configured, adds its events at the end and exits with 4,
      raises or carries on; it leaves the rest alone. */
  lemma ForgeStageFacts(p: Prepared, cfg: Config, lists: Lists, sep: char)
    ensures var o := ForgeStage(p, cfg, lists, sep);
      Extends(p.run.events, o.run.events) && NoWikiFrom(o.run.events, |p.run.events|)
      && o.client == p.client && o.server == p.server && o.mcpc == p.mcpc
      && (!cfg.useforge ==> o == p)
      && (cfg.useforge ==> ((o.exit == Continue || o.exit == Exited(4) || o.exit == Crashed)
            && |o.run.events| > |p.run.events| && o.run.events[|p.run.events|] == Consulted(ForgeIndex)))
  {
    if cfg.useforge {
      ForgeEvents(p.run, cfg.forgeversion, lists, sep);
      ForgeExits(p.run, cfg.forgeversion, lists, sep);
    }
  }

  /** MCPC adds its events at the end and leaves the jars alone; it is
      consulted exactly when configured, and a raise while fetching its
      match ends the phase, which is the only change it makes to the exit. */
  lemma McpcStageFacts(p: Prepared, cfg: Config, lists: Lists, sep: char)
    ensures var o := McpcStage(p, cfg, lists, sep);
      Extends(p.run.events, o.run.events) && NoWikiFrom(o.run.events, |p.run.events|)
      && o.client == p.client && o.server == p.server
      && (o.exit != Crashed ==> o.exit == p.exit)
      && (!cfg.usemcpc ==> o == p)
      && (cfg.usemcpc ==> ((o.mcpc == Unmatched <==> FirstMcpc(lists.mcpc, cfg.mcpcBuild).None?) && o.mcpc != Unused
                           && (o.exit == Crashed <==> p.exit == Crashed || o.mcpc == Retrieved(Raised))
                           && (o.mcpc.Retrieved? ==>
                                 Last(o.run.events) == Requested(McpcRequest(FirstMcpc(lists.mcpc, cfg.mcpcBuild).value, sep)))))
  {
    if cfg.usemcpc {
      var r1 := Consult(p.run, McpcDownloads);
      ConsultStep(p.run, McpcDownloads);
      var dl := FirstMcpc(lists.mcpc, cfg.mcpcBuild);
      if dl.Some? {
        var r2 := Get(r1, McpcRequest(dl.value, sep)).0;
        GetStep(r1, McpcRequest(dl.value, sep));
        ExtendsTrans(p.run.events, r1.events, r2.events);
        NoWikiTrans(r1.events, r2.events, |p.run.events|);
      }
    }
  }

  /** What follows a resolution starts with the LWJGL request and never
      reads the wiki. */
  lemma LaterEvents(p: Prepared, cfg: Config, lists: Lists, sep: char)
    ensures var o := LaterSpec(p, cfg, lists, sep);
      Extends(p.run.events, o.run.events)
      && |o.run.events| > |p.run.events| && o.run.events[|p.run.events|] == Requested(LwjglRequest(sep))
      && NoWikiFrom(o.run.events, |p.run.events|)
  {
    var (r2, lwjgl) := Get(p.run, LwjglRequest(sep));
    GetStep(p.run, LwjglRequest(sep));
    if lwjgl == Got {
      var p2 := p.(run := r2);
      var f := ForgeStage(p2, cfg, lists, sep);
      ForgeStageFacts(p2, cfg, lists, sep);
      ExtendsTrans(p.run.events, r2.events, f.run.events);
      ExtendsAt(r2.events, f.run.events, |p.run.events|);
      NoWikiTrans(r2.events, f.run.events, |p.run.events|);
      if f.exit == Continue {
        var o := McpcStage(f, cfg, lists, sep);
        McpcStageFacts(f, cfg, lists, sep);
        ExtendsTrans(p.run.events, f.run.events, o.run.events);
        ExtendsAt(f.run.events, o.run.events, |p.run.events|);
        NoWikiTrans(f.run.events, o.run.events, |p.run.events|);
      }
    }
  }

  /** What follows a resolution leaves the jars alone and ends with 5
      (right after the LWJGL request, which came back `False`), with 4
      (after reading the Forge index), with an exception or not at all; a
      raising LWJGL fetch ends it right after its request. */
  lemma LaterExits(p: Prepared, cfg: Config, lists: Lists, sep: char)
    requires p.exit == Continue
    ensures var o := LaterSpec(p, cfg, lists, sep);
      var lwjgl := Get(p.run, LwjglRequest(sep)).1;
      o.client == p.client && o.server == p.server
      && (o.exit == Continue || o.exit == Exited(5) || o.exit == Exited(4) || o.exit == Crashed)
      && (o.exit == Exited(5) <==> lwjgl == Refused)
      && (lwjgl != Got ==> Step(p.run.events, o.run.events, Requested(LwjglRequest(sep))))
      && (lwjgl == Raised ==> o.exit == Crashed)
      && (o.exit == Exited(4) ==> cfg.useforge && Consulted(ForgeIndex) in o.run.events)
  {
    var (r2, lwjgl) := Get(p.run, LwjglRequest(sep));
    GetStep(p.run, LwjglRequest(sep));
    if lwjgl == Got {
      var p2 := p.(run := r2);
      var f := ForgeStage(p2, cfg, lists, sep);
      ForgeStageFacts(p2, cfg, lists, sep);
      if f.exit == Continue {
        McpcStageFacts(f, cfg, lists, sep);
      } else {
        assert f.run.events[|r2.events|] == Consulted(ForgeIndex);
      }
    }
  }

  /** When the phase gets through what follows a resolution, MCPC was
      consulted exactly when configured, and its fetch did not raise. */
  lemma LaterMcpc(p: Prepared, cfg: Config, lists: Lists, sep: char)
    requires p.exit == Continue
    ensures var o := LaterSpec(p, cfg, lists, sep);
      o.exit == Continue && cfg.usemcpc ==>
        ((o.mcpc == Unmatched <==> FirstMcpc(lists.mcpc, cfg.mcpcBuild).None?) && o.mcpc != Unused
         && o.mcpc != Retrieved(Raised))
  {
    var (r2, lwjgl) := Get(p.run, LwjglRequest(sep));
    if lwjgl == Got {
      var p2 := p.(run := r2);
      var f := ForgeStage(p2, cfg, lists, sep);
      ForgeStageFacts(p2, cfg, lists, sep);
      if f.exit == Continue {
        McpcStageFacts(f, cfg, lists, sep);
      }
    }
  }

  /** The phase with MCP: the archive first, then the resolution, then
      what follows unless the resolution ended the phase. */
  lemma PrepareSteps(t: Tree, cfg: Config, table: map<string, string>, lists: Lists, q: seq<Reply>, sep: char)
    requires cfg.usemcp
    ensures var (r1, mcp) := Get(Run(t, q, []), McpRequest(cfg.mcpversion, sep));
      var res := ResolveSpec(r1, cfg.mcpversion, table, lists, sep);
      Step([], r1.events, Requested(McpRequest(cfg.mcpversion, sep))) && NoWikiFrom(r1.events, 0)
      && PrepareSpec(t, cfg, table, lists, q, sep) ==
        if mcp != Got then Prepared(r1, Checked(mcp, 1), false, false, Unused)
        else if res.exit != Continue then res
        else LaterSpec(res, cfg, lists, sep)
  {
    GetStep(Run(t, q, []), McpRequest(cfg.mcpversion, sep));
  }

  /** An MCP release in the static table never reads the wiki; the client
      jar of its Minecraft version follows the MCP archive when that is in,
      and the server jar follows unless the client fetch raised. */
  lemma StaticResolution(t: Tree, cfg: Config, table: map<string, string>, lists: Lists, q: seq<Reply>, sep: char)
    requires cfg.usemcp && cfg.mcpversion in table
    ensures var p := PrepareSpec(t, cfg, table, lists, q, sep);
      var (r1, mcp) := Get(Run(t, q, []), McpRequest(cfg.mcpversion, sep));
      var c := Get(r1, ClientRequest(table[cfg.mcpversion], sep)).1;
      Consulted(McpWiki) !in p.run.events
      && |p.run.events| >= 1 && p.run.events[0] == Requested(McpRequest(cfg.mcpversion, sep))
      && (mcp != Got ==> |p.run.events| == 1)
      && (mcp == Got ==>
            (|p.run.events| >= 2 && p.run.events[1] == Requested(ClientRequest(table[cfg.mcpversion], sep))))
      && (mcp == Got && !c.Raised? ==>
            (|p.run.events| >= 3 && p.run.events[2] == Requested(ServerRequest(table[cfg.mcpversion], sep))))
  {
    PrepareSteps(t, cfg, table, lists, q, sep);
    var (r1, mcp) := Get(Run(t, q, []), McpRequest(cfg.mcpversion, sep));
    if mcp != Got {
      NoWikiNone(r1.events);
    } else {
      var res := ResolveSpec(r1, cfg.mcpversion, table, lists, sep);
      ResolveStatic(r1, cfg.mcpversion, table, lists, sep);
      NoWikiTrans(r1.events, res.run.events, 0);
      ExtendsAt(r1.events, res.run.events, 0);
      if res.exit != Continue {
        NoWikiNone(res.run.events);
      } else {
        var p := LaterSpec(res, cfg, lists, sep);
        LaterEvents(res, cfg, lists, sep);
        NoWikiTrans(res.run.events, p.run.events, 0);
        NoWikiNone(p.run.events);
        ExtendsAt(res.run.events, p.run.events, 0);
        ExtendsAt(res.run.events, p.run.events, 1);
        ExtendsAt(res.run.events, p.run.events, 2);
      }
    }
  }

  /** A catalogue hit fetches the client jar of the release's "server"
      version and, unless that raised, the server jar of its "client"
      version. */
  lemma CatalogSwap(t: Tree, cfg: Config, table: map<string, string>, lists: Lists, q: seq<Reply>, sep: char)
    requires cfg.usemcp && cfg.mcpversion !in table
    requires lists.mcp.Some? && cfg.mcpversion in lists.mcp.value
    ensures var p := PrepareSpec(t, cfg, table, lists, q, sep);
      var rel := lists.mcp.value[cfg.mcpversion];
      var (r1, mcp) := Get(Run(t, q, []), McpRequest(cfg.mcpversion, sep));
      var c := Get(Consult(r1, McpWiki), ClientRequest(rel.server, sep)).1;
      (mcp == Got ==>
         (|p.run.events| >= 3
          && p.run.events[1] == Consulted(McpWiki)
          && p.run.events[2] == Requested(ClientRequest(rel.server, sep))))
      && (mcp == Got && !c.Raised? ==>
            (|p.run.events| >= 4 && p.run.events[3] == Requested(ServerRequest(rel.client, sep))))
  {
    PrepareSteps(t, cfg, table, lists, q, sep);
    var (r1, mcp) := Get(Run(t, q, []), McpRequest(cfg.mcpversion, sep));
    if mcp == Got {
      var res := ResolveSpec(r1, cfg.mcpversion, table, lists, sep);
      ResolveCatalog(r1, cfg.mcpversion, table, lists, sep);
      if res.exit == Continue {
        var p := LaterSpec(res, cfg, lists, sep);
        LaterEvents(res, cfg, lists, sep);
        ExtendsAt(res.run.events, p.run.events, 1);
        ExtendsAt(res.run.events, p.run.events, 2);
        ExtendsAt(res.run.events, p.run.events, 3);
      }
    }
  }

  /** Exit 2: the release is in neither the table nor the catalogue. The
      phase stops before any Minecraft jar is fetched: it has fetched the
      MCP archive and read the wiki, nothing else. */
  lemma Unresolved(t: Tree, cfg: Config, table: map<string, string>, lists: Lists, q: seq<Reply>, sep: char)
    ensures var p := PrepareSpec(t, cfg, table, lists, q, sep);
      p.exit == Exited(2) <==>
        (cfg.usemcp && Get(Run(t, q, []), McpRequest(cfg.mcpversion, sep)).1 == Got
         && cfg.mcpversion !in table && lists.mcp.Some? && cfg.mcpversion !in lists.mcp.value)
    ensures var p := PrepareSpec(t, cfg, table, lists, q, sep);
      p.exit == Exited(2) ==> p.run.events == [Requested(McpRequest(cfg.mcpversion, sep)), Consulted(McpWiki)]
  {
    if !cfg.usemcp {
      McpcStageFacts(Prepared(Run(t, q, []), Continue, false, false, Unused), cfg, lists, sep);
    } else {
      PrepareSteps(t, cfg, table, lists, q, sep);
      var (r1, mcp) := Get(Run(t, q, []), McpRequest(cfg.mcpversion, sep));
      if mcp == Got {
        var v := cfg.mcpversion;
        var res := ResolveSpec(r1, v, table, lists, sep);
        if v in table {
          ResolveStatic(r1, v, table, lists, sep);
          if res.exit == Continue {
            LaterExits(res, cfg, lists, sep);
          }
        } else if lists.mcp.Some? && v in lists.mcp.value {
          ResolveCatalog(r1, v, table, lists, sep);
          if res.exit == Continue {
            LaterExits(res, cfg, lists, sep);
          }
        } else {
          ResolveMissing(r1, v, table, lists, sep);
          ExtendsAt(r1.events, res.run.events, 0);
          Pair(res.run.events, Requested(McpRequest(v, sep)), Consulted(McpWiki));
        }
      }
    }
  }

  /** Exit 3 only happens on the catalogue path, after both jars were
      tried. */
  lemma ClientServerChecked(t: Tree, cfg: Config, table: map<string, string>, lists: Lists, q: seq<Reply>, sep: char)
    ensures var p := PrepareSpec(t, cfg, table, lists, q, sep);
      p.exit == Exited(3) ==>
        (cfg.mcpversion !in table && |p.run.events| == 4
         && p.run.events[1] == Consulted(McpWiki) && !(p.client && p.server))
  {
    if !cfg.usemcp {
      McpcStageFacts(Prepared(Run(t, q, []), Continue, false, false, Unused), cfg, lists, sep);
    } else {
      PrepareSteps(t, cfg, table, lists, q, sep);
      var (r1, mcp) := Get(Run(t, q, []), McpRequest(cfg.mcpversion, sep));
      if mcp == Got {
        var res := ResolveSpec(r1, cfg.mcpversion, table, lists, sep);
        ResolveThree(r1, cfg.mcpversion, table, lists, sep);
        if res.exit == Continue {
          LaterCodes(res, cfg, lists, sep);
        }
      }
    }
  }

  /** Resolving exits with 3 only on the catalogue path, after the catalogue
      and both jars. */
  lemma ResolveThree(r: Run, v: string, table: map<string, string>, lists: Lists, sep: char)
    ensures var o := ResolveSpec(r, v, table, lists, sep);
      o.exit == Exited(3) ==>
        (v !in table && |o.run.events| == |r.events| + 3
         && o.run.events[|r.events|] == Consulted(McpWiki) && !(o.client && o.server))
  {
    if v !in table && lists.mcp.Some? && v in lists.mcp.value {
      ResolveCatalog(r, v, table, lists, sep);
    }
  }

  /** On the static path a `False` jar fetch goes unnoticed: a phase that
      carries on without both jars took its version from the table. */
  lemma StaticJarsUnchecked(t: Tree, cfg: Config, table: map<string, string>, lists: Lists, q: seq<Reply>, sep: char)
    ensures var p := PrepareSpec(t, cfg, table, lists, q, sep);
      cfg.usemcp && p.exit == Continue && !(p.client && p.server) ==> cfg.mcpversion in table
  {
    if !cfg.usemcp {
      McpcStageFacts(Prepared(Run(t, q, []), Continue, false, false, Unused), cfg, lists, sep);
    } else {
      PrepareSteps(t, cfg, table, lists, q, sep);
      var (r1, mcp) := Get(Run(t, q, []), McpRequest(cfg.mcpversion, sep));
      if mcp == Got {
        var v := cfg.mcpversion;
        var res := ResolveSpec(r1, v, table, lists, sep);
        if v in table {
          ResolveStatic(r1, v, table, lists, sep);
          if res.exit == Continue {
            LaterExits(res, cfg, lists, sep);
          }
        } else if lists.mcp.Some? && v in lists.mcp.value {
          ResolveCatalog(r1, v, table, lists, sep);
          if res.exit == Continue {
            LaterExits(res, cfg, lists, sep);
          }
        } else {
          ResolveMissing(r1, v, table, lists, sep);
        }
      }
    }
  }

  /** On the static path, a phase that is not ended by a crash got past
      both jar fetches without a raise. */
  lemma StaticJarsRaise(t: Tree, cfg: Config, table: map<string, string>, lists: Lists, q: seq<Reply>, sep: char)
    ensures var p := PrepareSpec(t, cfg, table, lists, q, sep);
      var (r1, mcp) := Get(Run(t, q, []), McpRequest(cfg.mcpversion, sep));
      var v := cfg.mcpversion;
      cfg.usemcp && mcp == Got && v in table && p.exit != Crashed ==>
        (!Get(r1, ClientRequest(table[v], sep)).1.Raised?
         && !Get(Get(r1, ClientRequest(table[v], sep)).0, ServerRequest(table[v], sep)).1.Raised?)
  {
    if cfg.usemcp {
      PrepareSteps(t, cfg, table, lists, q, sep);
      var (r1, mcp) := Get(Run(t, q, []), McpRequest(cfg.mcpversion, sep));
      var v := cfg.mcpversion;
      if mcp == Got && v in table {
        var res := ResolveSpec(r1, v, table, lists, sep);
        ResolveStatic(r1, v, table, lists, sep);
        if res.exit == Continue {
          LaterExits(res, cfg, lists, sep);
        }
      }
    }
  }

  /** Each exit code has exactly its cause: 1 the MCP archive coming back
      `False`, 5 LWJGL, 4 Forge; no other code than 1 to 5 leaves the
      phase. */
  lemma PrepareCodes(t: Tree, cfg: Config, table: map<string, string>, lists: Lists, q: seq<Reply>, sep: char)
    ensures var p := PrepareSpec(t, cfg, table, lists, q, sep);
      p.exit.Exited? ==> 1 <= p.exit.code <= 5 && cfg.usemcp
    ensures var p := PrepareSpec(t, cfg, table, lists, q, sep);
      p.exit == Exited(1) <==> cfg.usemcp && Get(Run(t, q, []), McpRequest(cfg.mcpversion, sep)).1 == Refused
    ensures var p := PrepareSpec(t, cfg, table, lists, q, sep);
      p.exit == Exited(5) ==> p.run.events != [] && Last(p.run.events) == Requested(LwjglRequest(sep))
    ensures var p := PrepareSpec(t, cfg, table, lists, q, sep);
      p.exit == Exited(4) ==>
        (cfg.useforge && Consulted(ForgeIndex) in p.run.events && Requested(LwjglRequest(sep)) in p.run.events)
  {
    if !cfg.usemcp {
      McpcStageFacts(Prepared(Run(t, q, []), Continue, false, false, Unused), cfg, lists, sep);
    } else {
      PrepareSteps(t, cfg, table, lists, q, sep);
      var (r1, mcp) := Get(Run(t, q, []), McpRequest(cfg.mcpversion, sep));
      if mcp == Got {
        var res := ResolveSpec(r1, cfg.mcpversion, table, lists, sep);
        ResolveCodes(r1, cfg.mcpversion, table, lists, sep);
        if res.exit == Continue {
          LaterCodes(res, cfg, lists, sep);
        }
      }
    }
  }

  /** Resolving the version exits with 2 or 3 if at all. */
  lemma ResolveCodes(r: Run, v: string, table: map<string, string>, lists: Lists, sep: char)
    ensures var o := ResolveSpec(r, v, table, lists, sep);
      o.exit.Exited? ==> o.exit.code == 2 || o.exit.code == 3
  {
  }

  /** The stages after the jars exit with 5 or 4 if at all, each after its
      own request. */
  lemma LaterCodes(p: Prepared, cfg: Config, lists: Lists, sep: char)
    requires p.exit == Continue
    ensures var o := LaterSpec(p, cfg, lists, sep);
      (o.exit.Exited? ==> o.exit.code == 4 || o.exit.code == 5)
      && (o.exit == Exited(5) ==> o.run.events != [] && Last(o.run.events) == Requested(LwjglRequest(sep)))
      && (o.exit == Exited(4) ==>
            (cfg.useforge && Consulted(ForgeIndex) in o.run.events && Requested(LwjglRequest(sep)) in o.run.events))
  {
    var o := LaterSpec(p, cfg, lists, sep);
    LaterExits(p, cfg, lists, sep);
    LaterEvents(p, cfg, lists, sep);
    assert o.run.events[|p.run.events|] == Requested(LwjglRequest(sep));
  }

  /** A raising MCP fetch ends the phase before anything else; without MCP
      the phase exits with no code, and ends only when the MCPC fetch
      raises. */
  lemma PrepareEarlyEnds(t: Tree, cfg: Config, table: map<string, string>, lists: Lists, q: seq<Reply>, sep: char)
    ensures var p := PrepareSpec(t, cfg, table, lists, q, sep);
      cfg.usemcp && Get(Run(t, q, []), McpRequest(cfg.mcpversion, sep)).1 == Raised ==>
        p.exit == Crashed && p.run.events == [Requested(McpRequest(cfg.mcpversion, sep))]
    ensures var p := PrepareSpec(t, cfg, table, lists, q, sep);
      !cfg.usemcp ==> (!p.exit.Exited? && (p.exit == Crashed <==> p.mcpc == Retrieved(Raised)))
  {
    if !cfg.usemcp {
      McpcStageFacts(Prepared(Run(t, q, []), Continue, false, false, Unused), cfg, lists, sep);
    } else {
      PrepareSteps(t, cfg, table, lists, q, sep);
      var r1 := Get(Run(t, q, []), McpRequest(cfg.mcpversion, sep)).0;
      assert r1.events == [Requested(McpRequest(cfg.mcpversion, sep))];
    }
  }

  /** `main` never checks what getMCPC gave: whenever the phase carries on
      with MCPC configured, the download list was read and the fetch of a
      match did not raise, and a list without a match leaves `mcpc` as None
      with the phase still carrying on (the install phase then hands None
      to `shutil.copy`). */
  lemma McpcUnchecked(t: Tree, cfg: Config, table: map<string, string>, lists: Lists, q: seq<Reply>, sep: char)
    ensures var p := PrepareSpec(t, cfg, table, lists, q, sep);
      p.exit == Continue && cfg.usemcpc ==>
        (p.mcpc != Unused && p.mcpc != Retrieved(Raised) && (p.mcpc == Unmatched <==>
          forall i :: 0 <= i < |lists.mcpc| ==> !McpcJar(lists.mcpc[i].name, cfg.mcpcBuild)))
  {
    FirstMcpcSpec(lists.mcpc, cfg.mcpcBuild);
    if !cfg.usemcp {
      McpcStageFacts(Prepared(Run(t, q, []), Continue, false, false, Unused), cfg, lists, sep);
    } else {
      PrepareSteps(t, cfg, table, lists, q, sep);
      var (r1, mcp) := Get(Run(t, q, []), McpRequest(cfg.mcpversion, sep));
      if mcp == Got {
        var res := ResolveSpec(r1, cfg.mcpversion, table, lists, sep);
        if res.exit == Continue {
          LaterMcpc(res, cfg, lists, sep);
        }
      }
    }
  }

  /** The files of the requests made so far. */
  function Files(events: seq<Event>): set<Path> {
    set e | e in events && e.Requested? :: e.req.file
  }

  /** `u` differs from `t` only at the files in `fs`. */
  ghost predicate Touched(t: Tree, u: Tree, fs: set<Path>) {
    forall p :: p !in fs ==> (p in t <==> p in u) && (p in u ==> t[p] == u[p])
  }

  ghost predicate Follows(t: Tree, r: Run) {
    Touched(t, r.tree, Files(r.events))
  }

  lemma GetFollows(t: Tree, r: Run, req: Request)
    requires Follows(t, r)
    ensures Follows(t, Get(r, req).0)
  {
    FetchOnlyTouchesFn(r.tree, req.file, r.rest, Budget(true));
    assert Files(Get(r, req).0.events) == Files(r.events) + {req.file};
  }

  lemma ConsultFollows(t: Tree, r: Run, page: Page)
    requires Follows(t, r)
    ensures Follows(t, Consult(r, page))
  {
    assert Files(Consult(r, page).events) == Files(r.events);
  }

  lemma JarsFollows(t: Tree, r: Run, cv: string, sv: string, checked: bool, sep: char)
    requires Follows(t, r)
    ensures Follows(t, Jars(r, cv, sv, checked, sep).run)
  {
    GetFollows(t, r, ClientRequest(cv, sep));
    GetFollows(t, Get(r, ClientRequest(cv, sep)).0, ServerRequest(sv, sep));
  }

  lemma ResolveFollows(t: Tree, r: Run, v: string, table: map<string, string>, lists: Lists, sep: char)
    requires Follows(t, r)
    ensures Follows(t, ResolveSpec(r, v, table, lists, sep).run)
  {
    if v in table {
      JarsFollows(t, r, table[v], table[v], false, sep);
    } else {
      var r1 := Consult(r, McpWiki);
      ConsultFollows(t, r, McpWiki);
      if lists.mcp.Some? && v in lists.mcp.value {
        var rel := lists.mcp.value[v];
        JarsFollows(t, r1, rel.server, rel.client, true, sep);
      }
    }
  }

  lemma ForgeFollows(t: Tree, r: Run, build: string, lists: Lists, sep: char)
    requires Follows(t, r)
    ensures Follows(t, ForgeSpec(r, build, lists, sep).0)
  {
    var r1 := Consult(r, ForgeIndex);
    ConsultFollows(t, r, ForgeIndex);
    if lists.forge.Some? {
      var src := ForgeRequest(lists.forge.value, build, sep);
      if src.Source? {
        GetFollows(t, r1, src.req);
      }
    }
  }

  lemma McpcFollows(t: Tree, r: Run, build: string, lists: Lists, sep: char)
    requires Follows(t, r)
    ensures Follows(t, McpcSpec(r, build, lists, sep).0)
  {
    var r1 := Consult(r, McpcDownloads);
    ConsultFollows(t, r, McpcDownloads);
    var dl := FirstMcpc(lists.mcpc, build);
    if dl.Some? {
      GetFollows(t, r1, McpcRequest(dl.value, sep));
    }
  }

  lemma ForgeStageFollows(t: Tree, p: Prepared, cfg: Config, lists: Lists, sep: char)
    requires Follows(t, p.run)
    ensures Follows(t, ForgeStage(p, cfg, lists, sep).run)
  {
    if cfg.useforge {
      ForgeFollows(t, p.run, cfg.forgeversion, lists, sep);
    }
  }

  lemma McpcStageFollows(t: Tree, p: Prepared, cfg: Config, lists: Lists, sep: char)
    requires Follows(t, p.run)
    ensures Follows(t, McpcStage(p, cfg, lists, sep).run)
  {
    if cfg.usemcpc {
      McpcFollows(t, p.run, cfg.mcpcBuild, lists, sep);
    }
  }

  lemma LaterFollows(t: Tree, p: Prepared, cfg: Config, lists: Lists, sep: char)
    requires Follows(t, p.run)
    ensures Follows(t, LaterSpec(p, cfg, lists, sep).run)
  {
    var (r2, lwjgl) := Get(p.run, LwjglRequest(sep));
    GetFollows(t, p.run, LwjglRequest(sep));
    if lwjgl == Got {
      var p2 := p.(run := r2);
      ForgeStageFollows(t, p2, cfg, lists, sep);
      McpcStageFollows(t, ForgeStage(p2, cfg, lists, sep), cfg, lists, sep);
    }
  }

  /** The phase changes the disk only at the files it requested. */
  lemma PrepareTouchesRequested(t: Tree, cfg: Config, table: map<string, string>, lists: Lists, q: seq<Reply>, sep: char)
    ensures var p := PrepareSpec(t, cfg, table, lists, q, sep);
      forall f :: f !in Files(p.run.events) ==> (f in t <==> f in p.run.tree) && (f in t ==> p.run.tree[f] == t[f])
  {
    var r0 := Run(t, q, []);
    assert Follows(t, r0);
    if !cfg.usemcp {
      McpcStageFollows(t, Prepared(r0, Continue, false, false, Unused), cfg, lists, sep);
    } else {
      PrepareSteps(t, cfg, table, lists, q, sep);
      var (r1, mcp) := Get(r0, McpRequest(cfg.mcpversion, sep));
      GetFollows(t, r0, McpRequest(cfg.mcpversion, sep));
      if mcp == Got {
        var res := ResolveSpec(r1, cfg.mcpversion, table, lists, sep);
        ResolveFollows(t, r1, cfg.mcpversion, table, lists, sep);
        if res.exit == Continue {
          LaterFollows(t, res, cfg, lists, sep);
        }
      }
    }
  }

  // ---------------------------------------------------------------------
  // Output names

  /** The entry of `mcmod.info` whose modid is the configured one. */
  datatype ModInfo = ModInfo(modid: string, version: string, mcversion: string)

  /** The Jenkins variables the name is built from, when set. */
  datatype Env = Env(jobName: Option<string>, gitCommit: Option<string>, buildNumber: Option<string>)

  /** mcp_deploy.py:518-532: the mod id, else the job name made flat, else
      nothing. */
  function Prefix(mcmod: Option<ModInfo>, env: Env, sep: char): string {
    if mcmod.Some? then mcmod.value.modid + "-"
    else if env.jobName.Some? then ReplaceChar(UnixPathSep(env.jobName.value, sep), '/', "_") + "-"
    else ""
  }

  /** mcp_deploy.py:519-536: the mod's version and Minecraft version, the
      first ten characters of the commit, the build number, in that order. */
  function Suffix(mcmod: Option<ModInfo>, env: Env): string {
    (if mcmod.Some? then "-" + mcmod.value.version + "-mc" + mcmod.value.mcversion else "")
    + (if env.gitCommit.Some? then "-" + Slice(env.gitCommit.value, 0, 10) else "")
    + (if env.buildNumber.Some? then "-jnks_" + env.buildNumber.value else "")
  }

  datatype Side = Client | Server

  function SideName(side: Side): string {
    match side
    case Client => "Client"
    case Server => "Server"
  }

  /** The file name of a packaged jar (mcp_deploy.py:538-541). */
  function OutputName(mcmod: Option<ModInfo>, env: Env, side: Side, sep: char): string {
    Prefix(mcmod, env, sep) + SideName(side) + Suffix(mcmod, env) + ".jar"
  }

  /** A job name, e.g. "folder/job", adds no separator to the name. */
  lemma JobNameFlat(job: string, env: Env, sep: char)
    requires HostSep(sep) && env.jobName == Some(job)
    ensures '/' !in Prefix(None, env, sep) && sep !in Prefix(None, env, sep)
  {
    var u := UnixPathSep(job, sep);
    var flat := ReplaceChar(u, '/', "_");
    assert '/' !in flat;
    assert sep !in flat by {
      if sep != '/' {
        assert sep !in u;
        forall c | c in flat ensures c != sep {
          assert c in u || c in "_";
        }
      }
    }
    forall c | c in flat + "-" ensures c != sep && c != '/' {
      assert c in flat || c == '-';
    }
  }

  /** The name starts with the mod id when there is a mod, with the side
      when there is neither a mod nor a job, and ends in ".jar". */
  lemma OutputNameStart(mcmod: Option<ModInfo>, env: Env, side: Side, sep: char)
    ensures var n := OutputName(mcmod, env, side, sep);
      EndsWith(n, ".jar")
      && (mcmod.Some? ==> StartsWith(n, mcmod.value.modid + "-"))
      && (mcmod.None? && env.jobName.None? ==> StartsWith(n, SideName(side)))
  {
    var pre, name, suf := Prefix(mcmod, env, sep), SideName(side), Suffix(mcmod, env);
    Affixes(pre + name + suf, ".jar");
    Affixes(pre, name);
    StartsWithAppend(pre + name, pre, suf);
    StartsWithAppend(pre + name + suf, pre, ".jar");
    if mcmod.None? && env.jobName.None? {
      assert pre + name == name;
      StartsWithAppend(name, name, suf);
      StartsWithAppend(name + suf, name, ".jar");
    }
  }

  /** The build number comes last, else the commit; with neither and no mod
      the name is the prefix, the side and ".jar". */
  lemma OutputNameEnd(mcmod: Option<ModInfo>, env: Env, side: Side, sep: char)
    ensures var n := OutputName(mcmod, env, side, sep);
      && (env.buildNumber.Some? ==> EndsWith(n, "-jnks_" + env.buildNumber.value + ".jar"))
      && (env.gitCommit.Some? && env.buildNumber.None? ==> EndsWith(n, "-" + Slice(env.gitCommit.value, 0, 10) + ".jar"))
      && (mcmod.None? && env.gitCommit.None? && env.buildNumber.None? ==> n == Prefix(mcmod, env, sep) + SideName(side) + ".jar")
  {
    var front, suf := Prefix(mcmod, env, sep) + SideName(side), Suffix(mcmod, env);
    var mod := if mcmod.Some? then "-" + mcmod.value.version + "-mc" + mcmod.value.mcversion else "";
    var commit := if env.gitCommit.Some? then "-" + Slice(env.gitCommit.value, 0, 10) else "";
    var build := if env.buildNumber.Some? then "-jnks_" + env.buildNumber.value else "";
    assert suf == mod + commit + build;
    if env.buildNumber.Some? {
      Affixes(mod + commit, build);
      EndsWithPrepend(suf, build, front);
      EndsWithAppend(front + suf, build, ".jar");
    } else if env.gitCommit.Some? {
      assert suf == mod + commit;
      Affixes(mod, commit);
      EndsWithPrepend(suf, commit, front);
      EndsWithAppend(front + suf, commit, ".jar");
    } else if mcmod.None? {
      assert suf == [];
      assert front + suf == front;
    }
  }

  /** The client and the server jar never get the same name. */
  lemma SidesDiffer(mcmod: Option<ModInfo>, env: Env, sep: char)
    ensures OutputName(mcmod, env, Client, sep) != OutputName(mcmod, env, Server, sep)
  {
    var k := |Prefix(mcmod, env, sep)|;
    assert OutputName(mcmod, env, Client, sep)[k] == 'C';
    assert OutputName(mcmod, env, Server, sep)[k] == 'S';
  }

  /** With inputs free of separators the jar is a file directly in the
      output directory. */
  lemma OutputFile(outputdir: Path, mcmod: Option<ModInfo>, env: Env, side: Side, sep: char)
    requires HostSep(sep)
    requires mcmod.Some? ==> Plain(mcmod.value.modid, sep) && Plain(mcmod.value.version, sep) && Plain(mcmod.value.mcversion, sep)
    requires env.gitCommit.Some? ==> Plain(env.gitCommit.value, sep)
    requires env.buildNumber.Some? ==> Plain(env.buildNumber.value, sep)
    ensures Parse(outputdir, OutputName(mcmod, env, side, sep), sep) == outputdir + [OutputName(mcmod, env, side, sep)]
  {
    var n := OutputName(mcmod, env, side, sep);
    var pre, suf := Prefix(mcmod, env, sep), Suffix(mcmod, env);
    assert Plain(pre, sep) by {
      if mcmod.Some? {
        PlainConcat(mcmod.value.modid, "-", sep);
      } else if env.jobName.Some? {
        JobNameFlat(env.jobName.value, env, sep);
      }
    }
    SuffixPlain(mcmod, env, sep);
    PlainConcat(pre, SideName(side), sep);
    PlainConcat(pre + SideName(side), suf, sep);
    PlainConcat(pre + SideName(side) + suf, ".jar", sep);
    ParseName(outputdir, n, sep);
  }

  lemma SuffixPlain(mcmod: Option<ModInfo>, env: Env, sep: char)
    requires HostSep(sep)
    requires mcmod.Some? ==> Plain(mcmod.value.modid, sep) && Plain(mcmod.value.version, sep) && Plain(mcmod.value.mcversion, sep)
    requires env.gitCommit.Some? ==> Plain(env.gitCommit.value, sep)
    requires env.buildNumber.Some? ==> Plain(env.buildNumber.value, sep)
    ensures Plain(Suffix(mcmod, env), sep)
  {
    var mod := if mcmod.Some? then "-" + mcmod.value.version + "-mc" + mcmod.value.mcversion else "";
    var commit := if env.gitCommit.Some? then "-" + Slice(env.gitCommit.value, 0, 10) else "";
    var build := if env.buildNumber.Some? then "-jnks_" + env.buildNumber.value else "";
    if mcmod.Some? {
      PlainConcat("-", mcmod.value.version, sep);
      PlainConcat("-" + mcmod.value.version, "-mc", sep);
      PlainConcat("-" + mcmod.value.version + "-mc", mcmod.value.mcversion, sep);
    }
    if env.gitCommit.Some? {
      SlicePlain(env.gitCommit.value, 0, 10, sep);
      PlainConcat("-", Slice(env.gitCommit.value, 0, 10), sep);
    }
    if env.buildNumber.Some? {
      PlainConcat("-jnks_", env.buildNumber.value, sep);
    }
    PlainConcat(mod, commit, sep);
    PlainConcat(mod + commit, build, sep);
  }

  /** Text without either separator. */
  predicate Plain(s: string, sep: char) {
    sep !in s && '/' !in s
  }

  lemma PlainConcat(a: string, b: string, sep: char)
    requires Plain(a, sep) && Plain(b, sep)
    ensures Plain(a + b, sep)
  {
    forall c | c in a + b ensures c in a || c in b {
    }
  }

  lemma SlicePlain(s: string, a: nat, b: nat, sep: char)
    requires Plain(s, sep)
    ensures Plain(Slice(s, a, b), sep)
  {
    var r := Slice(s, a, b);
    forall c | c in r ensures c in s {
      var i :| 0 <= i < |r| && r[i] == c;
      var lo := if a <= |s| then a else |s|;
      assert r[i] == s[lo + i];
    }
  }
}
