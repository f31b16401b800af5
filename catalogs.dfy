/** The catalogues the script reads from the web, taken as the text or the
    records the server returned: the MCP release history of the Minecraft
    wiki (getMCPVersionList, mcp_deploy.py:272-293), the Forge file index
    (getForgeVersionList, mcp_deploy.py:295-317) and the MCPC download list
    (getMCPC, mcp_deploy.py:258-265). `None` stands for the exception a page
    of an unexpected shape raises. */
module Catalogs {
  import opened Text
  import opened Paths
  import opened Fetch

  // ---------------------------------------------------------------------
  // Forge

  /** One Forge build: its version and, per artefact type ("src",
      "universal", ...), the URL of its archive. */
  datatype ForgeBuild = ForgeBuild(build: string, version: string, urls: map<string, string>)
  type ForgeList = map<string, ForgeBuild>

  /** What a piece of the page between two quotes is: not a link to an
      archive, a link whose file name has fewer than three '-' fields (the
      source indexes the third and raises), or a link. */
  datatype Token = Skip | Crash | Link(kind: string, version: string, url: string)

  predicate IsZipLink(e: string) {
    StartsWith(e, "http") && EndsWith(e, ".zip")
  }

  /** The file name of a link, less its last extension, split on '-'. */
  function NameFields(url: string): seq<string> {
    var parts := Split(Last(Split(url, "/")), ".");
    Split(Join(parts[..|parts| - 1], "."), "-")
  }

  function ParseToken(e: string): (r: Token)
    ensures r.Skip? <==> !IsZipLink(e)
    ensures r.Link? ==> r.url == e
  {
    if !IsZipLink(e) then Skip
    else
      var spl := NameFields(e);
      if |spl| < 3 then Crash else Link(spl[1], spl[2], e)
  }

  /** The build number of a Forge version: its last '.'-field. */
  function BuildKey(version: string): string {
    if '.' in version then Last(Split(version, ".")) else version
  }

  /** The pieces of the page, classified. */
  function Tokens(es: seq<string>): (r: seq<Token>)
    ensures |r| == |es| && forall i :: 0 <= i < |es| ==> r[i] == ParseToken(es[i])
  {
    seq(|es|, i requires 0 <= i < |es| => ParseToken(es[i]))
  }

  /** One pass of the loop: the first link of a build fixes its version, and
      each link sets the URL of its type, replacing an earlier one. */
  function ForgeStep(res: ForgeList, tok: Token): Option<ForgeList> {
    match tok
    case Skip => Some(res)
    case Crash => None
    case Link(kind, version, url) =>
      var b := BuildKey(version);
      var entry := if b in res then res[b] else ForgeBuild(b, version, map[]);
      Some(res[b := entry.(urls := entry.urls[kind := url])])
  }

  function ForgeFold(res: ForgeList, toks: seq<Token>): Option<ForgeList>
    decreases |toks|
  {
    if toks == [] then Some(res)
    else
      match ForgeStep(res, toks[0])
      case None => None
      case Some(next) => ForgeFold(next, toks[1..])
  }

  /** getForgeVersionList on the text of the index page. */
  function ForgeCatalog(data: string): Option<ForgeList> {
    ForgeFold(map[], Tokens(Split(data, "\"")))
  }

  method ForgeVersionList(data: string) returns (r: Option<ForgeList>)
    ensures r == ForgeCatalog(data)
  {
    var elements := Split(data, "\"");
    ghost var toks := Tokens(elements);
    var res: ForgeList := map[];
    var i := 0;
    while i < |elements|
      invariant 0 <= i <= |elements|
      invariant ForgeFold(res, toks[i..]) == ForgeCatalog(data)
    {
      assert toks[i..][0] == toks[i] && toks[i..][1..] == toks[i + 1..];
      var next := AddLink(res, elements[i]);
      if next.None? {
        return None;
      }
      res := next.value;
      i := i + 1;
    }
    assert toks[i..] == [];
    r := Some(res);
  }

  /** The body of the loop in getForgeVersionList. */
  method AddLink(res: ForgeList, element: string) returns (r: Option<ForgeList>)
    ensures r == ForgeStep(res, ParseToken(element))
  {
    if !(StartsWith(element, "http") && EndsWith(element, ".zip")) {
      return Some(res);
    }
    var spl1 := NameFields(element);
    if |spl1| < 3 {
      return None;
    }
    var kind, version := spl1[1], spl1[2];
    assert ParseToken(element) == Link(kind, version, element);
    var build := if '.' in version then Last(Split(version, ".")) else version;
    assert build == BuildKey(version);
    var entry := if build in res then res[build] else ForgeBuild(build, version, map[]);
    r := Some(res[build := entry.(urls := entry.urls[kind := element])]);
  }

  /** Reference definitions, read off the page directly. The version of the
      first link of build `b`: */
  function FirstVersion(toks: seq<Token>, b: string): (r: Option<string>)
    ensures r.Some? ==> BuildKey(r.value) == b
    decreases |toks|
  {
    if toks == [] then None
    else
      match toks[0]
      case Link(_, v, _) => if BuildKey(v) == b then Some(v) else FirstVersion(toks[1..], b)
      case _ => FirstVersion(toks[1..], b)
  }

  /** The last link of build `b` and type `kind`: */
  function LastUrl(toks: seq<Token>, b: string, kind: string): (r: Option<string>)
    ensures r.Some? ==> FirstVersion(toks, b).Some?
    ensures r.Some? ==> exists i :: 0 <= i < |toks| && toks[i].Link? && toks[i].url == r.value
    decreases |toks|
  {
    if toks == [] then None
    else
      var later := LastUrl(toks[1..], b, kind);
      if later.Some? then
        assert exists i :: 0 <= i < |toks| - 1 && toks[1..][i].Link? && toks[1..][i].url == later.value;
        later
      else
        match toks[0]
        case Link(k, v, u) => if BuildKey(v) == b && k == kind then Some(u) else None
        case _ => None
  }

  /** The list is built exactly when no archive link has a short name. */
  lemma {:induction false} ForgeFoldRaises(res: ForgeList, toks: seq<Token>)
    ensures ForgeFold(res, toks).Some? <==> Crash !in toks
    decreases |toks|
  {
    if toks != [] {
      assert toks == [toks[0]] + toks[1..];
      match ForgeStep(res, toks[0])
      case None =>
      case Some(next) => ForgeFoldRaises(next, toks[1..]);
    }
  }

  lemma {:induction false} ForgeFoldBuilds(res: ForgeList, toks: seq<Token>, b: string)
    requires ForgeFold(res, toks).Some?
    ensures var r := ForgeFold(res, toks).value;
      (b in r <==> b in res || FirstVersion(toks, b).Some?)
      && (b in r && b in res ==> r[b].version == res[b].version && r[b].build == res[b].build)
      && (b in r && b !in res ==> r[b].version == FirstVersion(toks, b).value && r[b].build == b)
    decreases |toks|
  {
    if toks != [] {
      var next := ForgeStep(res, toks[0]).value;
      ForgeFoldBuilds(next, toks[1..], b);
    }
  }

  lemma {:induction false} ForgeFoldUrls(res: ForgeList, toks: seq<Token>, b: string, kind: string)
    requires ForgeFold(res, toks).Some?
    ensures var r := ForgeFold(res, toks).value;
      (LastUrl(toks, b, kind).Some? ==> b in r && kind in r[b].urls && r[b].urls[kind] == LastUrl(toks, b, kind).value)
      && (LastUrl(toks, b, kind).None? && b in r && kind in r[b].urls ==>
            b in res && kind in res[b].urls && r[b].urls[kind] == res[b].urls[kind])
      && (b in res && kind in res[b].urls ==> b in r && kind in r[b].urls)
    decreases |toks|
  {
    if toks != [] {
      var next := ForgeStep(res, toks[0]).value;
      ForgeFoldUrls(next, toks[1..], b, kind);
      var tok := toks[0];
      if tok.Link? && BuildKey(tok.version) == b && tok.kind == kind {
        assert b in next && kind in next[b].urls && next[b].urls[kind] == tok.url;
      }
    }
  }

  /** The build number is the last '.'-field of the version. */
  lemma BuildKeyLast(version: string)
    ensures '.' !in BuildKey(version)
    ensures '.' !in version ==> BuildKey(version) == version
    ensures '.' in version ==> EndsWith(version, "." + BuildKey(version))
  {
    if '.' in version {
      var pieces := Split(version, ".");
      var n := |pieces|;
      ContainsChar(pieces[0], '.');
      ContainsChar(pieces[n - 1], '.');
      assert n >= 2;
      JoinEndsWith(pieces, ".");
    }
  }

  /** getForgeVersionList, read off the page: a build is listed exactly when
      some archive link names a version ending in it; its version is that of
      the first such link; its URL of each type is that of the last link of
      that type. */
  lemma ForgeCatalogBuild(data: string, b: string, kind: string)
    requires ForgeCatalog(data).Some?
    ensures var r := ForgeCatalog(data).value; var toks := Tokens(Split(data, "\""));
      (b in r <==> FirstVersion(toks, b).Some?)
      && (b in r ==> r[b].build == b && r[b].version == FirstVersion(toks, b).value && BuildKey(r[b].version) == b)
      && (b in r ==> (kind in r[b].urls <==> LastUrl(toks, b, kind).Some?))
      && (b in r && kind in r[b].urls ==> r[b].urls[kind] == LastUrl(toks, b, kind).value && IsZipLink(r[b].urls[kind]))
  {
    var es := Split(data, "\"");
    var toks := Tokens(es);
    ForgeFoldBuilds(map[], toks, b);
    ForgeFoldUrls(map[], toks, b, kind);
    var u := LastUrl(toks, b, kind);
    if u.Some? {
      var i :| 0 <= i < |toks| && toks[i].Link? && toks[i].url == u.value;
      assert toks[i] == ParseToken(es[i]);
    }
  }

  /** What getForge needs from the list: the build asked for is missing, or
      it has no "src" archive (the source indexes it and raises), or the
      request for that archive. */
  datatype ForgeSource = Unlisted | NoSource | Source(req: Request)

  /** The cache file name of a Forge source archive. */
  function ForgeName(version: string): string {
    "minecraftforge-src-" + version + ".zip"
  }

  function ForgeRequest(fvl: ForgeList, build: string, sep: char): (r: ForgeSource)
    ensures r.Unlisted? <==> build !in fvl
    ensures r.NoSource? <==> build in fvl && "src" !in fvl[build].urls
    ensures r.Source? ==> r.req.url == fvl[build].urls["src"]
  {
    if build !in fvl then Unlisted
    else if "src" !in fvl[build].urls then NoSource
    else Source(Request(fvl[build].urls["src"], Parse(ForgeCacheDir(), ForgeName(fvl[build].version), sep)))
  }

  /** A version without separators gets its own file in the Forge cache. */
  lemma ForgeRequestFile(fvl: ForgeList, build: string, sep: char)
    requires ForgeRequest(fvl, build, sep).Source?
    requires ValidName(ForgeName(fvl[build].version), sep)
    ensures ForgeRequest(fvl, build, sep).req.file == ForgeCacheDir() + [ForgeName(fvl[build].version)]
  {
    ParseName(ForgeCacheDir(), ForgeName(fvl[build].version), sep);
  }

  // ---------------------------------------------------------------------
  // MCP

  datatype McpRelease = McpRelease(version: string, client: string, server: string)
  type McpList = map<string, McpRelease>

  /** The rows of the history table: the text after the heading up to the
      end of the table, split at the row markers, less what precedes the
      first marker. A page without the heading raises. */
  function HistoryRows(data: string): Option<seq<string>> {
    var sections := Split(data, "=== History ===");
    if |sections| < 2 then None
    else Some(Split(Split(sections[1], "|}")[0], "|-\n")[1..])
  }

  /** The cells of a row. */
  function Cells(row: string): seq<string> {
    Split(Strip(row, {'\n', '|'}), "\n|")
  }

  /** The key of a release: "mcp" and the first cell less its first
      character, dots removed. */
  function McpKey(cell: string): (r: string)
    ensures StartsWith(r, "mcp") && '.' !in r
  {
    "mcp" + ReplaceChar(Slice(cell, 1, |cell|), '.', "")
  }

  /** A row with fewer than five cells raises (the description cell is read). */
  function McpRow(row: string): Option<McpRelease> {
    var ld := Cells(row);
    if |ld| < 5 then None else Some(McpRelease(McpKey(ld[0]), ld[2], ld[3]))
  }

  function McpFold(res: McpList, rows: seq<string>): Option<McpList>
    decreases |rows|
  {
    if rows == [] then Some(res)
    else
      match McpRow(rows[0])
      case None => None
      case Some(rel) => McpFold(res[rel.version := rel], rows[1..])
  }

  /** getMCPVersionList on the raw text of the wiki page. */
  function McpCatalog(data: string): Option<McpList> {
    match HistoryRows(data)
    case None => None
    case Some(rows) => McpFold(map[], rows)
  }

  method McpVersionList(data: string) returns (r: Option<McpList>)
    ensures r == McpCatalog(data)
  {
    var sections := Split(data, "=== History ===");
    if |sections| < 2 {
      return None;
    }
    var l := Split(Split(sections[1], "|}")[0], "|-\n")[1..];
    var res: McpList := map[];
    var i := 0;
    while i < |l|
      invariant 0 <= i <= |l|
      invariant McpFold(res, l[i..]) == McpCatalog(data)
    {
      assert l[i..][0] == l[i] && l[i..][1..] == l[i + 1..];
      var ld := Split(Strip(l[i], {'\n', '|'}), "\n|");
      if |ld| < 5 {
        return None;
      }
      var mcpversion := "mcp" + ReplaceChar(Slice(ld[0], 1, |ld[0]|), '.', "");
      res := res[mcpversion := McpRelease(mcpversion, ld[2], ld[3])];
      i := i + 1;
    }
    assert l[i..] == [];
    r := Some(res);
  }

  /** Reference definition: the release of the last row with key `key`. */
  function LastRow(rows: seq<string>, key: string): (r: Option<McpRelease>)
    ensures r.Some? ==> r.value.version == key
    decreases |rows|
  {
    if rows == [] then None
    else
      var later := LastRow(rows[1..], key);
      if later.Some? then later
      else
        match McpRow(rows[0])
        case Some(rel) => if rel.version == key then Some(rel) else None
        case None => None
  }

  predicate Complete(rows: seq<string>) {
    forall i :: 0 <= i < |rows| ==> McpRow(rows[i]).Some?
  }

  lemma McpFoldRaises(res: McpList, rows: seq<string>)
    ensures McpFold(res, rows).Some? <==> Complete(rows)
  {
    if Complete(rows) {
      McpFoldComplete(res, rows);
    }
    if McpFold(res, rows).Some? {
      McpFoldSomeComplete(res, rows);
    }
  }

  lemma {:induction false} McpFoldComplete(res: McpList, rows: seq<string>)
    requires Complete(rows)
    ensures McpFold(res, rows).Some?
    decreases |rows|
  {
    if rows != [] {
      assert McpRow(rows[0]).Some?;
      var rel := McpRow(rows[0]).value;
      var tail := rows[1..];
      assert Complete(tail) by {
        forall i | 0 <= i < |tail| ensures McpRow(tail[i]).Some? {
          assert tail[i] == rows[i + 1];
        }
      }
      McpFoldComplete(res[rel.version := rel], tail);
    }
  }

  lemma {:induction false} McpFoldSomeComplete(res: McpList, rows: seq<string>)
    requires McpFold(res, rows).Some?
    ensures Complete(rows)
    decreases |rows|
  {
    if rows != [] {
      var first := McpRow(rows[0]);
      assert first.Some?;
      var tail := rows[1..];
      McpFoldSomeComplete(res[first.value.version := first.value], tail);
      forall i | 0 <= i < |rows| ensures McpRow(rows[i]).Some? {
        if i > 0 {
          assert rows[i] == tail[i - 1];
        }
      }
    }
  }

  lemma {:induction false} McpFoldRows(res: McpList, rows: seq<string>, key: string)
    requires McpFold(res, rows).Some?
    ensures var r := McpFold(res, rows).value;
      (LastRow(rows, key).Some? ==> key in r && r[key] == LastRow(rows, key).value)
      && (LastRow(rows, key).None? ==> (key in r <==> key in res) && (key in r ==> r[key] == res[key]))
    decreases |rows|
  {
    if rows != [] {
      var rel := McpRow(rows[0]).value;
      McpFoldRows(res[rel.version := rel], rows[1..], key);
    }
  }

  /** getMCPVersionList, read off the page: the list is built exactly when the
      page has the heading and every row has five cells; a release is listed
      exactly when some row names it, with the versions of the last such row;
      every key is "mcp" and digits free of dots, and names its own release. */
  lemma McpCatalogRows(data: string, key: string)
    ensures McpCatalog(data).Some? <==> HistoryRows(data).Some? && Complete(HistoryRows(data).value)
    ensures McpCatalog(data).Some? ==>
      var r := McpCatalog(data).value; var rows := HistoryRows(data).value;
      (key in r <==> LastRow(rows, key).Some?)
      && (key in r ==> r[key] == LastRow(rows, key).value && r[key].version == key && StartsWith(key, "mcp") && '.' !in key)
  {
    if HistoryRows(data).Some? {
      var rows := HistoryRows(data).value;
      McpFoldRaises(map[], rows);
      if McpFold(map[], rows).Some? {
        McpFoldRows(map[], rows, key);
        if LastRow(rows, key).Some? {
          LastRowKey(rows, key);
        }
      }
    }
  }

  /** A row found by key was read from a row whose first cell gives that key. */
  lemma {:induction false} LastRowKey(rows: seq<string>, key: string)
    requires LastRow(rows, key).Some?
    ensures StartsWith(key, "mcp") && '.' !in key
    decreases |rows|
  {
    if LastRow(rows[1..], key).Some? {
      LastRowKey(rows[1..], key);
    } else {
      var ld := Cells(rows[0]);
      assert key == McpKey(ld[0]);
    }
  }

  // ---------------------------------------------------------------------
  // MCPC

  /** An entry of the MCPC download list: its file name and its URL. */
  datatype Download = Download(name: string, url: string)

  /** A CraftBukkit jar whose last '-'-field, up to its first '.', is the
      build asked for. */
  predicate McpcJar(name: string, build: string) {
    StartsWith(name, "craftbukkit-") && EndsWith(name, ".jar")
    && Split(Last(Split(name, "-")), ".")[0] == build
  }

  /** getMCPC's choice: the first matching download, or none (the source
      then falls off the end and returns None). */
  function FirstMcpc(dls: seq<Download>, build: string): Option<Download>
    decreases |dls|
  {
    if dls == [] then None
    else if McpcJar(dls[0].name, build) then Some(dls[0])
    else FirstMcpc(dls[1..], build)
  }

  /** The loop of getMCPC, returning as soon as a download matches. */
  method FindMcpc(dls: seq<Download>, build: string) returns (r: Option<Download>)
    ensures r == FirstMcpc(dls, build)
  {
    var i := 0;
    while i < |dls|
      invariant 0 <= i <= |dls|
      invariant FirstMcpc(dls[i..], build) == FirstMcpc(dls, build)
    {
      assert dls[i..][0] == dls[i] && dls[i..][1..] == dls[i + 1..];
      var name := dls[i].name;
      if StartsWith(name, "craftbukkit-") && EndsWith(name, ".jar") {
        if Split(Last(Split(name, "-")), ".")[0] == build {
          return Some(dls[i]);
        }
      }
      i := i + 1;
    }
    return None;
  }

  /** The choice is the first match: none when nothing matches, otherwise a
      matching download that no earlier one matches before. */
  lemma {:induction false} FirstMcpcSpec(dls: seq<Download>, build: string)
    ensures FirstMcpc(dls, build).None? <==> forall i :: 0 <= i < |dls| ==> !McpcJar(dls[i].name, build)
    ensures FirstMcpc(dls, build).Some? ==> exists i :: (0 <= i < |dls| && dls[i] == FirstMcpc(dls, build).value
      && McpcJar(dls[i].name, build) && forall j :: 0 <= j < i ==> !McpcJar(dls[j].name, build))
    decreases |dls|
  {
    if dls != [] {
      FirstMcpcSpec(dls[1..], build);
      assert forall i :: 1 <= i < |dls| ==> dls[1..][i - 1] == dls[i];
      if !McpcJar(dls[0].name, build) && FirstMcpc(dls, build).Some? {
        var i :| 0 <= i < |dls| - 1 && dls[1..][i] == FirstMcpc(dls, build).value
          && McpcJar(dls[1..][i].name, build) && forall j :: 0 <= j < i ==> !McpcJar(dls[1..][j].name, build);
        assert forall j :: 0 <= j < i + 1 ==> !McpcJar(dls[j].name, build) by {
          forall j | 0 <= j < i + 1 ensures !McpcJar(dls[j].name, build) {
            if j > 0 { assert dls[j] == dls[1..][j - 1]; }
          }
        }
      }
    }
  }

  /** The request getMCPC hands to getZipOrDownload for a download. */
  function McpcRequest(dl: Download, sep: char): Request {
    Request(dl.url, Parse(McpcCacheDir(), dl.name, sep))
  }

  /** A download name without separators is one file of the MCPC cache. */
  lemma McpcRequestFile(dl: Download, sep: char)
    requires ValidName(dl.name, sep)
    ensures McpcRequest(dl, sep).file == McpcCacheDir() + [dl.name]
  {
    ParseName(McpcCacheDir(), dl.name, sep);
  }
}
