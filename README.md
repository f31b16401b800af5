# mcp_deploy in Dafny

`mcp_deploy.py` is a Jenkins build script for Minecraft mods. In its
prepare phase it fetches these archives into a download cache, checks each
one and fetches it again when it is damaged:

- the Minecraft Coder Pack (MCP) release;
- the Minecraft client and server jars of the matching Minecraft version;
- LWJGL;
- optionally the Forge sources and an MCPC (CraftBukkit) jar.

The phase stops with a distinct exit code at the first thing it cannot
get. The install and compile phases then do three things:

- they unpack archives into the workspace (`extract`);
- they copy source trees (`copydir`);
- they package the reobfuscated classes into
  `<prefix>Client<suffix>.jar` and `<prefix>Server<suffix>.jar`
  (`zipfolders` over `listdir_r`).

This project models those decisions and the data they work on:

- **Modules.** One per concern:
  - `Text`: the Python string operations used;
  - `Paths`: path strings, `stripstartpath`, `unixpathsep`;
  - `Order`: Python's string order and `sort`;
  - `Disk`: the file system as a class over a map from paths to nodes;
  - `Fetch`: `download`, `getZipOrDownload` and the `get*` wrappers;
  - `Extract`: `extract`;
  - `Walk`: `listdir_r`, `copydir`, `zipfolders`;
  - `Catalogs`: the Forge, MCP and MCPC catalogues;
  - `Versions`: the static version tables;
  - `Deploy`: `main`'s start, its prepare phase, and the output names.
- **Operations that change the file system** are methods on
  `Disk.FileSystem`. Each is proved against a function of the old tree
  (`ExtractSpec`, `FetchAt`, `ZipSpec`, `PrepareSpec`, ...), and the
  properties are lemmas about those functions.
- **Loops that build a value** are methods with loop invariants, proved
  equal to a recursive reference definition. These are the catalogue
  parsers, `getMCPC`'s search, and the stages of `listdir_r`.
- **The network** is a queue of replies. Each `urlretrieve` takes one
  reply. The reply is one of three kinds:
  - a body, which is written to the cache file;
  - a transfer that breaks off, which leaves the part it wrote and raises;
  - a failure that raises before any file is created.
- **The catalogue pages** are given as the text (or records) the server
  returned.
- **A zip archive** is a file whose payload is a list of members. Each
  member has a name, data, and a flag that says whether its checksum
  matches. `testzip` reports the first member whose checksum fails.
- **An exception** is a `None`, an `ok == false`, a `Raised` result or a
  `Crashed` exit, depending on the layer.
- **`getZipOrDownload`** is three mutually recursive functions:
  - `FetchAt` is the function body;
  - `CheckAt` is the `try` block;
  - `ExceptAt` is the bare `except`.

  A retry inside the `try` that raises therefore lands in the `except` of
  the same call, as in Python.
- **The reattempt budget.** Every `get*` wrapper passes its `verbose`
  argument positionally into the `reattempt` slot, and `main` always
  passes `verbose=True`. So the budget is `Budget(true) == 1`.
- **The version table.** The prepare-phase lemmas hold for any static
  table. `Deploy.Prepare` itself uses `Versions.Mcp2Mc`, the script's
  `mcp2mcversion`.

## Model

| member | source | states |
|---|---|---|
| Text.Find | mcp_deploy.py:104 | the index of the first occurrence of the pattern, or none exactly when it does not occur |
| Text.Split | mcp_deploy.py:275 | `str.split` with a non-empty separator: at least one piece, the pieces joined give the input back, no piece contains the separator |
| Text.SplitFirst | mcp_deploy.py:275 | `split` scans from the left: each piece but the last ends where the first occurrence of the separator in the rest of the string begins |
| Text.SplitJoin | mcp_deploy.py:298 | splitting a join on a one-character separator that no piece contains gives the pieces back |
| Text.ReplaceChar | mcp_deploy.py:107 | `str.replace` of a character: the replaced character is gone unless the replacement holds it; no other characters appear; one-character replacements keep the length |
| Text.ReplaceJoin | mcp_deploy.py:107 | replacing the separator of a join is joining with the new separator |
| Text.StripLeft | mcp_deploy.py:277 | the result is a suffix of the input that does not start with a stripped character, and every character removed before it is a stripped one |
| Text.StripRight | mcp_deploy.py:277 | the result is a prefix of the input that does not end with a stripped character, and every character removed after it is a stripped one |
| Text.Slice | mcp_deploy.py:534 | a Python slice is never longer than the string |
| Text.SliceClamps | mcp_deploy.py:534 | within bounds `s[a:b]` is the characters from `a` to `b`; a stop past the end is cut at the end; a start at or past the stop, or past the end, gives the empty string |
| Paths.UnixPathSep | mcp_deploy.py:106-107 | same length; on a host whose separator is not '/', the separator no longer occurs; only '/' is added |
| Paths.UnixPathSepIdempotent | mcp_deploy.py:106-107 | applying unixpathsep twice is applying it once; on a '/' host it changes nothing |
| Paths.ParseUnix | mcp_deploy.py:106-107 | a path with '/' for the separator names the same entry as before |
| Paths.StripStartPath | mcp_deploy.py:103-104 | stripstartpath as written: it raises exactly when `start` is empty or absent; otherwise the result is shorter than the input |
| Paths.StripRoundTrip | mcp_deploy.py:103-104 | `stripstartpath(s + c + r, s) == r` for a non-empty `s` |
| Paths.StripStart | mcp_deploy.py:103-104 | the corrected strip raises in the same cases as the original |
| Paths.StripAgrees | mcp_deploy.py:103-104 | when `start` does not end in the separator, the corrected strip and the original agree |
| Paths.StripStartRendered | mcp_deploy.py:103-104 | stripping a directory's printed path from the printed path of an entry below it gives the entry's relative path, also at the file-system root |
| Paths.StripStartPathAtRoot | mcp_deploy.py:103-104 | at the root "/", the original drops the first character of the relative path ("/ab" gives "b"); the corrected strip gives "ab" |
| Paths.ParseRender | mcp_deploy.py:110-111 | an absolute path printed by `abspath` resolves back to itself |
| Paths.ParseRel | mcp_deploy.py:120 | a relative path joined to a base resolves to the base followed by its names; a trailing separator changes nothing; its directory part is the base followed by the parent |
| Paths.ParseValid | mcp_deploy.py:168 | resolving any string against a valid path gives a valid path, and so does its directory part |
| Paths.ParseConfined | mcp_deploy.py:174-175 | a relative name without ".." resolves within the base directory, and so does its directory part |
| Paths.FieldsOfJoin | mcp_deploy.py:196 | for names without separators: the printed relative path with '/' is the names joined by '/', and it splits back into the names |
| Order.BelowTotal | mcp_deploy.py:160 | Python's string order is total |
| Order.BelowAntisymmetric | mcp_deploy.py:160 | two strings each at most the other are equal |
| Order.BelowTransitive | mcp_deploy.py:160 | Python's string order is transitive |
| Order.Sort | mcp_deploy.py:160 | `list.sort()` returns a sorted permutation |
| Order.SortBy | mcp_deploy.py:192 | sorting by a key gives a sorted permutation |
| Order.SortedUnique | mcp_deploy.py:160 | two sorted permutations of the same strings are equal, so the sort's result is determined |
| Disk.Mkdirs | mcp_deploy.py:94-100 | on success the path exists, a missing path becomes a directory, every old entry keeps its node, and each new entry is a directory that is a prefix of the path |
| Disk.MkdirsFails | mcp_deploy.py:94-100 | mkdir_p raises exactly when the path is missing and one of its ancestors is a file |
| Disk.MkdirsWellFormed | mcp_deploy.py:94-100 | mkdir_p keeps every entry inside a directory |
| Disk.Write | mcp_deploy.py:178-181 | `open(.., "w+b")` succeeds exactly when the parent is a directory and the target is not one; it then stores the data |
| Disk.Remove | mcp_deploy.py:219 | `os.remove` succeeds exactly on a file and removes just that entry |
| Disk.CopyFile | mcp_deploy.py:129 | `shutil.copyfile` copies a file's data to a writable target other than itself, and raises otherwise |
| Disk.FileSystem.MakeDirs | mcp_deploy.py:94-100 | the tree becomes that of mkdir_p, or is unchanged when it raises |
| Disk.FileSystem.WriteFile | mcp_deploy.py:178-181 | the tree becomes that of the write, or is unchanged when it raises |
| Disk.FileSystem.RemoveFile | mcp_deploy.py:219 | the tree becomes that of `os.remove`, or is unchanged when it raises |
| Disk.FileSystem.Copy | mcp_deploy.py:129 | the tree becomes that of `shutil.copyfile`, or is unchanged when it raises |
| Fetch.TestZip | mcp_deploy.py:214 | no name exactly when every member checks out |
| Fetch.TestZipFirst | mcp_deploy.py:214 | a reported name is that of the first member that fails, every member before it checking out |
| Fetch.Inspect | mcp_deploy.py:213-216 | intact means a zip whose members all check out; a damaged zip is a file; "not a zip" means missing, a directory or not a zip |
| Fetch.Download | mcp_deploy.py:199-205 | an existing output is left alone and no reply is used; otherwise the next reply is used, and an empty queue raises; on success the output exists; a failure leaves the tree unchanged, except that a transfer that breaks off leaves the part it wrote at the output; nothing but the output changes |
| Fetch.DownloadWrites | mcp_deploy.py:199-205 | a served body is written to the output: into a missing output, the download succeeds exactly when the reply is a body and the output can be written, and then the output holds that body and one reply is used |
| Fetch.Budget | mcp_deploy.py:237 | the positional `verbose` gives a budget of 1 when true and 0 when false |
| Fetch.GetZipOrDownload | mcp_deploy.py:207-232 | the method's tree, leftover replies and result are those of the recursive definition `FetchAt` |
| Fetch.Retrieve | mcp_deploy.py:199-203 | `urlretrieve` into a missing output behaves as `Download` |
| Fetch.CheckZip | mcp_deploy.py:212-223 | the `try` block behaves as `CheckAt` |
| Fetch.Recover | mcp_deploy.py:224-231 | the `except` block behaves as `ExceptAt` |
| Fetch.FetchGotIntact | mcp_deploy.py:212-232 | `fn` is returned only when the final file is a zip whose testzip found nothing |
| Fetch.FetchCacheHit | mcp_deploy.py:209-216 | an intact cached file is returned without using the network or changing the disk |
| Fetch.FetchOnlyTouchesFn | mcp_deploy.py:207-232 | no entry other than `fn` is ever written or removed |
| Fetch.FetchRaisedLeaves | mcp_deploy.py:199-232 | when `fn` is not a directory, a fetch that raises leaves at `fn` either nothing or the part that the last reply it used, a transfer that broke off, wrote |
| Fetch.FetchRaisedLeavesNoFile | mcp_deploy.py:219-228 | when `fn` is not a directory and no transfer breaks off, a fetch that raises leaves no file at `fn` |
| Fetch.MaxDownloads | mcp_deploy.py:207-232 | the download bound of a budget is at least the budget plus one |
| Fetch.FetchDownloadsBounded | mcp_deploy.py:207-232 | at most `MaxDownloads(reattempt)` downloads happen (1, 3, 7, ...: each retry inside the `try` that raises can be followed by one from the `except`), and the leftover replies are a suffix of the queue |
| Fetch.ThreeDownloads | mcp_deploy.py:216-231 | with a budget of 1, a damaged first copy, a retry that breaks off and a good third copy use three downloads, and the fetch returns the file |
| Fetch.FetchDownloadsWhole | mcp_deploy.py:207-232 | when no transfer breaks off, at most `reattempt + 1` downloads happen: a retry that raised left nothing to remove, so the `except` raises instead of retrying |
| Fetch.FetchRefusedNotIntact | mcp_deploy.py:216-231 | `False` means the file exists and was last found damaged or not a zip |
| Fetch.FetchSpendsBudget | mcp_deploy.py:216-231 | when the server keeps sending bad files, the result is `False` after exactly `reattempt` re-downloads, plus one first download if the file was not cached |
| Fetch.CacheFilesDistinct | mcp_deploy.py:234-241 | the client and server jars of a version get different cache files, and different versions of the same jar never share one |
| Fetch.JarNameFile | mcp_deploy.py:235-240 | a jar name built from a version without separators is one entry of the Minecraft cache |
| Fetch.GetRequest | mcp_deploy.py:234-247 | a `get*` wrapper is `getZipOrDownload` of its file with the budget `verbose` buys |
| Extract.ReadMember | mcp_deploy.py:179 | `zip.read` returns the data of a sound member with that name, and raises when no member has it |
| Extract.ReadMemberLast | mcp_deploy.py:179 | the last member stored under a name decides: `zip.read` returns its data when its checksum matches and raises otherwise, whatever earlier members of that name hold |
| Extract.Extract | mcp_deploy.py:164-188 | the method's tree and outcome are those of `ExtractSpec`; something that is not an archive raises |
| Extract.ExtractMembers | mcp_deploy.py:166-187 | the loop over the members, stopping at the first exception, behaves as `ExtractAll` |
| Extract.ExtractMember | mcp_deploy.py:167-187 | one iteration behaves as `ExtractEntry` |
| Extract.ExtractDirEntry | mcp_deploy.py:167-169 | an entry ending in '/' only creates directories: its path exists afterwards and nothing that existed changes |
| Extract.ExtractFileEntry | mcp_deploy.py:173-181 | afterwards the file's directory exists; the file holds the member's data when `overwrite` is on or it did not exist before |
| Extract.ExtractKeepsExisting | mcp_deploy.py:177 | with `overwrite` off, an existing target leaves the tree unchanged |
| Extract.ExtractConfined | mcp_deploy.py:164-188 | with relative member names that never go up, nothing outside the target directory changes, apart from creating its missing ancestors |
| Extract.UpwardNameEscapes | mcp_deploy.py:174 | a member named "../x" extracted into /srv lands in /x: names are not sanitised |
| Walk.ListDirR | mcp_deploy.py:131-162 | listdir_r fails exactly when the start is not a directory; otherwise its result is sorted and lists every entry below the start once (directories with a trailing separator, optionally relative and with '/') |
| Walk.Collect | mcp_deploy.py:132-148 | the walk with its explicit stack meets every entry below the root exactly once, and prints each as `abspath` does, a directory with a trailing separator |
| Walk.ListEntries | mcp_deploy.py:139-145 | one `os.listdir` pass keeps the walk invariant and records each entry with its printed form |
| Walk.FrontierDone | mcp_deploy.py:137 | once the stack is empty, every entry below the root has been listed |
| Walk.ExpandStart | mcp_deploy.py:138 | the popped directory lies below the start and has not been popped before; its entries become the ones to visit |
| Walk.ExpandStep | mcp_deploy.py:140-145 | meeting an entry keeps the walk invariant; a directory is pushed |
| Walk.StripEntries | mcp_deploy.py:150-154 | each entry is replaced by the text after the start path |
| Walk.StripLabel | mcp_deploy.py:153 | stripping the start's printed path from an absolute entry gives its relative form |
| Walk.UnixEntries | mcp_deploy.py:155-159 | each entry gets '/' for the separator |
| Walk.ShownParses | mcp_deploy.py:140-158 | every listed string resolves back to the entry it names (relative to the start when stripped) |
| Walk.ShownInjective | mcp_deploy.py:140-158 | different entries are listed as different strings |
| Walk.ShownDirs | mcp_deploy.py:141-145 | a listed string ends in the separator ('/' after unixpathsep) exactly when it names a directory |
| Walk.ListedOnce | mcp_deploy.py:147-159 | the list holds each entry's printed form exactly once |
| Walk.ListingUnique | mcp_deploy.py:160 | listdir_r's result is determined by the tree, whatever order `os.listdir` uses |
| Walk.CopyDir | mcp_deploy.py:109-129 | nothing outside `dst` changes apart from creating its ancestors; `src` is untouched; every entry that is new or changed is a directory on the way to `dst/<name of src>` or the copy of an entry of `src` (the same data for a file, a directory for a directory) (`Walk.CopyOnly`); on success every entry of `src` has a copy at `dst/<name of src>/...`; and when `src` and `dst/<name of src>` are directories and no entry of `src` has a copy yet, the copy succeeds (`Walk.Clear`) |
| Walk.StartOnly | mcp_deploy.py:111-112 | `mkdir_p(dst)` creates only directories on the way to the copy root |
| Walk.MkdirsOnly | mcp_deploy.py:120-123 | `mkdir_p` of the copy of a directory creates only the copy and directories on the way to it |
| Walk.CopyFileOnly | mcp_deploy.py:125-128 | `copyfile` of an entry writes only its copy, with the entry's data |
| Walk.MkdirsClear | mcp_deploy.py:120-123 | in the clear case `mkdir_p` of the copy of a directory cannot fail: no ancestor of the copy is a file |
| Walk.CopyClear | mcp_deploy.py:125-128 | in the clear case `copyfile` of an entry succeeds once its parent was listed (or is `src`): the parent's copy is a directory and the copy itself is missing |
| Walk.CopyRootMissing | mcp_deploy.py:111-128 | when `dst/<name of src>` is missing, `copyfile` of a file directly inside `src` fails, because copydir creates only `dst` |
| Walk.CopyTree | mcp_deploy.py:114-129 | the stack loop of copydir keeps these guarantees and completes them when the stack is empty |
| Walk.CopyNext | mcp_deploy.py:117-129 | one pop keeps the invariant and shrinks the set of directories left |
| Walk.CopyEntries | mcp_deploy.py:118-129 | one `os.listdir` pass copies each entry and pushes each directory |
| Walk.CopyEntry | mcp_deploy.py:119-129 | a directory becomes mkdir_p of its target and a file a copyfile to it; nothing else changes |
| Walk.CopyNests | mcp_deploy.py:114-125 | with a destination inside the source, the target of every path inside the source is a deeper path, again inside the source |
| Walk.Recopy | mcp_deploy.py:114-125 | with a destination inside the source, copying the copy `n` times gives a directory inside the source at least `n` names deeper |
| Walk.TargetPath | mcp_deploy.py:115-120 | joining `dst` with the entry stripped of `dirname(src)` names `dst`, then the last name of `src`, then the entry's path below `src` |
| Walk.TargetInjective | mcp_deploy.py:120 | different entries are copied to different targets |
| Walk.StartCopy | mcp_deploy.py:112-113 | creating a missing `dst` starts the copy with its invariant |
| Walk.ArcNameFacts | mcp_deploy.py:196 | the member name exists exactly when the strip succeeds, and holds no host separator other than '/' |
| Walk.ArcNameAsWritten | mcp_deploy.py:196 | the name as written exists exactly when the corrected one does, and equals it for every folder that does not end in the separator |
| Walk.ArcNameDropsAfterSep | mcp_deploy.py:196 | with the folder "/w/res/", the original names the entry "/w/res/a.txt" ".txt"; the corrected name is "a.txt" |
| Walk.ArcNameTrailingSep | mcp_deploy.py:196 | for a folder that ends in the separator, the corrected name of an entry is all the text after the folder |
| Walk.RootMembers | mcp_deploy.py:194-196 | a folder gives one member per listed path |
| Walk.RootMembersMeaning | mcp_deploy.py:194-196 | the members exist exactly when every path lies in the folder; member k stores path k under its relative name |
| Walk.RootArchive | mcp_deploy.py:194-196 | the inner loop of zipfolders builds `RootMembers` |
| Walk.ArchiveFolders | mcp_deploy.py:193-196 | the outer loop builds the members of all folders in order, as `ZipAll` |
| Walk.ZipFolders | mcp_deploy.py:190-197 | the folder array is sorted in place once the archive opens; the outcome is `ZipSpec` |
| Walk.ZipOrderIrrelevant | mcp_deploy.py:192 | the order of the folders does not matter, because they are sorted first |
| Walk.ZipNamesPortable | mcp_deploy.py:196 | on a host whose separator is not '/', no member name holds it |
| Walk.ArcNameRoundTrip | mcp_deploy.py:196 | for an absolute folder, every member name is relative and resolves from the folder to the listed entry |
| Catalogs.ParseToken | mcp_deploy.py:299-305 | only `"`-delimited pieces that start with "http" and end with ".zip" count; a link keeps its URL |
| Catalogs.Tokens | mcp_deploy.py:298 | classifies each piece of the page |
| Catalogs.ForgeVersionList | mcp_deploy.py:295-317 | the loop builds the fold of the page's links |
| Catalogs.AddLink | mcp_deploy.py:299-315 | one iteration is one step of the fold |
| Catalogs.BuildKeyLast | mcp_deploy.py:306-309 | the build key is the last '.'-field of the version, or the whole version without a '.' |
| Catalogs.ForgeFoldRaises | mcp_deploy.py:303-305 | the list is built exactly when no archive link has fewer than three '-' fields |
| Catalogs.ForgeCatalogBuild | mcp_deploy.py:295-317 | a build is listed exactly when a link names it; the first link fixes its version; each type's URL is that of the last link of that type |
| Catalogs.FirstVersion | mcp_deploy.py:310-313 | the first version found for a build has that build key |
| Catalogs.LastUrl | mcp_deploy.py:315 | a URL found for a build comes from one of the page's links, and the build has a version |
| Catalogs.ForgeRequest | mcp_deploy.py:249-256 | a missing build gives `False`; a build without "src" raises; otherwise the request uses the "src" URL |
| Catalogs.ForgeRequestFile | mcp_deploy.py:252 | the archive is one file of the Forge cache |
| Catalogs.McpKey | mcp_deploy.py:278 | a release key starts with "mcp" and has no '.' |
| Catalogs.McpVersionList | mcp_deploy.py:272-293 | the loop builds the fold of the history rows |
| Catalogs.McpFoldRaises | mcp_deploy.py:276-280 | the list is built exactly when every row has at least five cells |
| Catalogs.McpCatalogRows | mcp_deploy.py:272-293 | the list exists exactly when the page has the heading and every row is complete; a release is listed exactly when a row names it; the versions come from the last such row; every key is "mcp" without dots and names its own release |
| Catalogs.LastRow | mcp_deploy.py:288-291 | a release found by key carries that key |
| Catalogs.FindMcpc | mcp_deploy.py:258-265 | the loop returns the first matching download, or none |
| Catalogs.FirstMcpcSpec | mcp_deploy.py:260-265 | none exactly when no `craftbukkit-*.jar` has the build; otherwise the first one that has it |
| Catalogs.McpcRequestFile | mcp_deploy.py:263 | the jar is one file of the MCPC cache |
| Versions.McRoundTrip | mcp_deploy.py:44-63 | every Minecraft version maps to an MCP release that maps back to it |
| Versions.McpRoundTrip | mcp_deploy.py:44-63 | an MCP release maps back to itself exactly when it is not mcp70 |
| Versions.McpRoundTripFails | mcp_deploy.py:50-61 | mcp70 gives 1.3.1, which gives mcp70a |
| Versions.SameVersions | mcp_deploy.py:44-63 | both tables cover the same Minecraft versions |
| Deploy.Lower | mcp_deploy.py:381 | `str.lower` maps exactly the ASCII capitals to lower case |
| Deploy.StartCodes | mcp_deploy.py:328-383 | exit 6 exactly when no configuration loads; exit 7 exactly when a clean is asked for, not forced, and not confirmed with "y" or "yes" in any case; a forced clean never asks |
| Deploy.Prepare | mcp_deploy.py:406-447 | the method's tree, replies, events, exit code and jar results are those of `PrepareSpec` with the script's table |
| Deploy.Getter | mcp_deploy.py:410 | one `get*` call as `main` makes it: the fetch with budget 1, recorded as a request, with its result, a raise included |
| Deploy.Checked | mcp_deploy.py:410-413 | after a checked `get*` the phase carries on exactly on `True`, ends exactly when the fetch raised, and otherwise exits with the step's code |
| Deploy.Resolution | mcp_deploy.py:414-429 | the tree, replies, events, exit and jar results of version resolution are those of `ResolveSpec` |
| Deploy.GetJars | mcp_deploy.py:414-423 | the tree, replies, events, exit and jar results of the two jar fetches are those of `Jars` |
| Deploy.JarsFacts | mcp_deploy.py:414-423 | the client request comes first, the server request only when the client fetch did not raise; a raise in either ends the phase; otherwise it carries on unless the results are checked and one is `False`, which exits with 3 |
| Deploy.Later | mcp_deploy.py:431-447 | the tree, replies, events, exit and MCPC result of LWJGL, Forge and MCPC are those of `LaterSpec` |
| Deploy.AfterLwjglSteps | mcp_deploy.py:437-447 | Forge, then MCPC unless Forge ended the phase, as `AfterLwjgl` |
| Deploy.ForgeStep | mcp_deploy.py:437-444 | getForge runs only when configured; the outcome is that of `ForgeStage` |
| Deploy.McpcStep | mcp_deploy.py:445-447 | getMCPC runs only when configured, and a raise in it ends the phase; the outcome is that of `McpcStage` |
| Deploy.GetForge | mcp_deploy.py:249-256 | reads the index, then fetches the "src" archive of the build, as `ForgeSpec` |
| Deploy.GetMcpc | mcp_deploy.py:258-265 | reads the download list, then fetches the first matching jar, as `McpcSpec` |
| Deploy.ResolveStatic | mcp_deploy.py:414-416 | a release in the table fetches the client jar and, unless that raised, the server jar of its version, and reads no catalogue; a `False` jar goes unchecked, a raising fetch ends the phase |
| Deploy.ResolveCatalog | mcp_deploy.py:418-426 | a catalogue hit reads the wiki, fetches the client jar with the "server" field and, unless that raised, the server jar with the "client" field; a raise ends the phase; otherwise it carries on exactly when both jars came, and exits with 3 if not |
| Deploy.ResolveMissing | mcp_deploy.py:418-429 | a release in neither the table nor the catalogue reads the wiki and then exits with 2, or raises when the page is malformed |
| Deploy.PrepareSteps | mcp_deploy.py:408-429 | with MCP: the MCP archive first, exit 1 when it comes back `False` and an end when it raises, then the resolution, then the rest |
| Deploy.StaticResolution | mcp_deploy.py:414-416 | a release in the table never reads the wiki; a missing MCP archive ends the phase after one event; once it came, the client jar follows, and the server jar follows unless the client fetch raised |
| Deploy.CatalogSwap | mcp_deploy.py:418-421 | once the MCP archive came, the catalogue path reads the wiki and then fetches the client jar with the "server" field, and, unless that raised, the server jar with the "client" field |
| Deploy.Unresolved | mcp_deploy.py:427-429 | exit 2 exactly when the MCP archive came, the release is in neither the table nor the catalogue; then no jar has been fetched |
| Deploy.ClientServerChecked | mcp_deploy.py:414-426 | exit 3 only on the catalogue path, after exactly four events, when a jar came back `False` |
| Deploy.StaticJarsUnchecked | mcp_deploy.py:414-426 | a phase that carries on without both jars took its version from the table: there a `False` jar is not checked |
| Deploy.StaticJarsRaise | mcp_deploy.py:414-416 | on the table path, the phase gets past the jars only when neither fetch raised |
| Deploy.PrepareCodes | mcp_deploy.py:407-444 | exit codes are 1 to 5, and only with MCP; 1 exactly when the MCP archive comes back `False`; 5 right after the LWJGL request; 4 only when Forge is configured, after its index |
| Deploy.PrepareEarlyEnds | mcp_deploy.py:407-447 | a raising MCP fetch ends the phase right after its request; without MCP the phase exits with no code and ends only when the MCPC fetch raises |
| Deploy.LaterEvents | mcp_deploy.py:431-447 | after the resolution the LWJGL request comes first and the wiki is never read |
| Deploy.LaterExits | mcp_deploy.py:431-444 | after the resolution the phase exits with 5 exactly when LWJGL comes back `False`, right after its request; a raising LWJGL fetch ends it there too; it exits with 4 only after the Forge index; otherwise it ends with a raise or carries on; the jar results are kept |
| Deploy.LaterMcpc | mcp_deploy.py:445-447 | when the phase carries on to its end, MCPC was consulted exactly when configured, and its fetch did not raise |
| Deploy.ForgeExits | mcp_deploy.py:249-256 | Forge carries on exactly when the build has a "src" archive that came; it raises exactly when the index is malformed, the build has no "src" link or the fetch raised; otherwise it exits with 4 |
| Deploy.ForgeStageFacts | mcp_deploy.py:437-444 | Forge appends its events, starting with the index, and exits with 4, raises or carries on |
| Deploy.McpcStageFacts | mcp_deploy.py:445-447 | MCPC appends its events and leaves the jars alone; "no match" exactly when no download matches; a match's request is the last event; it changes the exit only by ending the phase, exactly when the fetch of the match raised |
| Deploy.McpcUnchecked | mcp_deploy.py:445-447 | a missing MCPC match or a `False` MCPC fetch never ends the phase; when the phase carries on, the MCPC fetch did not raise |
| Deploy.PrepareTouchesRequested | mcp_deploy.py:406-447 | the phase changes the disk only at the files it requested |
| Deploy.JobNameFlat | mcp_deploy.py:530-532 | a job name adds neither '/' nor the host separator to the prefix |
| Deploy.OutputNameStart | mcp_deploy.py:518-541 | the name ends in ".jar"; it starts with modid + "-" when there is a mod, and with the side when there is neither a mod nor a job |
| Deploy.OutputNameEnd | mcp_deploy.py:518-541 | the build number comes last; otherwise the first ten characters of the commit; without mod, commit or build the name is prefix + side + ".jar" |
| Deploy.SidesDiffer | mcp_deploy.py:539-541 | the client and server jars never get the same name |
| Deploy.OutputFile | mcp_deploy.py:539-541 | with inputs free of separators, the jar is one file directly in the output directory |
| Deploy.SuffixPlain | mcp_deploy.py:528-536 | a suffix built from inputs without separators has none |

## Left out

- Network access (`urlretrieve`, `urlopen`) is a queue of replies or the page text, given as a parameter. getMCPC's JSON list is given already decoded, as name/URL records.
- The zip format and CRC scan are not modelled. An archive is a list of named members with a checksum flag. When a folder fails after `zipfolders` has opened the archive, the model leaves an empty file. The original leaves an unfinished archive holding the local entries of the members written so far.
- A directory member that `zipfolders` writes is stored as an empty member.
- `os.system` (install.py, recompile.py, reobfuscate.py) and `os.chdir` are not modelled. They run external programs.
- `md5sum`, `sha1sum` and `isint` are not modelled. The script never calls them.
- Loading `mctoolchain.json` and `mcmod.info` is not modelled. The configuration is an `Option<Config>` and the mod record an `Option<ModInfo>`.
- The `raw_input` answer is a parameter.
- The `shutil.rmtree`/`os.remove` cleanup of a clean (mcp_deploy.py:384-404) is not modelled. It is only deletion.
- Writing the Jenkins build-info file (mcp_deploy.py:499-516) is not modelled. It only copies environment variables to a file.
- Printing and logging are not modelled.
- The `<br>` rewrite and the description cell of the wiki rows are left out. Nothing uses them.
- Deploy.Start: the `mkdir_p` calls of the work and cache directories (mcp_deploy.py:343-347) run between the exit-6 test and the clean prompt, and `Start` leaves them out. When one raises, the original stops with a traceback; `Start` has no such result.
- The same `mkdir_p` calls are not part of `Deploy.Prepare`. The phase starts from any tree; when a cache directory is missing, the download's write raises.
- The install phase (mcp_deploy.py:449-479) is not modelled as a whole. Neither is the compile phase, or the order of its steps (mcp_deploy.py:482-541). Their operations (`extract`, `copydir`, `zipfolders`, `mkdir_p`, the output name) are modelled one by one.
- `shutil.copy` into a directory is not modelled; only `shutil.copyfile` is.
- `download`'s `overwrite` flag and its `output=None` branch are not modelled. The script never uses them.
- The order of `os.listdir` is arbitrary. The walks take a directory's entries in any order, and the results are proved not to depend on it.
- Symbolic links, special files and relative `abspath` inputs are left out. The tree holds only directories and files under absolute paths.
- Deploy.Start: its own contract says only that it carries on or exits; `Deploy.StartCodes` states which exit happens when.
- Walk.RootMembers: its own contract states only the length; `Walk.RootMembersMeaning` states the members.
- Walk.ListDirR: uses the corrected strip. It differs from the original only for the start "/", because `abspath` ends in the separator only there (first row under Findings).
- Walk.CopyDir: requires that the copy `dst/<last name of src>` and `src` do not overlap (`Walk.Apart`). With a destination inside the source the original does not end (third row under Findings). With a copy root that contains the source, the model does not say what happens. It also uses the corrected strip, which differs from the original only when `src` is a top-level directory. The model gives no success condition outside `Walk.Clear`. copydir creates `dst` but never `dst/<last name of src>`. When that directory is missing, a file directly inside `src` is copied only if a directory of `src` listed before it created the directory as an ancestor of its own copy (`Walk.CopyRootMissing`). So success then depends on the order of `os.listdir`, which the model leaves open. Whether the calls in `main` (mcp_deploy.py:485, 487) meet this case depends on what the MCP scripts left under `targetdir/src`, which is not part of this model.
- Walk.ZipFolders: uses the corrected strip. For a folder given with a trailing separator the original drops a character of every name (second row under Findings). The folders `main` passes are built by `os.path.join` and never end in one.
- Extract.ExtractEntry: resolves a member name lexically, with ".." removing the name before it. `os.makedirs` creates the literal components instead, and the kernel follows ".." through them. The model therefore does not create a directory that a name like "x/../y" passes through. It also does not fail when such a component is an existing file.
- Extract.ExtractMember: behaves as `Extract.ExtractEntry`, with the same lexical reading of "..".
- Extract.Extract: the same lexical reading of ".." holds for every member.

## Findings

| source | as written | input that shows it | evidently intended | confidence | as-written member | corrected member |
|---|---|---|---|---|---|---|
| mcp_deploy.py:103-104 | `stripstartpath` drops `start` and then always one more character, to remove the separator after it | `stripstartpath("/ab", "/")` gives `"b"`. This is the case when `copydir` copies a top-level directory (`dirname("/x")` is `"/"`, so `"/x/f"` becomes `"/f"` and is joined to `dst` as an absolute path). It is also the case when `listdir_r("/", stripstart=True)` runs. | skip the extra character when `start` already ends in the separator, giving `"ab"` | not executed | Paths.StripStartPath, Paths.StripStartPathAtRoot | Paths.StripStart, Paths.StripStartRendered |
| mcp_deploy.py:196 | `zipfolders` strips the folder string `d` as it was given. A folder that ends in the separator therefore loses the first character of every member name | `zipfolders(["/w/res/"], z)` with the file "/w/res/a.txt" names its member ".txt" | name the member "a.txt", the text after the folder | not executed | Walk.ArcNameAsWritten, Walk.ArcNameDropsAfterSep | Walk.ArcName, Walk.ArcNameTrailingSep |
| mcp_deploy.py:109-129 | `copydir` lists the source while it writes into the destination, so a destination inside the source is listed and copied again | `copydir("/w/a", "/w/a/b")` creates "/w/a/b/a/b", then "/w/a/b/a/b/a/b", and so on. It stops only when the operating system refuses a path that long | copy into a destination that does not overlap the source, as both calls in `main` do (mcp_deploy.py:485, 487) | not executed | Walk.CopyNests, Walk.Recopy | Walk.CopyDir |

The walks (`Walk.ListDirR`, `Walk.CopyDir`, `Walk.ZipFolders`) use the
corrected `Paths.StripStart`. `Paths.StripAgrees` shows that it agrees with
the original whenever `start` does not end in the separator. `listdir_r`
strips an `abspath`, and `copydir` strips the `dirname` of one; both end in
the separator only at the root. `zipfolders` strips the folder string as it
was given, so there a trailing separator anywhere shows the difference.
