/** extract (mcp_deploy.py:164-188): unpacking an archive into a directory.
    A member whose name ends in '/' only creates a directory; any other member
    creates its parent directory and is written unless it already exists and
    `overwrite` is off. Member names are joined to the target directory as
    they stand, so the operating system resolves them. */
module Extract {
  import opened Text
  import opened Paths
  import opened Disk

  /** `zip.read(name)`: the data of the last member stored under `name`; a
      checksum mismatch or a missing name raises. */
  function ReadMember(ms: seq<Member>, name: string): (r: Option<Payload>)
    ensures r.Some? ==> Member(name, r.value, true) in ms
    ensures (forall i :: 0 <= i < |ms| ==> ms[i].name != name) ==> r.None?
    ensures ms != [] && Last(ms).name == name ==> r == (if Last(ms).sound then Some(Last(ms).data) else None)
  {
    if ms == [] then None
    else if Last(ms).name == name then (if Last(ms).sound then Some(Last(ms).data) else None)
    else
      var r := ReadMember(ms[..|ms| - 1], name);
      assert forall i :: 0 <= i < |ms| - 1 ==> ms[..|ms| - 1][i] == ms[i];
      r
  }

  /** The last member stored under a name decides what `zip.read` gives:
      a later duplicate replaces an earlier one. */
  lemma {:induction false} ReadMemberLast(ms: seq<Member>, name: string, k: nat)
    requires k < |ms| && ms[k].name == name
    requires forall j :: k < j < |ms| ==> ms[j].name != name
    ensures ReadMember(ms, name) == if ms[k].sound then Some(ms[k].data) else None
    decreases |ms|
  {
    if k < |ms| - 1 {
      var init := ms[..|ms| - 1];
      assert init[k] == ms[k];
      assert forall j :: k < j < |init| ==> init[j] == ms[j];
      ReadMemberLast(init, name, k);
    }
  }

  predicate DirEntry(name: string) {
    EndsWith(name, "/")
  }

  /** One member of the loop: `ms` is the whole archive, which `zip.read`
      looks names up in. A file is truncated by `open` before its data is
      read, so a bad checksum leaves it empty. */
  function ExtractEntry(t: Tree, m: Member, ms: seq<Member>, base: Path, overwrite: bool, sep: char): Outcome
  {
    if DirEntry(m.name) then
      match Mkdirs(t, Parse(base, m.name, sep))
      case None => Outcome(t, false)
      case Some(u) => Outcome(u, true)
    else
      var target := Parse(base, m.name, sep);
      match Mkdirs(t, ParseDir(base, m.name, sep))
      case None => Outcome(t, false)
      case Some(u) =>
        if overwrite || !(!overwrite && Exists(u, target)) then
          match Write(u, target, Raw([]))
          case None => Outcome(u, false)
          case Some(v) =>
            match ReadMember(ms, m.name)
            case None => Outcome(v, false)
            case Some(data) => Outcome(v[target := File(data)], true)
        else Outcome(u, true)
  }

  /** The loop over `entries`, stopping at the first exception. */
  function ExtractAll(t: Tree, entries: seq<Member>, ms: seq<Member>, base: Path, overwrite: bool, sep: char): Outcome
    decreases |entries|
  {
    if entries == [] then Outcome(t, true)
    else
      var o := ExtractEntry(t, entries[0], ms, base, overwrite, sep);
      if !o.ok then o else ExtractAll(o.tree, entries[1..], ms, base, overwrite, sep)
  }

  /** extract: opening something that is not an archive raises. */
  function ExtractSpec(t: Tree, zip: Path, base: Path, overwrite: bool, sep: char): Outcome
  {
    if IsFile(t, zip) && t[zip].data.Archive? then
      ExtractAll(t, t[zip].data.members, t[zip].data.members, base, overwrite, sep)
    else Outcome(t, false)
  }

  method Extract(fs: FileSystem, zip: Path, base: Path, overwrite: bool) returns (ok: bool)
    requires fs.Valid() && ValidPath(base, fs.sep)
    modifies fs
    ensures fs.Valid()
    ensures Outcome(fs.tree, ok) == ExtractSpec(old(fs.tree), zip, base, overwrite, fs.sep)
  {
    ok := IsFile(fs.tree, zip) && fs.tree[zip].data.Archive?;
    if ok {
      ok := ExtractMembers(fs, fs.tree[zip].data.members, base, overwrite);
    }
  }

  /** The loop of extract over the members `ms` of the archive. */
  method ExtractMembers(fs: FileSystem, ms: seq<Member>, base: Path, overwrite: bool) returns (ok: bool)
    requires fs.Valid() && ValidPath(base, fs.sep)
    modifies fs
    ensures fs.Valid()
    ensures Outcome(fs.tree, ok) == ExtractAll(old(fs.tree), ms, ms, base, overwrite, fs.sep)
  {
    var i := 0;
    while i < |ms|
      invariant 0 <= i <= |ms| && fs.Valid()
      invariant ExtractAll(fs.tree, ms[i..], ms, base, overwrite, fs.sep) == ExtractAll(old(fs.tree), ms, ms, base, overwrite, fs.sep)
    {
      ExtractAllStep(fs.tree, ms[i..], ms, base, overwrite, fs.sep);
      assert ms[i..][0] == ms[i] && ms[i..][1..] == ms[i + 1..];
      ok := ExtractMember(fs, ms[i], ms, base, overwrite);
      if !ok {
        return;
      }
      i := i + 1;
    }
    ok := true;
  }

  lemma ExtractAllStep(t: Tree, entries: seq<Member>, ms: seq<Member>, base: Path, overwrite: bool, sep: char)
    requires entries != []
    ensures var o := ExtractEntry(t, entries[0], ms, base, overwrite, sep);
      ExtractAll(t, entries, ms, base, overwrite, sep) == if o.ok then ExtractAll(o.tree, entries[1..], ms, base, overwrite, sep) else o
  {
  }

  /** One pass of the loop in extract. */
  method ExtractMember(fs: FileSystem, m: Member, ms: seq<Member>, base: Path, overwrite: bool) returns (ok: bool)
    requires fs.Valid() && ValidPath(base, fs.sep)
    modifies fs
    ensures fs.Valid()
    ensures Outcome(fs.tree, ok) == ExtractEntry(old(fs.tree), m, ms, base, overwrite, fs.sep)
  {
    ParseValid(base, m.name, fs.sep);
    var target := Parse(base, m.name, fs.sep);
    if DirEntry(m.name) {
      ok := fs.MakeDirs(target);
      return;
    }
    ok := fs.MakeDirs(ParseDir(base, m.name, fs.sep));
    if !ok || !(overwrite || !(!overwrite && Exists(fs.tree, target))) {
      return;
    }
    ok := fs.WriteFile(target, Raw([]));
    if !ok {
      return;
    }
    var data := ReadMember(ms, m.name);
    if data.None? {
      return false;
    }
    ok := fs.WriteFile(target, data.value);
  }

  // ---------------------------------------------------------------------
  // Lemmas

  /** A directory entry adds directories and changes nothing that exists. */
  lemma ExtractDirEntry(t: Tree, m: Member, ms: seq<Member>, base: Path, overwrite: bool, sep: char)
    requires DirEntry(m.name)
    ensures var o := ExtractEntry(t, m, ms, base, overwrite, sep);
      o.ok ==> (Exists(o.tree, Parse(base, m.name, sep))
        && (forall q :: q in t ==> q in o.tree && o.tree[q] == t[q])
        && (forall q :: q in o.tree && q !in t ==> o.tree[q] == Dir))
  {
  }

  /** A file entry whose last field is a plain name: afterwards its
      directory exists, and it holds the member's data when `overwrite` is on
      or it did not exist before. */
  lemma {:induction false} ExtractFileEntry(t: Tree, m: Member, ms: seq<Member>, base: Path, overwrite: bool, sep: char)
    requires WellFormed(t, sep) && ValidPath(base, sep)
    requires !DirEntry(m.name) && ValidName(Last(Fields(m.name, sep)), sep)
    ensures var o := ExtractEntry(t, m, ms, base, overwrite, sep);
      o.ok ==> IsDir(o.tree, ParseDir(base, m.name, sep))
    ensures var o := ExtractEntry(t, m, ms, base, overwrite, sep);
      o.ok && (overwrite || !Exists(t, Parse(base, m.name, sep))) ==>
        ReadMember(ms, m.name).Some? && Parse(base, m.name, sep) in o.tree
        && o.tree[Parse(base, m.name, sep)] == File(ReadMember(ms, m.name).value)
  {
    var dir := ParseDir(base, m.name, sep);
    var target := Parse(base, m.name, sep);
    ParseSplit(base, m.name, sep);
    assert Parent(target) == dir;
    var o := ExtractEntry(t, m, ms, base, overwrite, sep);
    if o.ok {
      var u := Mkdirs(t, dir).value;
      if !(overwrite || !Exists(u, target)) {
        assert target in u;
        ParseValid(base, m.name, sep);
        MkdirsWellFormed(t, dir, sep);
      }
      if !Exists(t, target) {
        assert |target| > |dir|;
        assert target !in u;
      }
    }
  }

  /** With `overwrite` off, a member whose target already exists changes
      nothing at all. */
  lemma ExtractKeepsExisting(t: Tree, m: Member, ms: seq<Member>, base: Path, sep: char)
    requires WellFormed(t, sep)
    requires !DirEntry(m.name) && ValidName(Last(Fields(m.name, sep)), sep)
    requires Exists(t, Parse(base, m.name, sep))
    ensures ExtractEntry(t, m, ms, base, false, sep) == Outcome(t, true)
  {
    var dir := ParseDir(base, m.name, sep);
    var target := Parse(base, m.name, sep);
    ParseSplit(base, m.name, sep);
    assert Parent(target) == dir;
    assert target != [];
    Entry(t, target, sep);
    assert IsDir(t, dir);
    assert Mkdirs(t, dir) == Some(t);
  }

  lemma EntryContained(t: Tree, m: Member, ms: seq<Member>, base: Path, overwrite: bool, sep: char)
    requires Confined(m.name, sep)
    ensures Contained(t, ExtractEntry(t, m, ms, base, overwrite, sep).tree, base)
  {
    ParseConfined(base, m.name, sep);
    var target := Parse(base, m.name, sep);
    if DirEntry(m.name) {
      if Mkdirs(t, target).Some? { MkdirsContained(t, target, base); }
    } else {
      var dir := ParseDir(base, m.name, sep);
      if Mkdirs(t, dir).Some? {
        var u := Mkdirs(t, dir).value;
        MkdirsContained(t, dir, base);
        if Write(u, target, Raw([])).Some? {
          var v := Write(u, target, Raw([])).value;
          assert Contained(u, v, base);
          ContainedTrans(t, u, v, base);
          if ReadMember(ms, m.name).Some? {
            var w := v[target := File(ReadMember(ms, m.name).value)];
            assert Contained(v, w, base);
            ContainedTrans(t, v, w, base);
          }
        }
      }
    }
  }

  /** Nothing outside `path` is touched: when every member name is relative
      and never goes up, extraction only adds or rewrites entries within
      `base`, apart from creating missing ancestors of `base`. */
  lemma {:induction false} ExtractConfined(t: Tree, entries: seq<Member>, ms: seq<Member>, base: Path, overwrite: bool, sep: char)
    requires forall i :: 0 <= i < |entries| ==> Confined(entries[i].name, sep)
    ensures Contained(t, ExtractAll(t, entries, ms, base, overwrite, sep).tree, base)
    decreases |entries|
  {
    if entries != [] {
      var o := ExtractEntry(t, entries[0], ms, base, overwrite, sep);
      EntryContained(t, entries[0], ms, base, overwrite, sep);
      if o.ok {
        ExtractConfined(o.tree, entries[1..], ms, base, overwrite, sep);
        ContainedTrans(t, o.tree, ExtractAll(o.tree, entries[1..], ms, base, overwrite, sep).tree, base);
      }
    }
  }

  /** Names are not sanitised: one that goes up lands outside the target
      directory (an absolute one too, see `Paths.ParseRender`). */
  lemma UpwardNameEscapes()
    ensures Parse(["srv"], "../x", '/') == ["x"]
  {
    UpwardFields();
    assert !Absolute("../x", '/');
    assert Resolve(["srv"], ["..", "x"]) == Resolve([], ["x"]);
  }

  lemma UpwardFields()
    ensures Fields("../x", '/') == ["..", "x"]
  {
    var s := "../x";
    assert Join(["..", "x"], "/") == s;
    SplitJoin(["..", "x"], '/');
    UnixPathSepIdempotent(s, '/');
  }
}
