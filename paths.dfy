/** Paths of the deploy script. A path on disk is a sequence of names from
    the file-system root; `sep` is the host's `os.path.sep`. Strings are
    produced the way `os.path.abspath`/`os.path.join` print them (Render,
    RelRender) and read back the way the operating system resolves them
    (Parse). `StripStartPath` and `UnixPathSep` are the script's own helpers. */
module Paths {
  import opened Text

  type Path = seq<string>

  /** The separators of the hosts the script runs on. */
  predicate HostSep(sep: char) {
    sep == '/' || sep == '\\'
  }

  /** A name the operating system can hand out in a directory listing. */
  predicate ValidName(n: string, sep: char) {
    n != "" && n != "." && n != ".." && sep !in n && '/' !in n
  }

  predicate ValidPath(p: Path, sep: char) {
    forall i :: 0 <= i < |p| ==> ValidName(p[i], sep)
  }

  function Parent(p: Path): Path
    requires p != []
  {
    p[..|p| - 1]
  }

  /** `p` is `root` or lies below it. */
  predicate Within(p: Path, root: Path) {
    |root| <= |p| && p[..|root|] == root
  }

  /** The absolute path as `os.path.abspath` prints it: "/" for the root. */
  function Render(p: Path, sep: char): (r: string)
    ensures r != [] && r[0] == sep
  {
    if p == [] then [sep] else [sep] + Join(p, [sep])
  }

  /** A relative path as `os.path.join` of its names prints it. */
  function RelRender(rel: Path, sep: char): string
  {
    Join(rel, [sep])
  }

  /** unixpathsep (mcp_deploy.py:106-107): the host separator becomes '/'. */
  function UnixPathSep(p: string, sep: char): (r: string)
    ensures |r| == |p|
    ensures sep != '/' ==> sep !in r
    ensures forall c :: c in r ==> c in p || c == '/'
  {
    ReplaceChar(p, sep, "/")
  }

  /** stripstartpath (mcp_deploy.py:103-104) as written: the text after the
      first occurrence of `start`, minus its first character. `None` is the
      exception Python raises: an empty `start` (ValueError) or a `start`
      that does not occur (IndexError). */
  function StripStartPath(p: string, start: string): (r: Option<string>)
    ensures r.Some? <==> start != "" && Contains(p, start)
    ensures r.Some? ==> |r.value| < |p| || r.value == ""
  {
    if start == "" then None
    else match Find(p, start)
      case None => None
      case Some(i) =>
        var rest := p[i + |start|..];
        Some(if rest == [] then [] else rest[1..])
  }

  /** stripstartpath as evidently intended: drop `start` and the separator
      that follows it, without losing a character when `start` already ends
      in the separator (the file-system root "/"). */
  function StripStart(p: string, start: string, sep: char): (r: Option<string>)
    ensures r.Some? <==> start != "" && Contains(p, start)
  {
    if start == "" then None
    else match Find(p, start)
      case None => None
      case Some(i) =>
        var rest := p[i + |start|..];
        Some(if Last(start) == sep || rest == [] then rest else rest[1..])
  }

  /** One step of the operating system's name resolution. */
  function Step(cur: Path, field: string): Path
  {
    if field == "" || field == "." then cur
    else if field == ".." then (if cur == [] then [] else Parent(cur))
    else cur + [field]
  }

  /** Resolves `fields` one after the other from `cur`. */
  function Resolve(cur: Path, fields: seq<string>): Path
    decreases |fields|
  {
    if fields == [] then cur else Resolve(Step(cur, fields[0]), fields[1..])
  }

  /** The fields of a path string: both `sep` and '/' separate. */
  function Fields(s: string, sep: char): seq<string>
  {
    Split(UnixPathSep(s, sep), "/")
  }

  predicate Absolute(s: string, sep: char) {
    s != [] && (s[0] == sep || s[0] == '/')
  }

  /** The path `os.path.join(base, s)` names once the operating system has
      resolved it: a leading separator restarts at the root, "" and "."
      stay, ".." goes up. */
  function Parse(base: Path, s: string, sep: char): (r: Path)
  {
    Resolve(if Absolute(s, sep) then [] else base, Fields(s, sep))
  }

  /** The directory `os.path.split(os.path.join(base, s))[0]` names: the
      resolution of every field but the last. */
  function ParseDir(base: Path, s: string, sep: char): (r: Path)
  {
    var fields := Fields(s, sep);
    Resolve(if Absolute(s, sep) then [] else base, fields[..|fields| - 1])
  }

  // ---------------------------------------------------------------------
  // Lemmas

  /** A join of several pieces ends with the separator and the last piece. */
  lemma {:induction false} JoinEndsWith(pieces: seq<string>, s: string)
    requires |pieces| >= 2
    ensures EndsWith(Join(pieces, s), s + Last(pieces))
  {
    var init, x := pieces[..|pieces| - 1], Last(pieces);
    var j := Join(init, s);
    assert Join(pieces, s) == j + (s + x) by {
      assert pieces == init + [x];
      JoinAppend(init, [x], s);
      assert Join([x], s) == x;
      assert j + s + x == j + (s + x);
    }
    Affixes(j, s + x);
  }

  lemma {:induction false} JoinAppend(a: seq<string>, b: seq<string>, s: string)
    requires a != [] && b != []
    ensures Join(a + b, s) == Join(a, s) + s + Join(b, s)
    decreases |a|
  {
    if |a| == 1 {
      assert (a + b)[1..] == b;
    } else {
      assert (a + b)[1..] == a[1..] + b;
      JoinAppend(a[1..], b, s);
    }
  }

  /** Rendering a path below a root: the root's text, a separator, the rest. */
  lemma RenderAppend(root: Path, rel: Path, sep: char)
    requires root != [] && rel != []
    ensures Render(root + rel, sep) == Render(root, sep) + [sep] + RelRender(rel, sep)
  {
    JoinAppend(root, rel, [sep]);
  }

  /** The candidate round trip: `stripstartpath(s + sep + r, s) == r`. The
      first occurrence of a non-empty `s` in `s + [c] + r` is at 0. */
  lemma StripRoundTrip(s: string, c: char, r: string)
    requires s != ""
    ensures StripStartPath(s + [c] + r, s) == Some(r)
  {
    var p := s + [c] + r;
    assert OccursAt(p, s, 0) by { assert p[..|s|] == s; }
    assert Find(p, s) == Some(0);
    assert p[|s|..] == [c] + r;
  }

  /** The as-written helper agrees with the intended one unless `start` ends
      in the separator. */
  lemma StripAgrees(p: string, start: string, sep: char)
    requires start != "" && Last(start) != sep
    ensures StripStartPath(p, start) == StripStart(p, start, sep)
  {
  }

  /** The intended helper recovers the relative text of every entry below
      every root, the file-system root included. */
  lemma StripStartRendered(root: Path, rel: Path, tail: string, sep: char)
    requires rel != [] && ValidPath(root, sep)
    ensures StripStart(Render(root + rel, sep) + tail, Render(root, sep), sep) == Some(RelRender(rel, sep) + tail)
  {
    if root == [] {
      assert root + rel == rel && Render(root, sep) == [sep];
      StripBelowFsRoot(rel, tail, sep);
    } else {
      StripBelowRoot(root, rel, tail, sep);
    }
  }

  lemma StripBelowFsRoot(rel: Path, tail: string, sep: char)
    requires rel != []
    ensures StripStart(Render(rel, sep) + tail, [sep], sep) == Some(RelRender(rel, sep) + tail)
  {
    assert Render(rel, sep) + tail == [sep] + (RelRender(rel, sep) + tail);
    StripFromFront([sep], RelRender(rel, sep) + tail, sep);
  }

  lemma StripBelowRoot(root: Path, rel: Path, tail: string, sep: char)
    requires rel != [] && root != [] && ValidPath(root, sep)
    ensures StripStart(Render(root + rel, sep) + tail, Render(root, sep), sep) == Some(RelRender(rel, sep) + tail)
  {
    var start := Render(root, sep);
    RenderAppend(root, rel, sep);
    assert Render(root + rel, sep) + tail == start + ([sep] + (RelRender(rel, sep) + tail));
    RenderLast(root, sep);
    StripFromFront(start, [sep] + (RelRender(rel, sep) + tail), sep);
  }

  /** When `p` begins with `start`, the strip looks right behind it. */
  lemma StripFromFront(start: string, rest: string, sep: char)
    requires start != ""
    ensures StripStart(start + rest, start, sep) ==
      Some(if Last(start) == sep || rest == [] then rest else rest[1..])
  {
    var p := start + rest;
    assert OccursAt(p, start, 0) by { assert p[..|start|] == start; }
    assert Find(p, start) == Some(0);
    assert p[|start|..] == rest;
  }

  /** The rendering of a non-root path does not end in the separator. */
  lemma RenderLast(p: Path, sep: char)
    requires p != [] && ValidPath(p, sep)
    ensures Last(Render(p, sep)) != sep
  {
    JoinLast(p, [sep]);
    assert ValidName(Last(p), sep);
    assert Last(Render(p, sep)) == Last(Join(p, [sep]));
  }

  /** The last character of a join is the last character of its last piece. */
  lemma {:induction false} JoinLast(pieces: seq<string>, s: string)
    requires pieces != [] && Last(pieces) != ""
    ensures Join(pieces, s) != [] && Last(Join(pieces, s)) == Last(Last(pieces))
    decreases |pieces|
  {
    if |pieces| > 1 {
      JoinLast(pieces[1..], s);
    }
  }

  /** The finding: with the file-system root as `start` the helper as
      written drops the first character of the relative part. */
  lemma StripStartPathAtRoot()
    ensures StripStartPath("/ab", "/") == Some("b")
    ensures StripStart("/ab", "/", '/') == Some("ab")
  {
    assert OccursAt("/ab", "/", 0);
    assert Find("/ab", "/") == Some(0);
  }

  /** A valid name is its own single field and resolves by appending. */
  lemma {:induction false} ResolveNames(cur: Path, rel: Path, tail: seq<string>, sep: char)
    requires ValidPath(rel, sep)
    ensures Resolve(cur, rel + tail) == Resolve(cur + rel, tail)
    decreases |rel|
  {
    if rel != [] {
      assert (rel + tail)[0] == rel[0];
      assert (rel + tail)[1..] == rel[1..] + tail;
      assert Step(cur, rel[0]) == cur + [rel[0]];
      assert cur + [rel[0]] + rel[1..] == cur + rel;
      ResolveNames(cur + [rel[0]], rel[1..], tail, sep);
    } else {
      assert rel + tail == tail;
      assert cur + rel == cur;
    }
  }

  lemma ValidPieces(rel: Path, sep: char)
    requires ValidPath(rel, sep)
    ensures forall k :: 0 <= k < |rel| ==> sep !in rel[k] && '/' !in rel[k]
  {
  }

  /** The fields of a joined relative path are its names. */
  lemma FieldsOfJoin(names: seq<string>, sep: char)
    requires names != [] && forall k :: 0 <= k < |names| ==> sep !in names[k] && '/' !in names[k]
    ensures UnixPathSep(Join(names, [sep]), sep) == Join(names, "/")
    ensures Fields(Join(names, [sep]), sep) == names
  {
    ReplaceJoin(names, sep, '/');
    SplitJoin(names, '/');
  }

  /** Reading back a printed relative path below `base`, with or without the
      trailing separator the script puts after directories. */
  lemma ParseRel(base: Path, rel: Path, sep: char)
    requires rel != [] && ValidPath(rel, sep)
    ensures Parse(base, RelRender(rel, sep), sep) == base + rel
    ensures Parse(base, RelRender(rel, sep) + [sep], sep) == base + rel
    ensures ParseDir(base, RelRender(rel, sep), sep) == base + Parent(rel)
  {
    var s := RelRender(rel, sep);
    FieldsOfJoin(rel, sep);
    assert s[0] == rel[0][0] by { JoinFirst(rel, [sep]); }
    assert !Absolute(s, sep);
    ResolveNames(base, rel, [], sep);
    assert rel + [] == rel;
    ResolveNames(base, Parent(rel), [], sep);
    assert Parent(rel) + [] == Parent(rel);
    var t := s + [sep];
    assert t == Join(rel + [""], [sep]) by { JoinAppend(rel, [""], [sep]); }
    assert forall k :: 0 <= k < |rel + [""]| ==> sep !in (rel + [""])[k] && '/' !in (rel + [""])[k];
    FieldsOfJoin(rel + [""], sep);
    assert t[0] == s[0];
    ResolveNames(base, rel, [""], sep);
  }

  lemma {:induction false} JoinFirst(pieces: seq<string>, s: string)
    requires pieces != [] && pieces[0] != ""
    ensures Join(pieces, s) != [] && Join(pieces, s)[0] == pieces[0][0]
  {
  }

  /** Reading back a printed absolute path gives the path. */
  lemma ParseRender(base: Path, p: Path, sep: char)
    requires ValidPath(p, sep)
    ensures Parse(base, Render(p, sep), sep) == p
  {
    var s := Render(p, sep);
    assert Absolute(s, sep);
    if p == [] {
      assert UnixPathSep(s, sep) == "/";
      assert OccursAt("/", "/", 0);
      assert Find("/", "/") == Some(0);
      assert Find("", "/") == None;
      assert Split("", "/") == [""];
      assert "/"[..0] == "" && "/"[1..] == "";
      assert Split("/", "/") == [""] + Split("", "/");
      assert Fields(s, sep) == ["", ""];
      assert Resolve([], [""]) == [];
      assert Resolve([], ["", ""]) == Resolve([], [""]);
    } else {
      assert s == Join([""] + p, [sep]) by { JoinAppend([""], p, [sep]); }
      assert forall k :: 0 <= k < |[""] + p| ==> sep !in ([""] + p)[k] && '/' !in ([""] + p)[k];
      FieldsOfJoin([""] + p, sep);
      ResolveNames([], p, [], sep);
      assert p + [] == p && [] + p == p;
    }
  }

  /** Reading back a printed directory, trailing separator included. */
  lemma ParseRenderDir(base: Path, p: Path, sep: char)
    requires p != [] && ValidPath(p, sep)
    ensures Parse(base, Render(p, sep) + [sep], sep) == p
  {
    var names := [""] + p + [""];
    assert Render(p, sep) == Join([""] + p, [sep]) by { JoinAppend([""], p, [sep]); }
    assert Render(p, sep) + [sep] == Join(names, [sep]) by { JoinAppend([""] + p, [""], [sep]); }
    assert forall k :: 0 <= k < |names| ==> sep !in names[k] && '/' !in names[k];
    FieldsOfJoin(names, sep);
    assert names == [""] + (p + [""]);
    ResolveNames([], p, [""], sep);
  }

  /** `unixpathsep` does not change the path a string names. */
  lemma ParseUnix(base: Path, s: string, sep: char)
    ensures Parse(base, UnixPathSep(s, sep), sep) == Parse(base, s, sep)
  {
    UnixPathSepIdempotent(s, sep);
    if s != [] {
      assert UnixPathSep(s, sep) == (if s[0] == sep then "/" else [s[0]]) + ReplaceChar(s[1..], sep, "/");
    }
  }

  /** Resolution keeps every name valid. */
  lemma {:induction false} ResolveValid(cur: Path, fields: seq<string>, sep: char)
    requires ValidPath(cur, sep)
    requires forall k :: 0 <= k < |fields| ==> sep !in fields[k] && '/' !in fields[k]
    ensures ValidPath(Resolve(cur, fields), sep)
    decreases |fields|
  {
    if fields != [] {
      ResolveValid(Step(cur, fields[0]), fields[1..], sep);
    }
  }

  lemma FieldsClean(s: string, sep: char)
    ensures forall k :: 0 <= k < |Fields(s, sep)| ==> sep !in Fields(s, sep)[k] && '/' !in Fields(s, sep)[k]
  {
    var u := UnixPathSep(s, sep);
    var fs := Fields(s, sep);
    forall k | 0 <= k < |fs| ensures sep !in fs[k] && '/' !in fs[k] {
      ContainsChar(fs[k], '/');
      if sep != '/' {
        assert sep !in u;
        assert forall c :: c in fs[k] ==> c in u by {
          SplitPiecesIn(u, "/", k);
        }
      }
    }
  }

  /** Every character of a piece of a split is a character of the whole. */
  lemma SplitPiecesIn(s: string, sep: string, k: nat)
    requires sep != "" && k < |Split(s, sep)|
    ensures forall c :: c in Split(s, sep)[k] ==> c in s
  {
    JoinIn(Split(s, sep), sep, k);
  }

  lemma {:induction false} JoinIn(pieces: seq<string>, sep: string, k: nat)
    requires k < |pieces|
    ensures forall c :: c in pieces[k] ==> c in Join(pieces, sep)
    decreases |pieces|
  {
    if |pieces| > 1 {
      if k > 0 { JoinIn(pieces[1..], sep, k - 1); }
    }
  }

  /** Every path the operating system resolves is made of valid names. */
  lemma ParseValid(base: Path, s: string, sep: char)
    requires ValidPath(base, sep)
    ensures ValidPath(Parse(base, s, sep), sep)
    ensures ValidPath(ParseDir(base, s, sep), sep)
  {
    FieldsClean(s, sep);
    var fs := Fields(s, sep);
    var start: Path := if Absolute(s, sep) then [] else base;
    ResolveValid(start, fs, sep);
    ResolveValid(start, fs[..|fs| - 1], sep);
  }

  /** `unixpathsep` is idempotent, and the identity on a POSIX host. */
  lemma UnixPathSepIdempotent(p: string, sep: char)
    ensures UnixPathSep(UnixPathSep(p, sep), sep) == UnixPathSep(p, sep)
    ensures sep == '/' ==> UnixPathSep(p, sep) == p
  {
    if sep != '/' {
      ReplaceAbsent(UnixPathSep(p, sep), sep, "/");
    } else {
      ReplaceSame(p, '/');
    }
  }

  lemma {:induction false} ReplaceSame(s: string, c: char)
    ensures ReplaceChar(s, c, [c]) == s
  {
    if s != [] { ReplaceSame(s[1..], c); }
  }

  /** Resolving one more field is one more step. */
  lemma {:induction false} ResolveSnoc(cur: Path, fields: seq<string>, f: string)
    ensures Resolve(cur, fields + [f]) == Step(Resolve(cur, fields), f)
    decreases |fields|
  {
    if fields == [] {
      assert fields + [f] == [f];
    } else {
      assert (fields + [f])[1..] == fields[1..] + [f];
      ResolveSnoc(Step(cur, fields[0]), fields[1..], f);
    }
  }

  /** When the last field of `s` is a plain name, `s` names an entry of the
      directory `os.path.split` gives. */
  lemma ParseSplit(base: Path, s: string, sep: char)
    requires ValidName(Last(Fields(s, sep)), sep)
    ensures Parse(base, s, sep) == ParseDir(base, s, sep) + [Last(Fields(s, sep))]
  {
    var fs := Fields(s, sep);
    assert fs == fs[..|fs| - 1] + [Last(fs)];
    ResolveSnoc(if Absolute(s, sep) then [] else base, fs[..|fs| - 1], Last(fs));
  }

  /** A name that is relative and never goes up. */
  predicate Confined(s: string, sep: char) {
    !Absolute(s, sep) && forall i :: 0 <= i < |Fields(s, sep)| ==> Fields(s, sep)[i] != ".."
  }

  lemma {:induction false} ResolveStaysWithin(cur: Path, fields: seq<string>, base: Path)
    requires Within(cur, base)
    requires forall i :: 0 <= i < |fields| ==> fields[i] != ".."
    ensures Within(Resolve(cur, fields), base)
    decreases |fields|
  {
    if fields != [] {
      var next := Step(cur, fields[0]);
      assert Within(next, base) by {
        if next != cur {
          assert next[..|base|] == cur[..|base|];
        }
      }
      ResolveStaysWithin(next, fields[1..], base);
    }
  }

  /** A confined name, and the directory it sits in, lie within the base. */
  lemma ParseConfined(base: Path, s: string, sep: char)
    requires Confined(s, sep)
    ensures Within(Parse(base, s, sep), base)
    ensures Within(ParseDir(base, s, sep), base)
  {
    var fs := Fields(s, sep);
    assert Within(base, base);
    ResolveStaysWithin(base, fs, base);
    ResolveStaysWithin(base, fs[..|fs| - 1], base);
  }
}
