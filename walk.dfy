/** The recursive directory walks: listdir_r (mcp_deploy.py:131-162),
    copydir (mcp_deploy.py:109-129) and zipfolders (mcp_deploy.py:190-197).
    Each pops a directory off a stack and goes through what `os.listdir`
    returns for it, pushing the subdirectories it meets. `os.listdir` has no
    defined order, so the model takes the entries in whatever order it
    picks. */
module Walk {
  import opened Text
  import opened Order
  import opened Paths
  import opened Disk

  /** The entries strictly below `root`. */
  function Below(t: Tree, root: Path): set<Path> {
    set p | p in t && Within(p, root) && |p| > |root|
  }

  /** `os.listdir(d)`, as full paths. */
  function Children(t: Tree, d: Path): set<Path> {
    set p | p in t && Within(p, d) && |p| == |d| + 1
  }

  /** The directories a walk from `root` may list. */
  function Nodes(t: Tree, root: Path): set<Path> {
    Below(t, root) + {root}
  }

  predicate Distinct<T(==)>(s: seq<T>) {
    forall i, j :: 0 <= i < j < |s| ==> s[i] != s[j]
  }

  /** What a walk from `root` knows: `listed` are the entries met so far,
      `expanded` the directories already listed, `stack` those waiting, and
      `todo` the entries of the directory being listed not met yet. */
  ghost predicate Frontier(t: Tree, root: Path, stack: seq<Path>, expanded: set<Path>, listed: set<Path>, todo: set<Path>)
  {
    && listed <= Below(t, root) && todo <= Below(t, root) && listed !! todo
    && (forall d :: d in expanded ==> d == root || (d in listed && t[d].Dir?))
    && (forall d :: d in expanded ==> Children(t, d) <= listed + todo)
    && (forall p :: p in listed + todo ==> Parent(p) in expanded)
    && (forall d :: d in listed && t[d].Dir? ==> d in expanded || d in stack)
    && (root in expanded || root in stack)
    && (forall i :: 0 <= i < |stack| ==>
          stack[i] !in expanded && (stack[i] == root || (stack[i] in listed && t[stack[i]].Dir?)))
    && Distinct(stack)
  }

  lemma ChildBelow(t: Tree, root: Path, d: Path, c: Path)
    requires d in Nodes(t, root) && c in Children(t, d)
    ensures c in Below(t, root) && Parent(c) == d
  {
    assert c[..|root|] == c[..|d|][..|root|];
  }

  /** Popping the last directory of the stack and starting on its entries. */
  lemma ExpandStart(t: Tree, root: Path, stack: seq<Path>, expanded: set<Path>, listed: set<Path>)
    requires Frontier(t, root, stack, expanded, listed, {}) && stack != []
    ensures Last(stack) in Nodes(t, root) - expanded
    ensures Frontier(t, root, stack[..|stack| - 1], expanded + {Last(stack)}, listed, Children(t, Last(stack)))
  {
    ExpandStartEntries(t, root, stack, expanded, listed);
    ExpandStartStack(t, root, stack, expanded, listed);
  }

  lemma ExpandStartEntries(t: Tree, root: Path, stack: seq<Path>, expanded: set<Path>, listed: set<Path>)
    requires Frontier(t, root, stack, expanded, listed, {}) && stack != []
    ensures var d, todo := Last(stack), Children(t, Last(stack));
      && d in Nodes(t, root) - expanded
      && todo <= Below(t, root) && listed !! todo
      && (forall e :: e in expanded + {d} ==> e == root || (e in listed && t[e].Dir?))
      && (forall e :: e in expanded + {d} ==> Children(t, e) <= listed + todo)
      && (forall p :: p in listed + todo ==> Parent(p) in expanded + {d})
  {
    var d := Last(stack);
    assert d == stack[|stack| - 1];
    forall c | c in Children(t, d) ensures c in Below(t, root) && c !in listed && Parent(c) == d {
      ChildBelow(t, root, d, c);
    }
  }

  lemma ExpandStartStack(t: Tree, root: Path, stack: seq<Path>, expanded: set<Path>, listed: set<Path>)
    requires Frontier(t, root, stack, expanded, listed, {}) && stack != []
    ensures var d, rest := Last(stack), stack[..|stack| - 1];
      && (forall e :: e in listed && t[e].Dir? ==> e in expanded + {d} || e in rest)
      && (root in expanded + {d} || root in rest)
      && (forall i :: 0 <= i < |rest| ==>
            rest[i] !in expanded + {d} && (rest[i] == root || (rest[i] in listed && t[rest[i]].Dir?)))
      && Distinct(rest)
  {
    var d := Last(stack);
    var rest := stack[..|stack| - 1];
    StackLeft(stack, Last(stack), expanded);
    forall e | e in listed && t[e].Dir? ensures e in expanded + {d} || e in rest {
      if e !in expanded {
        StackHas(stack, e);
      }
    }
    if root !in expanded {
      StackHas(stack, root);
    }
    assert forall i :: 0 <= i < |rest| ==> rest[i] == stack[i];
  }

  /** What remains of the stack once its last element is popped. */
  lemma StackLeft(stack: seq<Path>, d: Path, expanded: set<Path>)
    requires stack != [] && d == Last(stack) && Distinct(stack)
    requires forall i :: 0 <= i < |stack| ==> stack[i] !in expanded
    ensures var rest := stack[..|stack| - 1];
      Distinct(rest) && forall i :: 0 <= i < |rest| ==> rest[i] == stack[i] && rest[i] !in expanded + {d}
  {
  }

  lemma StackHas(stack: seq<Path>, e: Path)
    requires e in stack
    ensures e == Last(stack) || e in stack[..|stack| - 1]
  {
    var i :| 0 <= i < |stack| && stack[i] == e;
    if i < |stack| - 1 {
      assert stack[..|stack| - 1][i] == e;
    }
  }

  /** Meeting the entry `c`: a directory goes on the stack. */
  lemma ExpandStep(t: Tree, root: Path, stack: seq<Path>, expanded: set<Path>, listed: set<Path>, todo: set<Path>, c: Path)
    requires Frontier(t, root, stack, expanded, listed, todo) && c in todo
    ensures Frontier(t, root, if t[c].Dir? then stack + [c] else stack, expanded, listed + {c}, todo - {c})
  {
    ExpandStepEntries(t, root, stack, expanded, listed, todo, c);
    ExpandStepStack(t, root, stack, expanded, listed, todo, c);
  }

  lemma ExpandStepEntries(t: Tree, root: Path, stack: seq<Path>, expanded: set<Path>, listed: set<Path>, todo: set<Path>, c: Path)
    requires Frontier(t, root, stack, expanded, listed, todo) && c in todo
    ensures var listed', todo' := listed + {c}, todo - {c};
      && listed' <= Below(t, root) && todo' <= Below(t, root) && listed' !! todo'
      && (forall d :: d in expanded ==> d == root || (d in listed' && t[d].Dir?))
      && (forall d :: d in expanded ==> Children(t, d) <= listed' + todo')
      && (forall p :: p in listed' + todo' ==> Parent(p) in expanded)
  {
    assert listed + {c} + (todo - {c}) == listed + todo;
  }

  lemma ExpandStepStack(t: Tree, root: Path, stack: seq<Path>, expanded: set<Path>, listed: set<Path>, todo: set<Path>, c: Path)
    requires Frontier(t, root, stack, expanded, listed, todo) && c in todo
    ensures c in t
    ensures var listed', stack' := listed + {c}, if t[c].Dir? then stack + [c] else stack;
      && (forall d :: d in listed' && d in t && t[d].Dir? ==> d in expanded || d in stack')
      && (root in expanded || root in stack')
      && (forall i :: 0 <= i < |stack'| ==>
            stack'[i] !in expanded && (stack'[i] == root || (stack'[i] in listed' && stack'[i] in t && t[stack'[i]].Dir?)))
      && Distinct(stack')
  {
    ExpandStepFresh(t, root, stack, expanded, listed, todo, c);
    var stack' := if t[c].Dir? then stack + [c] else stack;
    Push(stack, c);
    forall i | 0 <= i < |stack'|
      ensures stack'[i] !in expanded && (stack'[i] == root || (stack'[i] in listed + {c} && t[stack'[i]].Dir?))
    {
      if i < |stack| {
        assert stack'[i] == stack[i];
      }
    }
  }

  /** An entry still to be met is neither expanded nor waiting. */
  lemma ExpandStepFresh(t: Tree, root: Path, stack: seq<Path>, expanded: set<Path>, listed: set<Path>, todo: set<Path>, c: Path)
    requires Frontier(t, root, stack, expanded, listed, todo) && c in todo
    ensures c !in stack && c != root && c !in expanded
  {
  }

  /** Appending to a sequence keeps its elements where they were. */
  lemma Push<T>(s: seq<T>, x: T)
    ensures (Distinct(s) && x !in s ==> Distinct(s + [x])) && (s + [x])[|s|] == x
    ensures forall i :: 0 <= i < |s| ==> (s + [x])[i] == s[i]
    ensures forall y :: y in s ==> y in s + [x]
  {
  }

  /** A walk whose stack is empty has met every entry below `root`. */
  lemma {:induction false} FrontierDone(t: Tree, root: Path, expanded: set<Path>, listed: set<Path>, p: Path, sep: char)
    requires Frontier(t, root, [], expanded, listed, {}) && WellFormed(t, sep)
    requires p in Below(t, root)
    ensures p in listed
    decreases |p|
  {
    Entry(t, p, sep);
    var q := Parent(p);
    if |q| > |root| {
      assert q in t && q[..|root|] == p[..|root|];
      FrontierDone(t, root, expanded, listed, q, sep);
    }
    assert p in Children(t, q);
  }

  /** The separator listdir_r puts after a directory. */
  function Tail(t: Tree, p: Path, sep: char): string {
    if p in t && t[p].Dir? then [sep] else []
  }

  /** How listdir_r prints `p` before the separators are changed: relative to
      `root` when `strip`, and with a trailing separator for a directory. */
  function Label(t: Tree, p: Path, root: Path, strip: bool, sep: char): string
    requires Within(p, root)
  {
    (if strip then RelRender(p[|root|..], sep) else Render(p, sep)) + Tail(t, p, sep)
  }

  /** How listdir_r prints `p`, with '/' for the separator when `unix`. */
  function Shown(t: Tree, p: Path, root: Path, strip: bool, unix: bool, sep: char): string
    requires Within(p, root)
  {
    var s := Label(t, p, root, strip, sep);
    if unix then UnixPathSep(s, sep) else s
  }

  /** Everything listdir_r should list. */
  ghost function ShownSet(t: Tree, root: Path, strip: bool, unix: bool, sep: char): set<string> {
    set p | p in Below(t, root) :: Shown(t, p, root, strip, unix, sep)
  }

  /** Every printed entry reads back as the entry it names: relative to
      `root` when stripped, on its own otherwise. */
  lemma ShownParses(t: Tree, p: Path, root: Path, strip: bool, unix: bool, sep: char)
    requires WellFormed(t, sep) && p in Below(t, root)
    ensures Parse(if strip then root else [], Shown(t, p, root, strip, unix, sep), sep) == p
  {
    var base := if strip then root else [];
    if strip {
      StrippedParses(t, p, root, sep);
    } else {
      AbsoluteParses(t, p, sep);
    }
    if unix {
      ParseUnix(base, Label(t, p, root, strip, sep), sep);
    }
  }

  /** An entry below `root` is `root` followed by a valid relative path. */
  lemma BelowEntry(t: Tree, p: Path, root: Path, sep: char)
    requires WellFormed(t, sep) && p in Below(t, root)
    ensures p == root + p[|root|..] && p[|root|..] != [] && ValidPath(p[|root|..], sep)
  {
    Entry(t, p, sep);
    var rel := p[|root|..];
    assert forall i :: 0 <= i < |rel| ==> rel[i] == p[|root| + i];
  }

  lemma StrippedParses(t: Tree, p: Path, root: Path, sep: char)
    requires WellFormed(t, sep) && p in Below(t, root)
    ensures Parse(root, Label(t, p, root, true, sep), sep) == p
  {
    BelowEntry(t, p, root, sep);
    var rel := p[|root|..];
    ParseRel(root, rel, sep);
    assert RelRender(rel, sep) + [] == RelRender(rel, sep);
  }

  lemma AbsoluteParses(t: Tree, p: Path, sep: char)
    requires WellFormed(t, sep) && p in t
    ensures forall root :: Within(p, root) ==> Parse([], Label(t, p, root, false, sep), sep) == p
  {
    Entry(t, p, sep);
    if t[p].Dir? {
      ParseRenderDir([], p, sep);
    } else {
      ParseRender([], p, sep);
      assert Render(p, sep) + [] == Render(p, sep);
    }
  }

  /** No two entries print alike, so each appears exactly once. */
  lemma ShownInjective(t: Tree, p: Path, q: Path, root: Path, strip: bool, unix: bool, sep: char)
    requires WellFormed(t, sep) && p in Below(t, root) && q in Below(t, root)
    requires Shown(t, p, root, strip, unix, sep) == Shown(t, q, root, strip, unix, sep)
    ensures p == q
  {
    ShownParses(t, p, root, strip, unix, sep);
    ShownParses(t, q, root, strip, unix, sep);
  }

  /** A directory prints with a trailing separator ('/' after `unixpathsep`),
      a file without one. */
  lemma ShownDirs(t: Tree, p: Path, root: Path, strip: bool, unix: bool, sep: char)
    requires WellFormed(t, sep) && p in Below(t, root)
    ensures var s := Shown(t, p, root, strip, unix, sep);
      s != [] && (t[p].Dir? <==> Last(s) == (if unix then '/' else sep))
  {
    var rel := p[|root|..];
    var body := if strip then RelRender(rel, sep) else Render(p, sep);
    ShownBody(t, p, root, strip, sep);
    assert Label(t, p, root, strip, sep) == body + Tail(t, p, sep);
    if unix {
      UnixLast(body, Tail(t, p, sep), sep);
    }
  }

  /** A printed entry, before its trailing separator, ends in a name. */
  lemma ShownBody(t: Tree, p: Path, root: Path, strip: bool, sep: char)
    requires WellFormed(t, sep) && p in Below(t, root)
    ensures var body := if strip then RelRender(p[|root|..], sep) else Render(p, sep);
      body != [] && Last(body) != sep && Last(body) != '/'
  {
    BelowEntry(t, p, root, sep);
    var rel := p[|root|..];
    if strip {
      JoinLast(rel, [sep]);
    } else {
      Entry(t, p, sep);
      JoinLast(p, [sep]);
    }
  }

  /** Changing the separators keeps the last character of a name, and turns
      a trailing separator into '/'. */
  lemma {:induction false} UnixLast(body: string, tail: string, sep: char)
    requires body != [] && Last(body) != sep && Last(body) != '/' && (tail == [] || tail == [sep])
    ensures var s := ReplaceChar(body + tail, sep, "/");
      s != [] && (tail == [sep] <==> Last(s) == '/')
  {
    var n := |body| - 1;
    ReplaceConcat(body[..n], [body[n]], sep, "/");
    assert body == body[..n] + [body[n]];
    ReplaceConcat(body, tail, sep, "/");
  }

  /** A list without repeats holds each of its elements once. */
  lemma {:induction false} DistinctCounts(s: seq<string>)
    requires Distinct(s)
    ensures forall x :: multiset(s)[x] == (if x in s then 1 else 0)
  {
    if s != [] {
      assert s == [s[0]] + s[1..];
      assert Distinct(s[1..]);
      DistinctCounts(s[1..]);
      assert s[0] !in s[1..];
    }
  }

  /** Printing each entry below `root` once gives the multiset of
      `ShownSet`. */
  lemma ListedOnce(t: Tree, root: Path, strip: bool, unix: bool, sep: char, ps: seq<Path>, x: seq<string>)
    requires WellFormed(t, sep) && Distinct(ps)
    requires forall p :: p in ps <==> p in Below(t, root)
    requires |x| == |ps|
    requires forall k :: 0 <= k < |ps| ==> ps[k] in Below(t, root) && x[k] == Shown(t, ps[k], root, strip, unix, sep)
    ensures multiset(x) == multiset(ShownSet(t, root, strip, unix, sep))
  {
    var all := ShownSet(t, root, strip, unix, sep);
    forall i, j | 0 <= i < j < |x| ensures x[i] != x[j] {
      if x[i] == x[j] {
        ShownInjective(t, ps[i], ps[j], root, strip, unix, sep);
      }
    }
    DistinctCounts(x);
    forall s ensures s in x <==> s in all {
      if s in x {
        var k :| 0 <= k < |x| && x[k] == s;
        assert ps[k] in Below(t, root);
      }
      if s in all {
        var p :| p in Below(t, root) && Shown(t, p, root, strip, unix, sep) == s;
        var k :| 0 <= k < |ps| && ps[k] == p;
        assert x[k] == s;
      }
    }
  }

  /** The walk itself: every entry below the directory `root`, each once,
      printed absolute with a separator after directories. */
  method Collect(t: Tree, root: Path, sep: char) returns (x: seq<string>, ghost ps: seq<Path>)
    requires WellFormed(t, sep) && IsDir(t, root)
    ensures Distinct(ps) && |x| == |ps|
    ensures forall p :: p in ps <==> p in Below(t, root)
    ensures forall k :: 0 <= k < |ps| ==> ps[k] in Below(t, root) && x[k] == Label(t, ps[k], root, false, sep)
  {
    var pending := [root];
    var dirs, files := [], [];
    ghost var expanded, listed := {}, {};
    ghost var dps, fps := [], [];
    while pending != []
      invariant Frontier(t, root, pending, expanded, listed, {})
      invariant Recorded(t, root, listed, dps, fps, dirs, files, sep)
      decreases |Nodes(t, root) - expanded|
    {
      var d := pending[|pending| - 1];
      ExpandStart(t, root, pending, expanded, listed);
      ghost var before := expanded;
      expanded := expanded + {d};
      pending, dirs, files, listed, dps, fps :=
        ListEntries(t, root, sep, Children(t, d), pending[..|pending| - 1], dirs, files, expanded, listed, dps, fps);
      Shrinks(Nodes(t, root), before, d);
    }
    Finish(t, root, expanded, listed, dps, fps, dirs, files, sep);
    x, ps := dirs + files, dps + fps;
  }

  lemma Shrinks(a: set<Path>, e: set<Path>, d: Path)
    requires d in a - e
    ensures |a - (e + {d})| < |a - e|
  {
    assert a - e == (a - (e + {d})) + {d};
  }

  /** The inner loop of listdir_r: the entries of one directory. */
  method ListEntries(t: Tree, root: Path, sep: char, kids: set<Path>, pending: seq<Path>, dirs: seq<string>, files: seq<string>,
                     ghost expanded: set<Path>, ghost listed: set<Path>, ghost dps: seq<Path>, ghost fps: seq<Path>)
    returns (pending': seq<Path>, dirs': seq<string>, files': seq<string>, ghost listed': set<Path>, ghost dps': seq<Path>, ghost fps': seq<Path>)
    requires Frontier(t, root, pending, expanded, listed, kids)
    requires Recorded(t, root, listed, dps, fps, dirs, files, sep)
    ensures Frontier(t, root, pending', expanded, listed', {})
    ensures Recorded(t, root, listed', dps', fps', dirs', files', sep)
  {
    pending', dirs', files', listed', dps', fps' := pending, dirs, files, listed, dps, fps;
    var todo := kids;
    while todo != {}
      invariant Frontier(t, root, pending', expanded, listed', todo)
      invariant Recorded(t, root, listed', dps', fps', dirs', files', sep)
      decreases |todo|
    {
      var c :| c in todo;
      ExpandStep(t, root, pending', expanded, listed', todo, c);
      RecordStep(t, root, listed', dps', fps', dirs', files', sep, c);
      todo := todo - {c};
      listed' := listed' + {c};
      if t[c].Dir? {
        pending' := pending' + [c];
        dirs' := dirs' + [Render(c, sep) + [sep]];
        dps' := dps' + [c];
      } else {
        files' := files' + [Render(c, sep)];
        fps' := fps' + [c];
      }
    }
  }

  /** listdir_r's `x = dirs; x.extend(files)` once the walk is over. */
  lemma Finish(t: Tree, root: Path, expanded: set<Path>, listed: set<Path>, dps: seq<Path>, fps: seq<Path>, dirs: seq<string>, files: seq<string>, sep: char)
    requires WellFormed(t, sep) && Frontier(t, root, [], expanded, listed, {})
    requires Recorded(t, root, listed, dps, fps, dirs, files, sep)
    ensures var x, ps := dirs + files, dps + fps;
      && Distinct(ps) && |x| == |ps|
      && (forall p :: p in ps <==> p in Below(t, root))
      && (forall k :: 0 <= k < |ps| ==> ps[k] in Below(t, root) && x[k] == Label(t, ps[k], root, false, sep))
  {
    forall p | p in Below(t, root) ensures p in listed {
      FrontierDone(t, root, expanded, listed, p, sep);
    }
    var x, ps := dirs + files, dps + fps;
    forall k | 0 <= k < |ps| ensures ps[k] in Below(t, root) && x[k] == Label(t, ps[k], root, false, sep) {
      if k >= |dps| {
        assert ps[k] == fps[k - |dps|] && x[k] == files[k - |dps|];
        assert Render(ps[k], sep) + [] == Render(ps[k], sep);
      }
    }
    forall i, j | 0 <= i < j < |ps| ensures ps[i] != ps[j] {
      if i < |dps| <= j {
        assert ps[j] == fps[j - |dps|];
      } else if |dps| <= i {
        assert ps[i] == fps[i - |dps|] && ps[j] == fps[j - |dps|];
      }
    }
  }

  /** Appending the entry `c` to `dirs` or `files`. */
  lemma RecordStep(t: Tree, root: Path, listed: set<Path>, dps: seq<Path>, fps: seq<Path>, dirs: seq<string>, files: seq<string>, sep: char, c: Path)
    requires Recorded(t, root, listed, dps, fps, dirs, files, sep) && c !in listed && c in t
    ensures t[c].Dir? ==> Recorded(t, root, listed + {c}, dps + [c], fps, dirs + [Render(c, sep) + [sep]], files, sep)
    ensures !t[c].Dir? ==> Recorded(t, root, listed + {c}, dps, fps + [c], dirs, files + [Render(c, sep)], sep)
  {
    if t[c].Dir? {
      assert c !in dps;
      Push(dps, c);
      Push(dirs, Render(c, sep) + [sep]);
    } else {
      assert c !in fps;
      Push(fps, c);
      Push(files, Render(c, sep));
    }
  }

  /** The lists `dirs` and `files` of listdir_r against the entries met. */
  ghost predicate Recorded(t: Tree, root: Path, listed: set<Path>, dps: seq<Path>, fps: seq<Path>, dirs: seq<string>, files: seq<string>, sep: char)
  {
    && Distinct(dps) && Distinct(fps) && |dirs| == |dps| && |files| == |fps|
    && (forall k :: 0 <= k < |dps| ==> dps[k] in listed && dps[k] in t && t[dps[k]].Dir?)
    && (forall k :: 0 <= k < |fps| ==> fps[k] in listed && fps[k] in t && !t[fps[k]].Dir?)
    && (forall p :: p in listed ==> p in dps || p in fps)
    && (forall k :: 0 <= k < |dps| ==> dirs[k] == Render(dps[k], sep) + [sep])
    && (forall k :: 0 <= k < |fps| ==> files[k] == Render(fps[k], sep))
  }

  /** listdir_r (mcp_deploy.py:131-162): every entry below the directory
      `root`, sorted, each once; `None` is the exception `os.listdir` raises
      when `root` is not a directory. The separators of each entry are changed
      after its start is stripped, as the source does. */
  method ListDirR(fs: FileSystem, root: Path, strip: bool, unix: bool) returns (r: Option<seq<string>>)
    requires fs.Valid() && ValidPath(root, fs.sep)
    ensures r.Some? <==> IsDir(fs.tree, root)
    ensures r.Some? ==> SortedBy(r.value, Id)
    ensures r.Some? ==> multiset(r.value) == multiset(ShownSet(fs.tree, root, strip, unix, fs.sep))
  {
    var t, sep := fs.tree, fs.sep;
    if !IsDir(t, root) {
      return None;
    }
    var x, ps := Collect(t, root, sep);
    if strip {
      forall k | 0 <= k < |x|
        ensures StripStart(x[k], Render(root, sep), sep) == Some(Label(t, ps[k], root, true, sep))
      {
        StripLabel(t, ps[k], root, sep);
      }
      x := StripEntries(x, Render(root, sep), sep);
    }
    if unix {
      x := UnixEntries(x, sep);
    }
    ListedOnce(t, root, strip, unix, sep, ps, x);
    r := Some(Sort(x));
  }

  /** The `stripstart` pass of listdir_r: every entry loses the printed
      directory `start` it begins with. */
  method StripEntries(x: seq<string>, start: string, sep: char) returns (z: seq<string>)
    requires forall k :: 0 <= k < |x| ==> StripStart(x[k], start, sep).Some?
    ensures |z| == |x|
    ensures forall k :: 0 <= k < |x| ==> z[k] == StripStart(x[k], start, sep).value
  {
    z := [];
    var i := 0;
    while i < |x|
      invariant 0 <= i <= |x| && |z| == i
      invariant forall k :: 0 <= k < i ==> z[k] == StripStart(x[k], start, sep).value
    {
      z := z + [StripStart(x[i], start, sep).value];
      i := i + 1;
    }
  }

  /** Stripping `root` from the printed entry leaves its relative form. */
  lemma StripLabel(t: Tree, p: Path, root: Path, sep: char)
    requires ValidPath(root, sep) && p in Below(t, root)
    ensures StripStart(Label(t, p, root, false, sep), Render(root, sep), sep) == Some(Label(t, p, root, true, sep))
  {
    var rel := p[|root|..];
    assert p == root + rel;
    StripStartRendered(root, rel, Tail(t, p, sep), sep);
  }

  /** The `useunixpathsep` pass of listdir_r. */
  method UnixEntries(x: seq<string>, sep: char) returns (z: seq<string>)
    ensures |z| == |x|
    ensures forall k :: 0 <= k < |x| ==> z[k] == UnixPathSep(x[k], sep)
  {
    z := [];
    var i := 0;
    while i < |x|
      invariant 0 <= i <= |x| && |z| == i
      invariant forall k :: 0 <= k < i ==> z[k] == UnixPathSep(x[k], sep)
    {
      z := z + [UnixPathSep(x[i], sep)];
      i := i + 1;
    }
  }

  /** One way of listing a finite set. */
  ghost function Enumerate(s: set<string>): (r: seq<string>)
    ensures multiset(r) == multiset(s)
    decreases |s|
  {
    if s == {} then []
    else
      var x :| x in s;
      var r := [x] + Enumerate(s - {x});
      assert multiset(s) == multiset{x} + multiset(s - {x}) by {
        assert s == {x} + (s - {x});
      }
      r
  }

  /** What listdir_r returns for a directory. */
  ghost function Listing(t: Tree, root: Path, strip: bool, unix: bool, sep: char): seq<string>
  {
    Sort(Enumerate(ShownSet(t, root, strip, unix, sep)))
  }

  /** listdir_r's result is determined by the tree: any sorted list of the
      entries, each once, is `Listing`. */
  lemma ListingUnique(t: Tree, root: Path, strip: bool, unix: bool, sep: char, r: seq<string>)
    requires SortedBy(r, Id) && multiset(r) == multiset(ShownSet(t, root, strip, unix, sep))
    ensures r == Listing(t, root, strip, unix, sep)
  {
    SortedUnique(r, Listing(t, root, strip, unix, sep));
  }

  // ---------------------------------------------------------------------
  // copydir

  /** Where copydir puts the entry `p` of `src`: `src` keeps its own name
      under `dst`. */
  function Target(src: Path, dst: Path, p: Path): Path
    requires src != [] && Within(p, src)
  {
    dst + p[|src| - 1..]
  }

  /** copydir as written with a destination inside the source: the target
      of every path inside `src` is a deeper path, again inside `src`, so
      the walk lists what it has just created. */
  lemma CopyNests(src: Path, dst: Path, p: Path)
    requires src != [] && Within(dst, src) && Within(p, src)
    ensures Within(Target(src, dst, p), src) && |Target(src, dst, p)| > |p|
  {
    assert Target(src, dst, p)[..|src|] == dst[..|src|];
  }

  /** The directory copydir creates after `n` rounds of copying the copy of
      `p`; for copydir("/w/a", "/w/a/b") these are "/w/a/b/a/b",
      "/w/a/b/a/b/a/b" and so on, without end. */
  function Recopy(src: Path, dst: Path, p: Path, n: nat): (r: Path)
    requires src != [] && Within(dst, src) && Within(p, src)
    ensures Within(r, src) && |r| >= |p| + n
    decreases n
  {
    if n == 0 then p
    else
      CopyNests(src, dst, p);
      Recopy(src, dst, Target(src, dst, p), n - 1)
  }

  /** `src` and the copy of it under `dst` do not overlap. */
  predicate Apart(src: Path, dst: Path) {
    src != [] && !Within(dst + [Last(src)], src) && !Within(src, dst + [Last(src)])
  }

  /** Nothing within `src` differs between `t` and `u`. */
  ghost predicate SameUnder(t: Tree, u: Tree, src: Path) {
    forall q :: Within(q, src) ==> (q in u <==> q in t) && (q in t ==> u[q] == t[q])
  }

  /** The entries of `listed` have been copied from `t` into `u`. */
  ghost predicate Copied(t: Tree, u: Tree, src: Path, dst: Path, listed: set<Path>)
    requires src != []
  {
    forall p :: p in listed && p in t && Within(p, src) ==>
      Target(src, dst, p) in u && (t[p].File? ==> u[Target(src, dst, p)] == t[p])
  }

  /** What copydir keeps true while it runs. */
  ghost predicate Copying(t: Tree, u: Tree, src: Path, dst: Path, listed: set<Path>)
    requires src != []
  {
    SameUnder(t, u, src) && Contained(t, u, dst) && Copied(t, u, src, dst, listed)
  }

  /** The entry of `src` whose copy is `q`, for a `q` below `dst`. */
  function Source(src: Path, dst: Path, q: Path): Path
    requires src != [] && |dst| <= |q|
  {
    src[..|src| - 1] + q[|dst|..]
  }

  /** What copydir may leave at `q`: a directory on the way to the copy
      `dst/<last name of src>`, or the copy of an entry of `src` (a file's
      data, or a directory). */
  ghost predicate Made(t: Tree, src: Path, dst: Path, q: Path, n: Node)
    requires src != []
  {
    (Within(dst + [Last(src)], q) && n == Dir)
    || (Within(q, dst + [Last(src)]) && |q| > |dst| + 1 && Source(src, dst, q) in Below(t, src)
        && n == (if t[Source(src, dst, q)].File? then t[Source(src, dst, q)] else Dir))
  }

  /** Every entry of `u` that is new or differs from `t` is one copydir makes. */
  ghost predicate CopyOnly(t: Tree, u: Tree, src: Path, dst: Path)
    requires src != []
  {
    forall q :: q in u && (q !in t || u[q] != t[q]) ==> Made(t, src, dst, q, u[q])
  }

  /** The case in which copydir cannot fail: `src` and its copy are
      directories and no entry of `src` has a copy yet. */
  ghost predicate Clear(t: Tree, src: Path, dst: Path)
    requires src != []
  {
    IsDir(t, src) && IsDir(t, dst + [Last(src)])
    && forall p :: p in Below(t, src) ==> Target(src, dst, p) !in t
  }

  /** The copy of `p` comes from `p`. */
  lemma SourceTarget(src: Path, dst: Path, p: Path)
    requires src != [] && Within(p, src)
    ensures Source(src, dst, Target(src, dst, p)) == p
  {
    assert src[..|src| - 1] == p[..|src| - 1];
    assert p == p[..|src| - 1] + p[|src| - 1..];
  }

  /** An ancestor of the copy of `c`, below the copy root, is the copy of an
      ancestor of `c`, which is a directory of `src`. */
  lemma TargetAncestor(t: Tree, src: Path, dst: Path, c: Path, k: nat, sep: char)
    requires WellFormed(t, sep) && src != [] && c in Below(t, src)
    requires |dst| + 1 < k <= |Target(src, dst, c)|
    ensures var q := Target(src, dst, c)[..k];
      Within(q, dst + [Last(src)]) && Source(src, dst, q) == c[..k - |dst| + |src| - 1]
      && Source(src, dst, q) in Below(t, src) && Target(src, dst, Source(src, dst, q)) == q
      && (k < |Target(src, dst, c)| ==> t[Source(src, dst, q)] == Dir)
  {
    var tc := Target(src, dst, c);
    var q := tc[..k];
    var j := k - |dst| + |src| - 1;
    assert q == dst + c[|src| - 1..j];
    assert c[..j] == c[..|src| - 1] + c[|src| - 1..j];
    assert c[..|src| - 1] == src[..|src| - 1];
    assert c[..j][..|src|] == src;
    assert Source(src, dst, q) == c[..j];
    if k < |tc| {
      AncestorsAreDirs(t, c, j, sep);
    } else {
      assert c[..j] == c;
    }
  }

  /** A prefix of the copy root in a tree where the root is a directory
      stays a directory under copydir. */
  lemma RootPrefixDir(t: Tree, u: Tree, src: Path, dst: Path, q: Path, sep: char)
    requires WellFormed(t, sep) && src != [] && IsDir(t, dst + [Last(src)])
    requires CopyOnly(t, u, src, dst) && (forall x :: x in t ==> x in u)
    requires q != [] && Within(dst + [Last(src)], q)
    ensures q in u && u[q] == Dir
  {
    var r := dst + [Last(src)];
    if |q| < |r| {
      AncestorsAreDirs(t, r, |q|, sep);
      assert r[..|q|] == q;
    } else {
      assert q == r[..|r|] == r;
    }
    assert q in t && t[q] == Dir;
    if u[q] != t[q] {
      assert Made(t, src, dst, q, u[q]);
    }
  }

  /** A prefix of a path within the copy lies outside `src`. */
  lemma Outside(src: Path, dst: Path, x: Path, q: Path)
    requires Apart(src, dst) && Within(x, dst + [Last(src)]) && |q| <= |x| && q == x[..|q|]
    ensures !Within(q, src)
  {
  }

  lemma TargetInjective(src: Path, dst: Path, p: Path, q: Path)
    requires src != [] && Within(p, src) && Within(q, src)
    requires Target(src, dst, p) == Target(src, dst, q)
    ensures p == q
  {
    var n := |src| - 1;
    assert p[n..] == Target(src, dst, p)[|dst|..];
    assert q[n..] == Target(src, dst, q)[|dst|..];
    assert p == p[..n] + p[n..] && q == q[..n] + q[n..];
    assert p[..n] == src[..n] == q[..n];
  }

  lemma ChildrenSame(t: Tree, u: Tree, src: Path, d: Path)
    requires SameUnder(t, u, src) && Within(d, src)
    ensures Children(u, d) == Children(t, d)
  {
    forall c | Within(c, d) ensures Within(c, src) {
      assert c[..|src|] == c[..|d|][..|src|];
    }
  }

  /** copydir (mcp_deploy.py:109-129): copies the directory `src` into `dst`
      as `dst/<last name of src>`, creating `dst` when it is not a directory.
      Every directory below `src` is created with `mkdir_p` and every file
      copied with `shutil.copyfile`; `ok == false` is the first exception.
      Nothing outside `dst` changes except for missing ancestors of `dst`,
      and on success every entry of `src` has its copy. */
  method CopyDir(fs: FileSystem, src: Path, dst: Path) returns (ok: bool)
    requires fs.Valid() && ValidPath(src, fs.sep) && ValidPath(dst, fs.sep) && Apart(src, dst)
    modifies fs
    ensures fs.Valid()
    ensures Contained(old(fs.tree), fs.tree, dst)
    ensures SameUnder(old(fs.tree), fs.tree, src)
    ensures ok ==> IsDir(old(fs.tree), src)
    ensures ok ==> Copied(old(fs.tree), fs.tree, src, dst, Below(old(fs.tree), src))
    ensures CopyOnly(old(fs.tree), fs.tree, src, dst)
    ensures Clear(old(fs.tree), src, dst) ==> ok
  {
    ghost var t := fs.tree;
    if Clear(t, src, dst) {
      AncestorsAreDirs(t, dst + [Last(src)], |dst|, fs.sep);
      assert (dst + [Last(src)])[..|dst|] == dst;
    }
    if !IsDir(fs.tree, dst) {
      ok := fs.MakeDirs(dst);
      if !ok {
        return;
      }
      StartCopy(t, src, dst);
      StartOnly(t, src, dst);
    }
    ok := CopyTree(fs, src, dst, t);
  }

  /** `mkdir_p(dst)` creates only directories on the way to the copy root. */
  lemma StartOnly(t: Tree, src: Path, dst: Path)
    requires src != [] && Mkdirs(t, dst).Some?
    ensures CopyOnly(t, Mkdirs(t, dst).value, src, dst)
  {
    var u := Mkdirs(t, dst).value;
    forall q | q in u && (q !in t || u[q] != t[q]) ensures Made(t, src, dst, q, u[q]) {
      assert (dst + [Last(src)])[..|q|] == dst[..|q|];
    }
  }

  /** The walk of copydir over `src`, on a tree that agrees with `t` within
      `src`. */
  method CopyTree(fs: FileSystem, src: Path, dst: Path, ghost t: Tree) returns (ok: bool)
    requires fs.Valid() && WellFormed(t, fs.sep) && ValidPath(src, fs.sep) && ValidPath(dst, fs.sep) && Apart(src, dst)
    requires Copying(t, fs.tree, src, dst, {}) && CopyOnly(t, fs.tree, src, dst)
    modifies fs
    ensures fs.Valid() && Contained(t, fs.tree, dst) && SameUnder(t, fs.tree, src)
    ensures ok ==> IsDir(t, src) && Copied(t, fs.tree, src, dst, Below(t, src))
    ensures CopyOnly(t, fs.tree, src, dst) && (Clear(t, src, dst) ==> ok)
  {
    var pending := [src];
    ghost var expanded, listed := {}, {};
    while pending != []
      invariant fs.Valid() && Frontier(t, src, pending, expanded, listed, {})
      invariant Copying(t, fs.tree, src, dst, listed) && CopyOnly(t, fs.tree, src, dst)
      invariant src in expanded ==> IsDir(t, src)
      decreases |Nodes(t, src) - expanded|
    {
      ok, pending, expanded, listed := CopyNext(fs, src, dst, t, pending, expanded, listed);
      if !ok {
        return;
      }
    }
    CopyDone(t, fs.tree, src, dst, expanded, listed, fs.sep);
    ok := true;
  }

  /** One round of the walk: the last directory waiting is listed and its
      entries copied. */
  method CopyNext(fs: FileSystem, src: Path, dst: Path, ghost t: Tree, pending: seq<Path>,
                  ghost expanded: set<Path>, ghost listed: set<Path>)
    returns (ok: bool, pending': seq<Path>, ghost expanded': set<Path>, ghost listed': set<Path>)
    requires fs.Valid() && WellFormed(t, fs.sep) && ValidPath(src, fs.sep) && ValidPath(dst, fs.sep) && Apart(src, dst)
    requires Frontier(t, src, pending, expanded, listed, {}) && pending != []
    requires Copying(t, fs.tree, src, dst, listed) && CopyOnly(t, fs.tree, src, dst)
    requires src in expanded ==> IsDir(t, src)
    modifies fs
    ensures fs.Valid() && Contained(t, fs.tree, dst) && SameUnder(t, fs.tree, src)
    ensures CopyOnly(t, fs.tree, src, dst) && (Clear(t, src, dst) ==> ok)
    ensures ok ==> Frontier(t, src, pending', expanded', listed', {}) && Copying(t, fs.tree, src, dst, listed')
    ensures ok ==> (src in expanded' ==> IsDir(t, src)) && |Nodes(t, src) - expanded'| < |Nodes(t, src) - expanded|
  {
    var d := pending[|pending| - 1];
    ExpandStart(t, src, pending, expanded, listed);
    assert Within(d, src);
    assert Clear(t, src, dst) ==> IsDir(fs.tree, d);
    if !IsDir(fs.tree, d) {
      return false, pending, expanded, listed;
    }
    ChildrenSame(t, fs.tree, src, d);
    expanded' := expanded + {d};
    ok, pending', listed' := CopyEntries(fs, src, dst, Children(fs.tree, d), pending[..|pending| - 1], t, expanded', listed);
    if ok {
      Shrinks(Nodes(t, src), expanded, d);
    }
  }

  lemma CopyDone(t: Tree, u: Tree, src: Path, dst: Path, expanded: set<Path>, listed: set<Path>, sep: char)
    requires src != [] && WellFormed(t, sep) && Frontier(t, src, [], expanded, listed, {})
    requires Copying(t, u, src, dst, listed)
    ensures Copied(t, u, src, dst, Below(t, src))
  {
    forall p | p in Below(t, src) ensures p in listed {
      FrontierDone(t, src, expanded, listed, p, sep);
    }
  }

  /** `mkdir_p(dst)` before the walk. */
  lemma StartCopy(t: Tree, src: Path, dst: Path)
    requires Apart(src, dst) && Mkdirs(t, dst).Some?
    ensures Copying(t, Mkdirs(t, dst).value, src, dst, {})
  {
    forall q | q in Mkdirs(t, dst).value && q !in t ensures !Within(q, src) {
      Outside(src, dst, dst + [Last(src)], q);
    }
    MkdirsContained(t, dst, dst);
  }

  /** The inner loop of copydir: the entries of one directory. */
  method CopyEntries(fs: FileSystem, src: Path, dst: Path, kids: set<Path>, pending: seq<Path>,
                     ghost t: Tree, ghost expanded: set<Path>, ghost listed: set<Path>)
    returns (ok: bool, pending': seq<Path>, ghost listed': set<Path>)
    requires fs.Valid() && WellFormed(t, fs.sep) && ValidPath(src, fs.sep) && ValidPath(dst, fs.sep) && Apart(src, dst)
    requires Frontier(t, src, pending, expanded, listed, kids)
    requires Copying(t, fs.tree, src, dst, listed) && CopyOnly(t, fs.tree, src, dst)
    modifies fs
    ensures fs.Valid() && Contained(t, fs.tree, dst) && SameUnder(t, fs.tree, src)
    ensures CopyOnly(t, fs.tree, src, dst) && (Clear(t, src, dst) ==> ok)
    ensures ok ==> Frontier(t, src, pending', expanded, listed', {})
    ensures ok ==> Copying(t, fs.tree, src, dst, listed')
  {
    ok, pending', listed' := true, pending, listed;
    var todo := kids;
    while todo != {}
      invariant fs.Valid() && Frontier(t, src, pending', expanded, listed', todo)
      invariant Copying(t, fs.tree, src, dst, listed') && CopyOnly(t, fs.tree, src, dst)
      decreases |todo|
    {
      var c :| c in todo;
      ExpandStep(t, src, pending', expanded, listed', todo, c);
      assert Parent(c) == src || Parent(c) in listed';
      ok := CopyEntry(fs, src, dst, c, t, listed');
      if !ok {
        return;
      }
      todo := todo - {c};
      listed' := listed' + {c};
      if fs.tree[c].Dir? {
        pending' := pending' + [c];
      }
    }
  }

  /** The path copydir computes for `c` is its target. */
  lemma TargetPath(src: Path, dst: Path, c: Path, sep: char)
    requires Apart(src, dst) && ValidPath(src, sep) && ValidPath(c, sep) && Within(c, src) && |c| > |src|
    ensures var s := StripStart(Render(c, sep), Render(Parent(src), sep), sep);
      s.Some? && Parse(dst, s.value, sep) == Target(src, dst, c)
    ensures Within(Target(src, dst, c), dst + [Last(src)])
  {
    var rel := c[|src| - 1..];
    assert c == Parent(src) + rel;
    SuffixValid(c, |src| - 1, sep);
    StripStartRendered(Parent(src), rel, "", sep);
    assert Render(c, sep) + "" == Render(c, sep);
    ParseRel(dst, rel, sep);
    assert RelRender(rel, sep) + "" == RelRender(rel, sep);
    TargetWithin(src, dst, c);
  }

  lemma SuffixValid(c: Path, k: nat, sep: char)
    requires ValidPath(c, sep) && k <= |c|
    ensures ValidPath(c[k..], sep)
  {
    forall i | 0 <= i < |c| - k ensures ValidName(c[k..][i], sep) {
      assert c[k..][i] == c[k + i];
    }
  }

  /** The copy of an entry of `src` lies within the copy root. */
  lemma TargetWithin(src: Path, dst: Path, c: Path)
    requires src != [] && Within(c, src) && |c| > |src|
    ensures Target(src, dst, c) == dst + c[|src| - 1..]
    ensures Within(Target(src, dst, c), dst + [Last(src)])
  {
    var rel := c[|src| - 1..];
    assert rel[0] == c[|src| - 1] == Last(src);
    assert (dst + rel)[..|dst| + 1] == dst + [rel[0]];
  }

  /** Creating the copy of the directory `c`. */
  lemma MkdirsCopying(t: Tree, u: Tree, src: Path, dst: Path, listed: set<Path>, c: Path)
    requires Apart(src, dst) && Within(c, src) && c in t && t[c].Dir? && c !in listed
    requires Within(Target(src, dst, c), dst + [Last(src)])
    requires Copying(t, u, src, dst, listed)
    ensures Mkdirs(u, Target(src, dst, c)).Some? ==>
      Copying(t, Mkdirs(u, Target(src, dst, c)).value, src, dst, listed + {c})
  {
    var tf := Target(src, dst, c);
    if Mkdirs(u, tf).None? { return; }
    var v := Mkdirs(u, tf).value;
    forall q | q in v && q !in u ensures !Within(q, src) {
      Outside(src, dst, tf, q);
    }
    MkdirsContained(u, tf, dst);
    ContainedTrans(t, u, v, dst);
  }

  /** Copying the file `c`. */
  lemma CopyCopying(t: Tree, u: Tree, src: Path, dst: Path, listed: set<Path>, c: Path)
    requires Apart(src, dst) && Within(c, src) && c in t && t[c].File? && c !in listed
    requires Within(Target(src, dst, c), dst + [Last(src)])
    requires Copying(t, u, src, dst, listed)
    ensures CopyFile(u, c, Target(src, dst, c)).Some? ==>
      Copying(t, CopyFile(u, c, Target(src, dst, c)).value, src, dst, listed + {c})
  {
    var tf := Target(src, dst, c);
    if CopyFile(u, c, tf).None? { return; }
    var v := CopyFile(u, c, tf).value;
    Outside(src, dst, tf, tf);
    forall p | p in listed && p in t && Within(p, src) ensures Target(src, dst, p) != tf {
      if Target(src, dst, p) == tf { TargetInjective(src, dst, p, c); }
    }
    assert Contained(u, v, dst);
    ContainedTrans(t, u, v, dst);
  }

  /** Creating the copy of the directory `c` makes only what copydir makes. */
  lemma MkdirsOnly(t: Tree, u: Tree, src: Path, dst: Path, c: Path, sep: char)
    requires WellFormed(t, sep) && src != [] && c in Below(t, src) && t[c].Dir?
    requires Within(Target(src, dst, c), dst + [Last(src)])
    requires CopyOnly(t, u, src, dst)
    ensures Mkdirs(u, Target(src, dst, c)).Some? ==>
      CopyOnly(t, Mkdirs(u, Target(src, dst, c)).value, src, dst)
  {
    var tf := Target(src, dst, c);
    if Mkdirs(u, tf).None? { return; }
    var v := Mkdirs(u, tf).value;
    forall q | q in v && (q !in t || v[q] != t[q]) ensures Made(t, src, dst, q, v[q]) {
      if q !in u {
        assert v[q] == Dir && q == tf[..|q|];
        if |q| <= |dst| + 1 {
          assert (dst + [Last(src)])[..|q|] == tf[..|q|];
        } else {
          TargetAncestor(t, src, dst, c, |q|, sep);
          if |q| == |tf| { assert q == tf; SourceTarget(src, dst, c); }
        }
      }
    }
  }

  /** Copying the file `c` makes only what copydir makes. */
  lemma CopyFileOnly(t: Tree, u: Tree, src: Path, dst: Path, c: Path)
    requires src != [] && c in Below(t, src) && t[c].File? && c in u && u[c] == t[c]
    requires Within(Target(src, dst, c), dst + [Last(src)])
    requires CopyOnly(t, u, src, dst)
    ensures CopyFile(u, c, Target(src, dst, c)).Some? ==>
      CopyOnly(t, CopyFile(u, c, Target(src, dst, c)).value, src, dst)
  {
    var tf := Target(src, dst, c);
    SourceTarget(src, dst, c);
    assert |tf| > |dst| + 1;
  }

  /** In the clear case `mkdir_p` of the copy of a directory succeeds: every
      ancestor of the copy is a directory or missing. */
  lemma MkdirsClear(t: Tree, u: Tree, src: Path, dst: Path, c: Path, sep: char)
    requires WellFormed(t, sep) && WellFormed(u, sep) && src != [] && c in Below(t, src)
    requires Clear(t, src, dst) && CopyOnly(t, u, src, dst) && (forall x :: x in t ==> x in u)
    requires Within(Target(src, dst, c), dst + [Last(src)])
    ensures Mkdirs(u, Target(src, dst, c)).Some?
  {
    var tf := Target(src, dst, c);
    MkdirsFails(u, tf, sep);
    forall k | 0 < k < |tf| ensures !IsFile(u, tf[..k]) {
      var q := tf[..k];
      if k <= |dst| + 1 {
        assert (dst + [Last(src)])[..k] == q;
        RootPrefixDir(t, u, src, dst, q, sep);
      } else {
        TargetAncestor(t, src, dst, c, k, sep);
      }
    }
  }

  /** In the clear case `copyfile` of a file succeeds once its parent
      directory has been copied (or is `src` itself). */
  lemma CopyClear(t: Tree, u: Tree, src: Path, dst: Path, c: Path, listed: set<Path>, sep: char)
    requires WellFormed(t, sep) && Apart(src, dst) && c in Below(t, src) && t[c].File?
    requires Clear(t, src, dst) && Copying(t, u, src, dst, listed) && CopyOnly(t, u, src, dst)
    requires listed <= Below(t, src) && (Parent(c) == src || Parent(c) in listed)
    requires Within(Target(src, dst, c), dst + [Last(src)])
    ensures CopyFile(u, c, Target(src, dst, c)).Some?
  {
    var tf := Target(src, dst, c);
    var r := dst + [Last(src)];
    Outside(src, dst, tf, tf);
    SourceTarget(src, dst, c);
    assert Parent(tf) == Target(src, dst, Parent(c));
    if Parent(c) == src {
      assert Parent(tf) == r;
      RootPrefixDir(t, u, src, dst, r, sep);
    } else {
      TargetAncestor(t, src, dst, c, |tf| - 1, sep);
      assert tf[..|tf| - 1] == Parent(tf);
    }
  }

  /** With the copy root missing, a file directly inside `src` cannot be
      copied: copydir creates only `dst`, so it relies on a directory of
      `src` listed earlier to have created the root. */
  lemma CopyRootMissing(u: Tree, src: Path, dst: Path, c: Path)
    requires src != [] && Within(c, src) && |c| == |src| + 1
    requires dst + [Last(src)] !in u
    ensures CopyFile(u, c, Target(src, dst, c)).None?
  {
    assert Parent(Target(src, dst, c)) == dst + [Last(src)];
  }

  /** One entry `c` of copydir: `mkdir_p` for a directory, `shutil.copyfile`
      for a file, at `os.path.join(dst, stripstartpath(c, dirname(src)))`. */
  method CopyEntry(fs: FileSystem, src: Path, dst: Path, c: Path, ghost t: Tree, ghost listed: set<Path>) returns (ok: bool)
    requires fs.Valid() && WellFormed(t, fs.sep) && ValidPath(src, fs.sep) && ValidPath(dst, fs.sep) && Apart(src, dst)
    requires c in Below(t, src) && c !in listed
    requires Copying(t, fs.tree, src, dst, listed) && CopyOnly(t, fs.tree, src, dst)
    requires listed <= Below(t, src) && (Parent(c) == src || Parent(c) in listed)
    modifies fs
    ensures fs.Valid() && Contained(t, fs.tree, dst) && SameUnder(t, fs.tree, src)
    ensures ok ==> Copying(t, fs.tree, src, dst, listed + {c})
    ensures CopyOnly(t, fs.tree, src, dst) && (Clear(t, src, dst) ==> ok)
  {
    var sep := fs.sep;
    assert c in t && Within(c, src) && ValidPath(c, sep);
    assert c in fs.tree && fs.tree[c] == t[c];
    TargetPath(src, dst, c, sep);
    var tf := Parse(dst, StripStart(Render(c, sep), Render(Parent(src), sep), sep).value, sep);
    ParseValid(dst, StripStart(Render(c, sep), Render(Parent(src), sep), sep).value, sep);
    if fs.tree[c].Dir? {
      MkdirsCopying(t, fs.tree, src, dst, listed, c);
      MkdirsOnly(t, fs.tree, src, dst, c, sep);
      if Clear(t, src, dst) {
        MkdirsClear(t, fs.tree, src, dst, c, sep);
      }
      ok := fs.MakeDirs(tf);
    } else {
      CopyCopying(t, fs.tree, src, dst, listed, c);
      CopyFileOnly(t, fs.tree, src, dst, c);
      if Clear(t, src, dst) {
        CopyClear(t, fs.tree, src, dst, c, listed, sep);
      }
      ok := fs.Copy(c, tf);
    }
  }

  // ---------------------------------------------------------------------
  // zipfolders

  /** What `zip1.write(p, name)` stores for the listed path `p`: the data of
      a file, nothing for a directory. */
  function Stored(t: Tree, p: string, name: string, sep: char): Member {
    var q := Parse([], p, sep);
    Member(name, if IsFile(t, q) then t[q].data else Raw([]), true)
  }

  /** `unixpathsep(stripstartpath(p, d))`: the name zipfolders gives the
      listed path `p` of the folder `d`. */
  function ArcName(p: string, d: string, sep: char): Option<string>
  {
    match StripStart(p, d, sep)
    case None => None
    case Some(rel) => Some(UnixPathSep(rel, sep))
  }

  /** The member name exists exactly when the strip succeeds, and on a
      host whose separator is not '/' it holds no host separator. */
  lemma ArcNameFacts(p: string, d: string, sep: char)
    ensures var r := ArcName(p, d, sep);
      (r.Some? <==> StripStart(p, d, sep).Some?) && (r.Some? && sep != '/' ==> sep !in r.value)
  {
  }

  /** The member name as written: `stripstartpath` drops the first
      character after `d` even when `d` itself ends in the separator. It
      agrees with `ArcName` for every folder that does not. */
  function ArcNameAsWritten(p: string, d: string, sep: char): (r: Option<string>)
    ensures r.Some? <==> ArcName(p, d, sep).Some?
    ensures d != "" && Last(d) != sep ==> r == ArcName(p, d, sep)
  {
    match StripStartPath(p, d)
    case None => None
    case Some(rel) => Some(UnixPathSep(rel, sep))
  }

  /** A folder given with a trailing separator: the original names the
      entry "/w/res/a.txt" ".txt", the corrected strip "a.txt". */
  lemma ArcNameDropsAfterSep()
    ensures ArcNameAsWritten("/w/res/a.txt", "/w/res/", '/') == Some(".txt")
    ensures ArcName("/w/res/a.txt", "/w/res/", '/') == Some("a.txt")
  {
    var p, d := "/w/res/a.txt", "/w/res/";
    assert OccursAt(p, d, 0) by { assert p[..|d|] == d; }
    assert Find(p, d) == Some(0);
    assert p[|d|..] == "a.txt";
    assert UnixPathSep(".txt", '/') == ".txt";
    assert UnixPathSep("a.txt", '/') == "a.txt";
  }

  /** With a folder that ends in the separator, the corrected name of an
      entry is all the text after the folder. */
  lemma ArcNameTrailingSep(d: string, rel: string, sep: char)
    requires d != "" && Last(d) == sep
    ensures ArcName(d + rel, d, sep) == Some(UnixPathSep(rel, sep))
  {
    assert OccursAt(d + rel, d, 0) by { assert (d + rel)[..|d|] == d; }
    assert Find(d + rel, d) == Some(0);
    assert (d + rel)[|d|..] == rel;
  }

  /** The members for the listed paths `ps` of the folder `d`, in order;
      `None` is the exception stripstartpath raises. */
  function RootMembers(t: Tree, ps: seq<string>, d: string, sep: char): (r: Option<seq<Member>>)
    ensures r.Some? ==> |r.value| == |ps|
    decreases |ps|
  {
    if ps == [] then Some([])
    else match ArcName(ps[0], d, sep)
      case None => None
      case Some(name) =>
        match RootMembers(t, ps[1..], d, sep)
        case None => None
        case Some(rest) => Some([Stored(t, ps[0], name, sep)] + rest)
  }

  /** The folder's members exist exactly when every listed path lies in the
      folder, and then the k-th member stores the k-th path under its
      relative name. */
  lemma RootMembersMeaning(t: Tree, ps: seq<string>, d: string, sep: char)
    ensures var r := RootMembers(t, ps, d, sep);
      (r.Some? <==> forall k :: 0 <= k < |ps| ==> ArcName(ps[k], d, sep).Some?)
      && (r.Some? ==> forall k :: 0 <= k < |ps| ==> r.value[k] == Stored(t, ps[k], ArcName(ps[k], d, sep).value, sep))
  {
    RootMembersSome(t, ps, d, sep);
    if RootMembers(t, ps, d, sep).Some? {
      RootMembersAt(t, ps, d, sep);
    }
  }

  lemma {:induction false} RootMembersSome(t: Tree, ps: seq<string>, d: string, sep: char)
    ensures RootMembers(t, ps, d, sep).Some? <==> forall k :: 0 <= k < |ps| ==> ArcName(ps[k], d, sep).Some?
    decreases |ps|
  {
    if ps != [] {
      var tail := ps[1..];
      RootMembersSome(t, tail, d, sep);
      assert forall k :: 1 <= k < |ps| ==> ps[k] == tail[k - 1];
      if ArcName(ps[0], d, sep).Some? && RootMembers(t, tail, d, sep).None? {
        var k :| 0 <= k < |tail| && ArcName(tail[k], d, sep).None?;
        assert ArcName(ps[k + 1], d, sep).None?;
      }
    }
  }

  lemma {:induction false} RootMembersAt(t: Tree, ps: seq<string>, d: string, sep: char)
    requires RootMembers(t, ps, d, sep).Some?
    ensures forall k :: 0 <= k < |ps| ==>
      ArcName(ps[k], d, sep).Some? && RootMembers(t, ps, d, sep).value[k] == Stored(t, ps[k], ArcName(ps[k], d, sep).value, sep)
    decreases |ps|
  {
    if ps != [] {
      var tail := ps[1..];
      RootMembersAt(t, tail, d, sep);
      var rest := RootMembers(t, tail, d, sep).value;
      var r := RootMembers(t, ps, d, sep).value;
      assert r == [Stored(t, ps[0], ArcName(ps[0], d, sep).value, sep)] + rest;
      forall k | 0 <= k < |ps|
        ensures ArcName(ps[k], d, sep).Some? && r[k] == Stored(t, ps[k], ArcName(ps[k], d, sep).value, sep)
      {
        if k > 0 {
          assert ps[k] == tail[k - 1] && r[k] == rest[k - 1];
        }
      }
    }
  }

  /** One path outside the folder makes the whole folder fail. */
  lemma RootMembersNone(t: Tree, ps: seq<string>, d: string, sep: char, j: nat)
    requires j < |ps| && ArcName(ps[j], d, sep).None?
    ensures RootMembers(t, ps, d, sep) == None
  {
    RootMembersSome(t, ps, d, sep);
  }

  /** Members stored for every path, in order, are the folder's members. */
  lemma RootMembersAll(t: Tree, ps: seq<string>, d: string, sep: char, ms: seq<Member>)
    requires |ms| == |ps|
    requires forall k :: 0 <= k < |ps| ==>
      ArcName(ps[k], d, sep).Some? && ms[k] == Stored(t, ps[k], ArcName(ps[k], d, sep).value, sep)
    ensures RootMembers(t, ps, d, sep) == Some(ms)
  {
    RootMembersMeaning(t, ps, d, sep);
    assert RootMembers(t, ps, d, sep).value == ms;
  }

  /** The members of the folders `roots`, appended to `acc`; `None` is an
      exception from listdir_r or stripstartpath. */
  ghost function ZipAll(t: Tree, roots: seq<string>, cwd: Path, sep: char, acc: seq<Member>): Option<seq<Member>>
    decreases |roots|
  {
    if roots == [] then Some(acc)
    else
      var root := Parse(cwd, roots[0], sep);
      if !IsDir(t, root) then None
      else match RootMembers(t, Listing(t, root, false, false, sep), roots[0], sep)
        case None => None
        case Some(ms) => ZipAll(t, roots[1..], cwd, sep, acc + ms)
  }

  /** zipfolders as a whole: the archive is created empty, filled folder by
      folder in sorted order and written out when closed. */
  ghost function ZipSpec(t: Tree, folders: seq<string>, zfn: Path, cwd: Path, sep: char): Outcome
  {
    match Write(t, zfn, Raw([]))
    case None => Outcome(t, false)
    case Some(u) =>
      match ZipAll(u, Sort(folders), cwd, sep, [])
      case None => Outcome(u, false)
      case Some(ms) => Outcome(u[zfn := File(Archive(ms))], true)
  }

  /** zipfolders (mcp_deploy.py:190-197): sorts `folders` in place once the
      archive is open, then stores every path listdir_r lists for each
      folder under its name relative to the folder. Relative folder names
      are resolved against `cwd`. */
  method ZipFolders(fs: FileSystem, folders: array<string>, zfn: Path, cwd: Path) returns (ok: bool)
    requires fs.Valid() && ValidPath(zfn, fs.sep) && ValidPath(cwd, fs.sep)
    modifies fs, folders
    ensures fs.Valid()
    ensures folders[..] == if Write(old(fs.tree), zfn, Raw([])).Some? then Sort(old(folders[..])) else old(folders[..])
    ensures Outcome(fs.tree, ok) == ZipSpec(old(fs.tree), old(folders[..]), zfn, cwd, fs.sep)
  {
    var sep := fs.sep;
    ok := fs.WriteFile(zfn, Raw([]));
    if !ok {
      return;
    }
    var sorted := Sort(folders[..]);
    assert |sorted| == folders.Length by {
      assert |multiset(sorted)| == |multiset(folders[..])|;
    }
    forall i | 0 <= i < folders.Length {
      folders[i] := sorted[i];
    }
    assert folders[..] == sorted;
    var members := ArchiveFolders(fs, folders, cwd);
    if members.None? {
      return false;
    }
    ok := fs.WriteFile(zfn, Archive(members.value));
  }

  /** The loop of zipfolders over the (sorted) folders. */
  method ArchiveFolders(fs: FileSystem, folders: array<string>, cwd: Path) returns (r: Option<seq<Member>>)
    requires fs.Valid() && ValidPath(cwd, fs.sep)
    ensures r == ZipAll(fs.tree, folders[..], cwd, fs.sep, [])
  {
    var sep := fs.sep;
    var members := [];
    var i := 0;
    while i < folders.Length
      invariant 0 <= i <= folders.Length
      invariant ZipAll(fs.tree, folders[i..], cwd, sep, members) == ZipAll(fs.tree, folders[..], cwd, sep, [])
    {
      var d := folders[i];
      assert folders[i..][0] == d && folders[i..][1..] == folders[i + 1..];
      ParseValid(cwd, d, sep);
      var listing := ListDirR(fs, Parse(cwd, d, sep), false, false);
      if listing.None? {
        return None;
      }
      ListingUnique(fs.tree, Parse(cwd, d, sep), false, false, sep, listing.value);
      var ms := RootArchive(fs, listing.value, d);
      if ms.None? {
        return None;
      }
      members := members + ms.value;
      i := i + 1;
    }
    assert folders[i..] == [];
    r := Some(members);
  }

  /** The inner loop of zipfolders, for one folder `d`. */
  method RootArchive(fs: FileSystem, ps: seq<string>, d: string) returns (r: Option<seq<Member>>)
    ensures r == RootMembers(fs.tree, ps, d, fs.sep)
  {
    var t, sep := fs.tree, fs.sep;
    var ms := [];
    var j := 0;
    while j < |ps|
      invariant 0 <= j <= |ps| && |ms| == j
      invariant forall k :: 0 <= k < j ==>
        ArcName(ps[k], d, sep).Some? && ms[k] == Stored(t, ps[k], ArcName(ps[k], d, sep).value, sep)
    {
      var name := ArcName(ps[j], d, sep);
      if name.None? {
        RootMembersNone(t, ps, d, sep, j);
        return None;
      }
      StoredSnoc(t, ps, d, sep, ms);
      ms := ms + [Stored(t, ps[j], name.value, sep)];
      j := j + 1;
    }
    RootMembersAll(t, ps, d, sep, ms);
    r := Some(ms);
  }

  /** One more path of the folder stored. */
  lemma StoredSnoc(t: Tree, ps: seq<string>, d: string, sep: char, ms: seq<Member>)
    requires |ms| < |ps| && ArcName(ps[|ms|], d, sep).Some?
    requires forall k :: 0 <= k < |ms| ==>
      ArcName(ps[k], d, sep).Some? && ms[k] == Stored(t, ps[k], ArcName(ps[k], d, sep).value, sep)
    ensures var ms' := ms + [Stored(t, ps[|ms|], ArcName(ps[|ms|], d, sep).value, sep)];
      forall k :: 0 <= k < |ms'| ==>
        ArcName(ps[k], d, sep).Some? && ms'[k] == Stored(t, ps[k], ArcName(ps[k], d, sep).value, sep)
  {
  }

  /** The order the folders are given in does not matter. */
  lemma ZipOrderIrrelevant(t: Tree, f1: seq<string>, f2: seq<string>, zfn: Path, cwd: Path, sep: char)
    requires multiset(f1) == multiset(f2)
    ensures ZipSpec(t, f1, zfn, cwd, sep) == ZipSpec(t, f2, zfn, cwd, sep)
  {
    SortedUnique(Sort(f1), Sort(f2));
  }

  lemma {:induction false} ZipAllPortable(t: Tree, roots: seq<string>, cwd: Path, sep: char, acc: seq<Member>)
    requires sep != '/' && forall k :: 0 <= k < |acc| ==> sep !in acc[k].name
    ensures var r := ZipAll(t, roots, cwd, sep, acc);
      r.Some? ==> forall k :: 0 <= k < |r.value| ==> sep !in r.value[k].name
    decreases |roots|
  {
    if roots != [] {
      var root := Parse(cwd, roots[0], sep);
      if IsDir(t, root) {
        var ms := RootMembers(t, Listing(t, root, false, false, sep), roots[0], sep);
        if ms.Some? {
          var ps := Listing(t, root, false, false, sep);
          RootMembersMeaning(t, ps, roots[0], sep);
          forall k | 0 <= k < |ps| && ArcName(ps[k], roots[0], sep).Some?
            ensures sep !in ArcName(ps[k], roots[0], sep).value
          {
            ArcNameFacts(ps[k], roots[0], sep);
          }
          ZipAllPortable(t, roots[1..], cwd, sep, acc + ms.value);
        }
      }
    }
  }

  /** On a host whose separator is not '/', no member name of the archive
      holds the host separator. */
  lemma ZipNamesPortable(t: Tree, folders: seq<string>, zfn: Path, cwd: Path, sep: char)
    requires sep != '/'
    ensures var o := ZipSpec(t, folders, zfn, cwd, sep);
      o.ok ==> (zfn in o.tree && o.tree[zfn].File? && o.tree[zfn].data.Archive?
        && forall k :: 0 <= k < |o.tree[zfn].data.members| ==> sep !in o.tree[zfn].data.members[k].name)
  {
    var w := Write(t, zfn, Raw([]));
    if w.None? {
      assert ZipSpec(t, folders, zfn, cwd, sep) == Outcome(t, false);
    } else {
      var z := ZipAll(w.value, Sort(folders), cwd, sep, []);
      ZipAllPortable(w.value, Sort(folders), cwd, sep, []);
      if z.None? {
        assert ZipSpec(t, folders, zfn, cwd, sep) == Outcome(w.value, false);
      } else {
        var ms := z.value;
        assert forall k :: 0 <= k < |ms| ==> sep !in ms[k].name;
        var u := w.value[zfn := File(Archive(ms))];
        assert ZipSpec(t, folders, zfn, cwd, sep) == Outcome(u, true);
        assert zfn in u && u[zfn].data.members == ms;
      }
    }
  }

  /** For a folder given by its absolute path, every listed path gets a name
      that is relative, and that names the same entry when read from the
      folder. */
  lemma ArcNameRoundTrip(t: Tree, root: Path, s: string, sep: char)
    requires WellFormed(t, sep) && ValidPath(root, sep)
    requires s in ShownSet(t, root, false, false, sep)
    ensures ArcName(s, Render(root, sep), sep).Some?
    ensures var name := ArcName(s, Render(root, sep), sep).value;
      !Absolute(name, sep) && Parse(root, name, sep) == Parse([], s, sep)
  {
    var p :| p in Below(t, root) && Shown(t, p, root, false, false, sep) == s;
    BelowEntry(t, p, root, sep);
    var rel := p[|root|..];
    StripStartRendered(root, rel, Tail(t, p, sep), sep);
    var name := ArcName(s, Render(root, sep), sep).value;
    assert name == Shown(t, p, root, true, true, sep);
    ShownParses(t, p, root, true, true, sep);
    ShownParses(t, p, root, false, false, sep);
    var body := RelRender(rel, sep) + Tail(t, p, sep);
    JoinFirst(rel, [sep]);
    assert body[0] == rel[0][0];
    assert name == (if body[0] == sep then "/" else [body[0]]) + ReplaceChar(body[1..], sep, "/");
  }
}
