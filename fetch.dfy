/** Fetching the zip and jar files the build needs into the download cache:
    `download`, `getZipOrDownload` and the `get*` wrappers that name the
    cache file and the URL. The network is a queue of replies, one per
    `urlretrieve`: a body that gets written to the cache file, a transfer
    that breaks off after writing part of it and raises, or a failure that
    raises before any file is created. */
module Fetch {
  import opened Text
  import opened Paths
  import opened Disk

  datatype Reply = Served(body: Payload) | Broken(part: Payload) | Unreachable

  /** What `urlretrieve` did: the new tree, the replies left, and whether it
      raised. */
  datatype Retrieval = Retrieval(tree: Tree, rest: seq<Reply>, raised: bool)

  /** `getZipOrDownload` returned `fn`, returned `False`, or raised. */
  datatype Fetched = Got | Refused | Raised

  datatype FetchRun = FetchRun(tree: Tree, rest: seq<Reply>, result: Fetched)

  /** The name `testzip` returns: the first member whose checksum fails. */
  function TestZip(members: seq<Member>): (r: Option<string>)
    ensures r.None? <==> forall i :: 0 <= i < |members| ==> members[i].sound
  {
    if members == [] then None
    else if !members[0].sound then Some(members[0].name)
    else
      var r := TestZip(members[1..]);
      assert forall i :: 1 <= i < |members| ==> members[i] == members[1..][i - 1];
      r
  }

  /** The name `testzip` reports is that of the first unsound member. */
  lemma {:induction false} TestZipFirst(members: seq<Member>)
    ensures var r := TestZip(members);
      r.Some? ==> exists i :: (0 <= i < |members| && !members[i].sound && members[i].name == r.value
                               && forall j :: 0 <= j < i ==> members[j].sound)
  {
    if members != [] && members[0].sound {
      var r := TestZip(members[1..]);
      TestZipFirst(members[1..]);
      if r.Some? {
        var i :| 0 <= i < |members[1..]| && !members[1..][i].sound && members[1..][i].name == r.value
                 && forall j :: 0 <= j < i ==> members[1..][j].sound;
        assert !members[i + 1].sound && members[i + 1].name == r.value
               && forall j :: 0 <= j < i + 1 ==> members[j].sound;
      }
    }
  }

  /** How `zipfile.ZipFile(fn)` followed by `testzip()` sees `fn`. */
  datatype ZipState = Intact | Damaged | NotZip

  function Inspect(t: Tree, fn: Path): (z: ZipState)
    ensures z == Intact ==> (IsFile(t, fn) && t[fn].data.Archive?
      && forall i :: 0 <= i < |t[fn].data.members| ==> t[fn].data.members[i].sound)
    ensures z == Damaged ==> IsFile(t, fn)
    ensures z == NotZip <==> !IsFile(t, fn) || t[fn].data.Raw?
  {
    if IsFile(t, fn) && t[fn].data.Archive? then
      if TestZip(t[fn].data.members).None? then Intact else Damaged
    else NotZip
  }

  /** download (mcp_deploy.py:199-205) with its output always given: an
      existing output is left alone, otherwise one reply is consumed.
      `urlretrieve` opens the output before reading, so a broken transfer
      leaves the part it wrote. */
  function Download(t: Tree, output: Path, q: seq<Reply>): (d: Retrieval)
    ensures Exists(t, output) ==> d == Retrieval(t, q, false)
    ensures !Exists(t, output) ==>
      (q != [] && d.rest == q[1..]) || (q == [] && d == Retrieval(t, q, true))
    ensures !d.raised ==> Exists(d.tree, output)
    ensures d.raised ==> d.tree == t || (q != [] && q[0].Broken? && d.tree == t[output := File(q[0].part)])
    ensures SameExcept(d.tree, t, output)
  {
    if Exists(t, output) then Retrieval(t, q, false)
    else if q == [] then Retrieval(t, q, true)
    else match q[0]
      case Unreachable => Retrieval(t, q[1..], true)
      case Broken(part) =>
        (match Write(t, output, part)
         case None => Retrieval(t, q[1..], true)
         case Some(u) => Retrieval(u, q[1..], true))
      case Served(body) =>
        match Write(t, output, body)
        case None => Retrieval(t, q[1..], true)
        case Some(u) => Retrieval(u, q[1..], false)
  }

  /** What a download writes: it succeeds exactly when the reply is a body
      that can be written, and then the output holds that body. */
  lemma DownloadWrites(t: Tree, output: Path, q: seq<Reply>)
    requires !Exists(t, output) && q != []
    ensures var d := Download(t, output, q);
      (!d.raised <==> q[0].Served? && Write(t, output, q[0].body).Some?)
      && (!d.raised ==> d.tree == t[output := File(q[0].body)] && d.rest == q[1..])
  {
  }

  /** getZipOrDownload (mcp_deploy.py:207-232). Its three parts call each
      other: `FetchAt` fetches a missing file and checks it, `CheckAt` is the
      body of the `try`, `ExceptAt` the bare `except` around it. A retry from
      inside the `try` that raises lands in the `except` of the same call. */
  function FetchAt(t: Tree, fn: Path, q: seq<Reply>, r: nat): FetchRun
    decreases r, 2
  {
    if !Exists(t, fn) then
      var d := Download(t, fn, q);
      if d.raised then FetchRun(d.tree, d.rest, Raised) else CheckAt(d.tree, fn, d.rest, r)
    else CheckAt(t, fn, q, r)
  }

  function CheckAt(t: Tree, fn: Path, q: seq<Reply>, r: nat): FetchRun
    decreases r, 1
  {
    match Inspect(t, fn)
    case Intact => FetchRun(t, q, Got)
    case Damaged =>
      if r == 0 then FetchRun(t, q, Refused)
      else
        var inner := FetchAt(t - {fn}, fn, q, r - 1);
        if inner.result.Raised? then ExceptAt(inner.tree, fn, inner.rest, r) else inner
    case NotZip => ExceptAt(t, fn, q, r)
  }

  function ExceptAt(t: Tree, fn: Path, q: seq<Reply>, r: nat): FetchRun
    decreases r, 0
  {
    if r == 0 then FetchRun(t, q, Refused)
    else match Remove(t, fn)
      case None => FetchRun(t, q, Raised)
      case Some(u) => FetchAt(u, fn, q, r - 1)
  }

  /** The reattempt budget the `get*` wrappers pass: their `verbose` argument
      lands in the `reattempt` slot, and `True` counts as 1. */
  function Budget(verbose: bool): (n: nat)
    ensures n <= 1 && (n == 1 <==> verbose)
  {
    if verbose then 1 else 0
  }

  // ---------------------------------------------------------------------
  // The method

  /** getZipOrDownload on the file system, mirroring its try/except shape. */
  method GetZipOrDownload(fs: FileSystem, fn: Path, replies: seq<Reply>, reattempt: nat)
    returns (result: Fetched, rest: seq<Reply>)
    requires fs.Valid() && ValidPath(fn, fs.sep)
    modifies fs
    ensures fs.Valid()
    ensures FetchRun(fs.tree, rest, result) == FetchAt(old(fs.tree), fn, replies, reattempt)
    decreases reattempt, 2
  {
    rest := replies;
    if !Exists(fs.tree, fn) {
      var raised;
      raised, rest := Retrieve(fs, fn, rest);
      if raised {
        return Raised, rest;
      }
    }
    result, rest := CheckZip(fs, fn, rest, reattempt);
  }

  /** urlretrieve into `output` (download's existence test has already
      passed). */
  method Retrieve(fs: FileSystem, output: Path, replies: seq<Reply>) returns (raised: bool, rest: seq<Reply>)
    requires fs.Valid() && ValidPath(output, fs.sep) && !Exists(fs.tree, output)
    modifies fs
    ensures fs.Valid()
    ensures Retrieval(fs.tree, rest, raised) == Download(old(fs.tree), output, replies)
  {
    if replies == [] {
      return true, replies;
    }
    rest := replies[1..];
    match replies[0]
    case Unreachable =>
      raised := true;
    case Broken(part) =>
      var _ := fs.WriteFile(output, part);
      raised := true;
    case Served(body) =>
      var ok := fs.WriteFile(output, body);
      raised := !ok;
  }

  method CheckZip(fs: FileSystem, fn: Path, replies: seq<Reply>, reattempt: nat)
    returns (result: Fetched, rest: seq<Reply>)
    requires fs.Valid() && ValidPath(fn, fs.sep)
    modifies fs
    ensures fs.Valid()
    ensures FetchRun(fs.tree, rest, result) == CheckAt(old(fs.tree), fn, replies, reattempt)
    decreases reattempt, 1
  {
    rest := replies;
    match Inspect(fs.tree, fn)
    case Intact =>
      result := Got;
    case Damaged =>
      if reattempt == 0 {
        result := Refused;
      } else {
        var _ := fs.RemoveFile(fn);
        result, rest := GetZipOrDownload(fs, fn, rest, reattempt - 1);
        if result.Raised? {
          result, rest := Recover(fs, fn, rest, reattempt);
        }
      }
    case NotZip =>
      result, rest := Recover(fs, fn, rest, reattempt);
  }

  /** The `except` branch of getZipOrDownload. */
  method Recover(fs: FileSystem, fn: Path, replies: seq<Reply>, reattempt: nat)
    returns (result: Fetched, rest: seq<Reply>)
    requires fs.Valid() && ValidPath(fn, fs.sep)
    modifies fs
    ensures fs.Valid()
    ensures FetchRun(fs.tree, rest, result) == ExceptAt(old(fs.tree), fn, replies, reattempt)
    decreases reattempt, 0
  {
    rest := replies;
    if reattempt == 0 {
      return Refused, rest;
    }
    var ok := fs.RemoveFile(fn);
    if !ok {
      return Raised, rest;
    }
    result, rest := GetZipOrDownload(fs, fn, rest, reattempt - 1);
  }

  // ---------------------------------------------------------------------
  // Lemmas about getZipOrDownload

  /** `fn` is returned only when the file is a zip whose `testzip` found no
      bad member. */
  lemma {:induction false} FetchGotIntact(t: Tree, fn: Path, q: seq<Reply>, r: nat)
    ensures FetchAt(t, fn, q, r).result.Got? ==> Inspect(FetchAt(t, fn, q, r).tree, fn) == Intact
    decreases r, 2
  {
    if !Exists(t, fn) {
      var d := Download(t, fn, q);
      if !d.raised { CheckGotIntact(d.tree, fn, d.rest, r); }
    } else {
      CheckGotIntact(t, fn, q, r);
    }
  }

  lemma {:induction false} CheckGotIntact(t: Tree, fn: Path, q: seq<Reply>, r: nat)
    ensures CheckAt(t, fn, q, r).result.Got? ==> Inspect(CheckAt(t, fn, q, r).tree, fn) == Intact
    decreases r, 1
  {
    match Inspect(t, fn)
    case Intact =>
    case Damaged =>
      if r > 0 {
        var inner := FetchAt(t - {fn}, fn, q, r - 1);
        FetchGotIntact(t - {fn}, fn, q, r - 1);
        if inner.result.Raised? { ExceptGotIntact(inner.tree, fn, inner.rest, r); }
      }
    case NotZip => ExceptGotIntact(t, fn, q, r);
  }

  lemma {:induction false} ExceptGotIntact(t: Tree, fn: Path, q: seq<Reply>, r: nat)
    ensures ExceptAt(t, fn, q, r).result.Got? ==> Inspect(ExceptAt(t, fn, q, r).tree, fn) == Intact
    decreases r, 0
  {
    if r > 0 && Remove(t, fn).Some? {
      FetchGotIntact(Remove(t, fn).value, fn, q, r - 1);
    }
  }

  /** A cached file that checks out is returned without touching the network
      or the disk. */
  lemma FetchCacheHit(t: Tree, fn: Path, q: seq<Reply>, r: nat)
    requires Inspect(t, fn) == Intact
    ensures FetchAt(t, fn, q, r) == FetchRun(t, q, Got)
  {
  }

  /** Only `fn` is ever written or removed. */
  lemma {:induction false} FetchOnlyTouchesFn(t: Tree, fn: Path, q: seq<Reply>, r: nat)
    ensures SameExcept(FetchAt(t, fn, q, r).tree, t, fn)
    decreases r, 2
  {
    if !Exists(t, fn) {
      var d := Download(t, fn, q);
      if !d.raised { CheckOnlyTouchesFn(d.tree, fn, d.rest, r); }
    } else {
      CheckOnlyTouchesFn(t, fn, q, r);
    }
  }

  lemma {:induction false} CheckOnlyTouchesFn(t: Tree, fn: Path, q: seq<Reply>, r: nat)
    ensures SameExcept(CheckAt(t, fn, q, r).tree, t, fn)
    decreases r, 1
  {
    match Inspect(t, fn)
    case Intact =>
    case Damaged =>
      if r > 0 {
        var inner := FetchAt(t - {fn}, fn, q, r - 1);
        FetchOnlyTouchesFn(t - {fn}, fn, q, r - 1);
        if inner.result.Raised? { ExceptOnlyTouchesFn(inner.tree, fn, inner.rest, r); }
      }
    case NotZip => ExceptOnlyTouchesFn(t, fn, q, r);
  }

  lemma {:induction false} ExceptOnlyTouchesFn(t: Tree, fn: Path, q: seq<Reply>, r: nat)
    ensures SameExcept(ExceptAt(t, fn, q, r).tree, t, fn)
    decreases r, 0
  {
    if r > 0 && Remove(t, fn).Some? {
      FetchOnlyTouchesFn(Remove(t, fn).value, fn, q, r - 1);
    }
  }

  /** The most downloads `getZipOrDownload` makes with budget `r`: the first
      one, and for every retry inside the `try` that raises, one more retry
      from the `except` of the same call. */
  function MaxDownloads(r: nat): (n: nat)
    ensures n >= r + 1
  {
    if r == 0 then 1 else 2 * MaxDownloads(r - 1) + 1
  }

  /** The replies left over are a suffix of the queue, and at most
      `MaxDownloads(reattempt)` of them were used. */
  lemma {:induction false} FetchDownloadsBounded(t: Tree, fn: Path, q: seq<Reply>, r: nat)
    requires fn != []
    ensures var run := FetchAt(t, fn, q, r);
      |run.rest| <= |q| && run.rest == q[|q| - |run.rest|..] && |q| - |run.rest| <= MaxDownloads(r)
    decreases r, 2
  {
    if !Exists(t, fn) {
      var d := Download(t, fn, q);
      if !d.raised {
        CheckDownloadsBounded(d.tree, fn, d.rest, r);
        assert d.rest == q[1..];
      }
    } else {
      CheckDownloadsBounded(t, fn, q, r);
    }
  }

  lemma {:induction false} CheckDownloadsBounded(t: Tree, fn: Path, q: seq<Reply>, r: nat)
    requires fn != []
    ensures var run := CheckAt(t, fn, q, r);
      |run.rest| <= |q| && run.rest == q[|q| - |run.rest|..] && |q| - |run.rest| <= MaxDownloads(r) - 1
    decreases r, 1
  {
    var z := Inspect(t, fn);
    if z == Damaged && r > 0 {
      RetryDownloadsBounded(t, fn, q, r);
    } else if z == NotZip {
      ExceptDownloadsBounded(t, fn, q, r);
    } else {
      assert CheckAt(t, fn, q, r).rest == q;
    }
  }

  /** The retry of a damaged archive, and the `except` it may fall into. */
  lemma {:induction false} RetryDownloadsBounded(t: Tree, fn: Path, q: seq<Reply>, r: nat)
    requires fn != [] && r > 0
    ensures var inner := FetchAt(t - {fn}, fn, q, r - 1);
      var run := if inner.result.Raised? then ExceptAt(inner.tree, fn, inner.rest, r) else inner;
      |run.rest| <= |q| && run.rest == q[|q| - |run.rest|..] && |q| - |run.rest| <= MaxDownloads(r) - 1
    decreases r, 1, 0
  {
    var inner := FetchAt(t - {fn}, fn, q, r - 1);
    FetchDownloadsBounded(t - {fn}, fn, q, r - 1);
    assert MaxDownloads(r) - 1 == 2 * MaxDownloads(r - 1);
    if inner.result.Raised? {
      ExceptDownloadsBounded(inner.tree, fn, inner.rest, r);
      SuffixOfSuffix(ExceptAt(inner.tree, fn, inner.rest, r).rest, inner.rest, q);
    }
  }

  /** A suffix of a suffix of `q` is a suffix of `q`. */
  lemma SuffixOfSuffix(a: seq<Reply>, b: seq<Reply>, q: seq<Reply>)
    requires |b| <= |q| && b == q[|q| - |b|..]
    requires |a| <= |b| && a == b[|b| - |a|..]
    ensures a == q[|q| - |a|..]
  {
  }

  lemma {:induction false} ExceptDownloadsBounded(t: Tree, fn: Path, q: seq<Reply>, r: nat)
    requires fn != []
    ensures var run := ExceptAt(t, fn, q, r);
      |run.rest| <= |q| && run.rest == q[|q| - |run.rest|..] && |q| - |run.rest| <= if r == 0 then 0 else MaxDownloads(r - 1)
    decreases r, 0
  {
    if r > 0 && Remove(t, fn).Some? {
      FetchDownloadsBounded(Remove(t, fn).value, fn, q, r - 1);
    }
  }

  /** The bound is reached: with a budget of 1, a damaged first copy and a
      retry that breaks off make the `except` download a third time, and the
      third copy is returned. */
  lemma ThreeDownloads()
    ensures var q := [Served(Archive([Member("a", Raw([]), false)])), Broken(Raw([])), Served(Archive([]))];
      var run := FetchAt(map[], ["f"], q, 1);
      run.rest == [] && run.result == Got
  {
    var q := [Served(Archive([Member("a", Raw([]), false)])), Broken(Raw([])), Served(Archive([]))];
    var t1 := map[["f"] := File(Archive([Member("a", Raw([]), false)]))];
    assert Download(map[], ["f"], q) == Retrieval(t1, q[1..], false);
    assert Inspect(t1, ["f"]) == Damaged;
    var t2 := map[["f"] := File(Raw([]))];
    assert Download(map[], ["f"], q[1..]) == Retrieval(t2, q[2..], true);
    assert FetchAt(t1 - {["f"]}, ["f"], q[1..], 0) == FetchRun(t2, q[2..], Raised);
    var t3 := map[["f"] := File(Archive([]))];
    assert Download(map[], ["f"], q[2..]) == Retrieval(t3, [], false);
    assert Inspect(t3, ["f"]) == Intact;
    assert Remove(t2, ["f"]) == Some(map[]);
    assert ExceptAt(t2, ["f"], q[2..], 1) == FetchRun(t3, [], Got);
  }

  /** What a raised fetch leaves at `fn`: nothing, or the part that the last
      reply it used, a broken transfer, wrote just before raising. */
  predicate LeftByRaise(tree: Tree, fn: Path, q: seq<Reply>, rest: seq<Reply>) {
    fn !in tree
    || (|rest| < |q| && q[|q| - |rest| - 1].Broken? && tree[fn] == File(q[|q| - |rest| - 1].part))
  }

  /** When `fn` is not a directory, a raised fetch leaves no file behind
      except the part a broken transfer wrote just before the raise: every
      earlier copy was removed. */
  lemma {:induction false} FetchRaisedLeaves(t: Tree, fn: Path, q: seq<Reply>, r: nat)
    requires !IsDir(t, fn)
    ensures var run := FetchAt(t, fn, q, r);
      run.result.Raised? ==> LeftByRaise(run.tree, fn, q, run.rest)
    decreases r, 2
  {
    if !Exists(t, fn) {
      var d := Download(t, fn, q);
      if !d.raised {
        CheckRaisedLeaves(d.tree, fn, d.rest, r);
        assert d.rest == q[1..];
      }
    } else {
      CheckRaisedLeaves(t, fn, q, r);
    }
  }

  lemma {:induction false} CheckRaisedLeaves(t: Tree, fn: Path, q: seq<Reply>, r: nat)
    requires !IsDir(t, fn)
    ensures var run := CheckAt(t, fn, q, r);
      run.result.Raised? ==> LeftByRaise(run.tree, fn, q, run.rest)
    decreases r, 1
  {
    match Inspect(t, fn)
    case Intact =>
    case Damaged =>
      if r > 0 {
        RetryRaisedLeaves(t, fn, q, r);
      }
    case NotZip => ExceptRaisedLeaves(t, fn, q, r);
  }

  /** The retry of a damaged archive, and the `except` it may fall into. */
  lemma {:induction false} RetryRaisedLeaves(t: Tree, fn: Path, q: seq<Reply>, r: nat)
    requires !IsDir(t, fn) && r > 0
    ensures var inner := FetchAt(t - {fn}, fn, q, r - 1);
      var run := if inner.result.Raised? then ExceptAt(inner.tree, fn, inner.rest, r) else inner;
      run.result.Raised? ==> LeftByRaise(run.tree, fn, q, run.rest)
    decreases r, 1, 0
  {
    assert fn != [];
    var inner := FetchAt(t - {fn}, fn, q, r - 1);
    FetchRaisedLeaves(t - {fn}, fn, q, r - 1);
    if inner.result.Raised? {
      FetchDownloadsBounded(t - {fn}, fn, q, r - 1);
      ExceptRaisedLeaves(inner.tree, fn, inner.rest, r);
      ExceptDownloadsBounded(inner.tree, fn, inner.rest, r);
      var run := ExceptAt(inner.tree, fn, inner.rest, r);
      if run.result.Raised? && fn in run.tree {
        assert inner.rest[|inner.rest| - |run.rest| - 1] == q[|q| - |run.rest| - 1];
      }
    }
  }

  lemma {:induction false} ExceptRaisedLeaves(t: Tree, fn: Path, q: seq<Reply>, r: nat)
    requires !IsDir(t, fn)
    ensures var run := ExceptAt(t, fn, q, r);
      run.result.Raised? ==> LeftByRaise(run.tree, fn, q, run.rest)
    decreases r, 0
  {
    if r > 0 && Remove(t, fn).Some? {
      FetchRaisedLeaves(Remove(t, fn).value, fn, q, r - 1);
    }
  }

  /** A queue without broken transfers. */
  predicate Whole(q: seq<Reply>) {
    forall i :: 0 <= i < |q| ==> !q[i].Broken?
  }

  lemma WholeSuffix(q: seq<Reply>, k: nat)
    requires Whole(q) && k <= |q|
    ensures Whole(q[k..])
  {
    assert forall i :: 0 <= i < |q| - k ==> q[k..][i] == q[k + i];
  }

  /** Without broken transfers, a raised fetch leaves no file at `fn`. */
  lemma FetchRaisedLeavesNoFile(t: Tree, fn: Path, q: seq<Reply>, r: nat)
    requires !IsDir(t, fn) && Whole(q)
    ensures FetchAt(t, fn, q, r).result.Raised? ==> fn !in FetchAt(t, fn, q, r).tree
  {
    FetchRaisedLeaves(t, fn, q, r);
  }

  /** Without broken transfers, `getZipOrDownload` downloads at most
      `reattempt + 1` times: a retry that raises leaves nothing for the
      `except` to remove, so its `os.remove` raises instead of retrying. */
  lemma {:induction false} FetchDownloadsWhole(t: Tree, fn: Path, q: seq<Reply>, r: nat)
    requires fn != [] && Whole(q)
    ensures var run := FetchAt(t, fn, q, r);
      |q| - |run.rest| <= r + 1
    decreases r, 2
  {
    FetchDownloadsBounded(t, fn, q, r);
    if !Exists(t, fn) {
      var d := Download(t, fn, q);
      if !d.raised {
        WholeSuffix(q, 1);
        assert d.rest == q[1..];
        CheckDownloadsWhole(d.tree, fn, d.rest, r);
      }
    } else {
      CheckDownloadsWhole(t, fn, q, r);
    }
  }

  lemma {:induction false} CheckDownloadsWhole(t: Tree, fn: Path, q: seq<Reply>, r: nat)
    requires fn != [] && Whole(q)
    ensures var run := CheckAt(t, fn, q, r);
      |q| - |run.rest| <= r
    decreases r, 1
  {
    CheckDownloadsBounded(t, fn, q, r);
    match Inspect(t, fn)
    case Intact =>
    case Damaged =>
      if r > 0 {
        var inner := FetchAt(t - {fn}, fn, q, r - 1);
        FetchDownloadsWhole(t - {fn}, fn, q, r - 1);
        if inner.result.Raised? {
          FetchRaisedLeavesNoFile(t - {fn}, fn, q, r - 1);
          assert ExceptAt(inner.tree, fn, inner.rest, r) == FetchRun(inner.tree, inner.rest, Raised);
        }
      }
    case NotZip => ExceptDownloadsWhole(t, fn, q, r);
  }

  lemma {:induction false} ExceptDownloadsWhole(t: Tree, fn: Path, q: seq<Reply>, r: nat)
    requires fn != [] && Whole(q)
    ensures var run := ExceptAt(t, fn, q, r);
      |q| - |run.rest| <= r
    decreases r, 0
  {
    if r > 0 && Remove(t, fn).Some? {
      FetchDownloadsWhole(Remove(t, fn).value, fn, q, r - 1);
    }
  }

  /** `False` means the last look at `fn` found it damaged or not a zip. */
  lemma {:induction false} FetchRefusedNotIntact(t: Tree, fn: Path, q: seq<Reply>, r: nat)
    ensures FetchAt(t, fn, q, r).result.Refused? ==>
      Exists(FetchAt(t, fn, q, r).tree, fn) && Inspect(FetchAt(t, fn, q, r).tree, fn) != Intact
    decreases r, 2
  {
    if !Exists(t, fn) {
      var d := Download(t, fn, q);
      if !d.raised { CheckRefusedNotIntact(d.tree, fn, d.rest, r); }
    } else {
      CheckRefusedNotIntact(t, fn, q, r);
    }
  }

  lemma {:induction false} CheckRefusedNotIntact(t: Tree, fn: Path, q: seq<Reply>, r: nat)
    requires Exists(t, fn)
    ensures CheckAt(t, fn, q, r).result.Refused? ==>
      Exists(CheckAt(t, fn, q, r).tree, fn) && Inspect(CheckAt(t, fn, q, r).tree, fn) != Intact
    decreases r, 1
  {
    match Inspect(t, fn)
    case Intact =>
    case Damaged =>
      if r > 0 {
        var inner := FetchAt(t - {fn}, fn, q, r - 1);
        FetchRefusedNotIntact(t - {fn}, fn, q, r - 1);
        if inner.result.Raised? { ExceptRefusedNotIntact(inner.tree, fn, inner.rest, r); }
      }
    case NotZip => ExceptRefusedNotIntact(t, fn, q, r);
  }

  lemma {:induction false} ExceptRefusedNotIntact(t: Tree, fn: Path, q: seq<Reply>, r: nat)
    requires r > 0 || (Exists(t, fn) && Inspect(t, fn) != Intact)
    ensures ExceptAt(t, fn, q, r).result.Refused? ==>
      Exists(ExceptAt(t, fn, q, r).tree, fn) && Inspect(ExceptAt(t, fn, q, r).tree, fn) != Intact
    decreases r, 0
  {
    if r > 0 && Remove(t, fn).Some? {
      FetchRefusedNotIntact(Remove(t, fn).value, fn, q, r - 1);
    }
  }

  /** A reply that arrives but does not pass the check. */
  predicate Bad(reply: Reply) {
    reply.Served? && (reply.body.Raw? || TestZip(reply.body.members).Some?)
  }

  /** With a writable cache slot and a server that keeps sending bad files,
      the budget is spent: `False` after exactly `reattempt` re-downloads,
      plus one first download when the file was not cached. */
  lemma {:induction false} FetchSpendsBudget(t: Tree, fn: Path, q: seq<Reply>, r: nat)
    requires fn != [] && IsDir(t, Parent(fn)) && !IsDir(t, fn)
    requires Exists(t, fn) ==> Inspect(t, fn) != Intact
    requires |q| >= r + 1 && forall i :: 0 <= i < |q| ==> Bad(q[i])
    ensures FetchAt(t, fn, q, r).result == Refused
    ensures |q| - |FetchAt(t, fn, q, r).rest| == r + (if Exists(t, fn) then 0 else 1)
    decreases r
  {
    if !Exists(t, fn) {
      var d := Download(t, fn, q);
      assert q[0] == q[..][0] && Bad(q[0]);
      assert !d.raised && d.rest == q[1..];
      assert d.tree == t[fn := File(q[0].body)];
      assert Inspect(d.tree, fn) != Intact;
      CheckSpendsBudget(d.tree, fn, d.rest, r);
    } else {
      CheckSpendsBudget(t, fn, q, r);
    }
  }

  lemma {:induction false} CheckSpendsBudget(t: Tree, fn: Path, q: seq<Reply>, r: nat)
    requires fn != [] && IsDir(t, Parent(fn)) && IsFile(t, fn) && Inspect(t, fn) != Intact
    requires |q| >= r && forall i :: 0 <= i < |q| ==> Bad(q[i])
    ensures CheckAt(t, fn, q, r).result == Refused
    ensures |q| - |CheckAt(t, fn, q, r).rest| == r
    decreases r, 1
  {
    if r > 0 {
      var u := t - {fn};
      assert Remove(t, fn) == Some(u);
      assert IsDir(u, Parent(fn)) by { assert Parent(fn) != fn; }
      forall i | 0 <= i < |q| ensures Bad(q[i]) { }
      FetchSpendsBudget(u, fn, q, r - 1);
    }
  }

  // ---------------------------------------------------------------------
  // The get* wrappers (mcp_deploy.py:234-270)

  /** The cache directories below the tool root
      /var/lib/jenkins/tools/minecraft (mcp_deploy.py:32-38). */
  function ToolRoot(): Path { ["var", "lib", "jenkins", "tools", "minecraft"] }
  function CacheDir(): Path { ToolRoot() + ["cache"] }
  function McCacheDir(): Path { CacheDir() + ["minecraft"] }
  function McpCacheDir(): Path { CacheDir() + ["mcp"] }
  function ForgeCacheDir(): Path { CacheDir() + ["forge"] }
  function McpcCacheDir(): Path { CacheDir() + ["mcpc-craftbukkit"] }

  /** A download: where it comes from and which cache file it fills. */
  datatype Request = Request(url: string, file: Path)

  function ClientName(version: string): string { "minecraft_" + version + ".jar" }
  function ServerName(version: string): string { "minecraft_server_" + version + ".jar" }

  function ClientRequest(version: string, sep: char): Request {
    Request("http://assets.minecraft.net/" + ReplaceChar(version, '.', "_") + "/minecraft.jar",
      Parse(McCacheDir(), ClientName(version), sep))
  }

  function ServerRequest(version: string, sep: char): Request {
    Request("http://assets.minecraft.net/" + ReplaceChar(version, '.', "_") + "/minecraft_server.jar",
      Parse(McCacheDir(), ServerName(version), sep))
  }

  function McpRequest(version: string, sep: char): Request {
    Request("http://mcp.ocean-labs.de/files/" + version + ".zip", Parse(McpCacheDir(), version + ".zip", sep))
  }

  function LwjglRequest(sep: char): Request {
    Request("http://mirror.openshell.no/lwjgl_minecraft_1.2.5.zip", Parse(CacheDir(), "lwjgl_minecraft_1.2.5.zip", sep))
  }

  /** A name without separators resolves to a single entry of the directory. */
  lemma ParseName(dir: Path, name: string, sep: char)
    requires ValidName(name, sep)
    ensures Parse(dir, name, sep) == dir + [name]
  {
    ParseRel(dir, [name], sep);
    assert RelRender([name], sep) == name;
  }

  /** Version strings without separators get their own cache files: the
      client and the server jar of a version never share one, and different
      versions of the same jar never share one. */
  lemma CacheFilesDistinct(v: string, w: string, sep: char)
    requires HostSep(sep)
    requires sep !in v && '/' !in v && sep !in w && '/' !in w
    ensures ClientRequest(v, sep).file != ServerRequest(v, sep).file
    ensures ClientRequest(v, sep).file == ClientRequest(w, sep).file ==> v == w
    ensures ServerRequest(v, sep).file == ServerRequest(w, sep).file ==> v == w
  {
    JarNameFile("minecraft_", v, sep);
    JarNameFile("minecraft_", w, sep);
    JarNameFile("minecraft_server_", v, sep);
    JarNameFile("minecraft_server_", w, sep);
    assert |ClientName(v)| != |ServerName(v)|;
    assert ClientName(v) == "minecraft_" + v + ".jar" && ServerName(v) == "minecraft_server_" + v + ".jar";
    var k := |McCacheDir()|;
    assert ClientRequest(v, sep).file[k] == ClientName(v);
    assert ServerRequest(v, sep).file[k] == ServerName(v);
    JarNameInjective("minecraft_", v, w);
    JarNameInjective("minecraft_server_", v, w);
  }

  /** A jar name built from a version without separators is one entry of the
      Minecraft cache directory. */
  lemma JarNameFile(prefix: string, v: string, sep: char)
    requires HostSep(sep) && (prefix == "minecraft_" || prefix == "minecraft_server_")
    requires sep !in v && '/' !in v
    ensures Parse(McCacheDir(), prefix + v + ".jar", sep) == McCacheDir() + [prefix + v + ".jar"]
  {
    var n := prefix + v + ".jar";
    forall i | 0 <= i < |n| ensures n[i] != sep && n[i] != '/' {
      if i < |prefix| {
        assert n[i] == prefix[i];
      } else if i < |prefix| + |v| {
        assert n[i] == v[i - |prefix|];
      } else {
        assert n[i] == ".jar"[i - |prefix| - |v|];
      }
    }
    assert |n| > 2;
    ParseName(McCacheDir(), n, sep);
  }

  lemma JarNameInjective(prefix: string, v: string, w: string)
    ensures prefix + v + ".jar" == prefix + w + ".jar" ==> v == w
  {
    var a, b := prefix + v + ".jar", prefix + w + ".jar";
    if a == b {
      assert v == a[|prefix|..|a| - 4];
      assert w == b[|prefix|..|b| - 4];
    }
  }

  /** getMinecraftClient, getMinecraftServer, getMCP and getLwjgl: fetch the
      request's file with the budget `verbose` buys. */
  method GetRequest(fs: FileSystem, req: Request, verbose: bool, replies: seq<Reply>)
    returns (result: Fetched, rest: seq<Reply>)
    requires fs.Valid() && ValidPath(req.file, fs.sep)
    modifies fs
    ensures fs.Valid()
    ensures FetchRun(fs.tree, rest, result) == FetchAt(old(fs.tree), req.file, replies, Budget(verbose))
  {
    result, rest := GetZipOrDownload(fs, req.file, replies, Budget(verbose));
  }
}
