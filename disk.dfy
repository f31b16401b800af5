/** The file system the deploy script works on: a map from absolute paths to
    directories and files. Zip archives are files whose payload is a list of
    members; a member whose stored checksum does not match is `sound == false`.
    `Mkdirs`, `Write`, `Remove` and `CopyFile` are the operating-system calls
    the script makes (`mkdir_p`, `open(.., "w+b")`, `os.remove`,
    `shutil.copyfile`); `None` stands for the exception they raise. */
module Disk {
  import opened Text
  import opened Paths

  datatype Payload = Raw(bytes: seq<bv8>) | Archive(members: seq<Member>)
  datatype Member = Member(name: string, data: Payload, sound: bool)
  datatype Node = Dir | File(data: Payload)
  type Tree = map<Path, Node>

  /** The tree after an operation and whether it finished without an
      exception. */
  datatype Outcome = Outcome(tree: Tree, ok: bool)

  /** `os.path.exists`: the root always exists. */
  predicate Exists(t: Tree, p: Path) {
    p == [] || p in t
  }

  /** `os.path.isdir`. */
  predicate IsDir(t: Tree, p: Path) {
    p == [] || (p in t && t[p].Dir?)
  }

  /** `os.path.isfile`. */
  predicate IsFile(t: Tree, p: Path) {
    p in t && t[p].File?
  }

  /** Every entry has a valid name and sits in a directory. (The trigger
      keeps the solver from climbing from an entry to its parent, to its
      parent's parent, and so on; `Entry` unpacks one entry.) */
  predicate WellFormed(t: Tree, sep: char) {
    forall p {:trigger ValidPath(p, sep)} :: p in t ==> p != [] && ValidPath(p, sep) && IsDir(t, Parent(p))
  }

  lemma Entry(t: Tree, p: Path, sep: char)
    requires WellFormed(t, sep) && p in t
    ensures p != [] && ValidPath(p, sep) && IsDir(t, Parent(p))
  {
  }

  lemma Intro(t: Tree, sep: char)
    requires forall p :: p in t ==> p != [] && ValidPath(p, sep) && IsDir(t, Parent(p))
    ensures WellFormed(t, sep)
  {
  }

  /** `a` and `b` agree everywhere except possibly at `p`. */
  ghost predicate SameExcept(a: Tree, b: Tree, p: Path) {
    forall q :: q != p ==> (q in a <==> q in b) && (q in b ==> a[q] == b[q])
  }

  /** Some proper ancestor of `p` below the root is a file. */
  ghost predicate Blocked(t: Tree, p: Path) {
    exists k :: 0 < k < |p| && IsFile(t, p[..k])
  }

  /** mkdir_p (mcp_deploy.py:94-100): `os.makedirs` with "already exists"
      swallowed. An existing `p` is left alone, even a file; otherwise the
      missing ancestors are created and a file among them raises. */
  function Mkdirs(t: Tree, p: Path): (r: Option<Tree>)
    ensures r.Some? ==> Exists(r.value, p)
    ensures r.Some? && !Exists(t, p) ==> IsDir(r.value, p)
    ensures r.Some? ==> forall q :: q in t ==> q in r.value && r.value[q] == t[q]
    ensures r.Some? ==> forall q :: q in r.value && q !in t ==>
      r.value[q] == Dir && |q| <= |p| && q == p[..|q|]
    decreases |p|
  {
    if Exists(t, p) then Some(t)
    else
      match Mkdirs(t, Parent(p))
      case None => None
      case Some(u) => if IsDir(u, Parent(p)) then Some(u[p := Dir]) else None
  }

  /** `open(p, "w+b")` followed by a write: the parent must be a directory and
      `p` must not be one. */
  function Write(t: Tree, p: Path, data: Payload): (r: Option<Tree>)
    ensures r.Some? <==> p != [] && IsDir(t, Parent(p)) && !IsDir(t, p)
    ensures r.Some? ==> r.value == t[p := File(data)]
  {
    if p != [] && IsDir(t, Parent(p)) && !IsDir(t, p) then Some(t[p := File(data)]) else None
  }

  /** `os.remove`: only a file can be removed. */
  function Remove(t: Tree, p: Path): (r: Option<Tree>)
    ensures r.Some? <==> IsFile(t, p)
    ensures r.Some? ==> r.value == t - {p}
  {
    if IsFile(t, p) then Some(t - {p}) else None
  }

  /** `shutil.copyfile`: refuses to copy a file onto itself, needs `src` to be
      a file and `dst` to be writable. */
  function CopyFile(t: Tree, src: Path, dst: Path): (r: Option<Tree>)
    ensures r.Some? ==> IsFile(t, src) && src != dst && r.value == t[dst := t[src]]
    ensures r.None? <==> src == dst || !IsFile(t, src) || Write(t, dst, t[src].data).None?
  {
    if src == dst || !IsFile(t, src) then None else Write(t, dst, t[src].data)
  }

  // ---------------------------------------------------------------------
  // Lemmas

  /** In a well-formed tree every proper ancestor of an entry is a directory. */
  lemma {:induction false} AncestorsAreDirs(t: Tree, p: Path, k: nat, sep: char)
    requires WellFormed(t, sep) && p in t && k < |p|
    ensures IsDir(t, p[..k])
    decreases |p|
  {
    Entry(t, p, sep);
    var q := Parent(p);
    if k < |q| {
      AncestorsAreDirs(t, q, k, sep);
      assert q[..k] == p[..k];
    } else {
      assert p[..k] == q;
    }
  }

  /** `mkdir_p` raises exactly when `p` is missing and one of its ancestors is
      a file. */
  lemma {:induction false} MkdirsFails(t: Tree, p: Path, sep: char)
    requires WellFormed(t, sep)
    ensures Mkdirs(t, p).None? <==> !Exists(t, p) && Blocked(t, p)
    decreases |p|
  {
    if !Exists(t, p) {
      var q := Parent(p);
      MkdirsFails(t, q, sep);
      if Mkdirs(t, p).None? {
        if Mkdirs(t, q).None? {
          var k :| 0 < k < |q| && IsFile(t, q[..k]);
          assert q[..k] == p[..k];
        } else {
          assert Exists(t, q);
          assert p[..|p| - 1] == q;
        }
      }
      if Blocked(t, p) {
        var k :| 0 < k < |p| && IsFile(t, p[..k]);
        if k == |p| - 1 {
          assert p[..k] == q;
        } else {
          assert q[..k] == p[..k];
          if q in t {
            AncestorsAreDirs(t, q, k, sep);
            assert false;
          }
        }
      }
    }
  }

  /** `mkdir_p` of a valid path keeps the tree well formed. */
  lemma {:induction false} MkdirsWellFormed(t: Tree, p: Path, sep: char)
    requires WellFormed(t, sep) && ValidPath(p, sep)
    ensures Mkdirs(t, p).Some? ==> WellFormed(Mkdirs(t, p).value, sep)
    decreases |p|
  {
    if !Exists(t, p) {
      var q := Parent(p);
      assert ValidPath(q, sep);
      MkdirsWellFormed(t, q, sep);
      if Mkdirs(t, p).Some? {
        var u := Mkdirs(t, q).value;
        var v := u[p := Dir];
        assert Mkdirs(t, p).value == v && IsDir(u, q);
        forall r | r in v ensures r != [] && ValidPath(r, sep) && IsDir(v, Parent(r)) {
          if r != p {
            Entry(u, r, sep);
          }
        }
        Intro(v, sep);
      }
    }
  }

  lemma WriteWellFormed(t: Tree, p: Path, data: Payload, sep: char)
    requires WellFormed(t, sep) && ValidPath(p, sep)
    ensures Write(t, p, data).Some? ==> WellFormed(Write(t, p, data).value, sep)
  {
    if Write(t, p, data).Some? {
      var u := Write(t, p, data).value;
      forall q | q in u ensures q != [] && ValidPath(q, sep) && IsDir(u, Parent(q)) {
        if q != p {
          Entry(t, q, sep);
        }
      }
    }
  }

  lemma RemoveWellFormed(t: Tree, p: Path, sep: char)
    requires WellFormed(t, sep)
    ensures Remove(t, p).Some? ==> WellFormed(Remove(t, p).value, sep)
  {
    if Remove(t, p).Some? {
      var u := Remove(t, p).value;
      forall q | q in u ensures q != [] && ValidPath(q, sep) && IsDir(u, Parent(q)) {
        Entry(t, q, sep);
        assert IsFile(t, p) && IsDir(t, Parent(q));
      }
    }
  }

  /** `u` differs from `t` only within `base`, apart from directories
      created as missing ancestors of `base`, and lost nothing. */
  ghost predicate Contained(t: Tree, u: Tree, base: Path) {
    (forall q :: q in t ==> q in u)
    && (forall q :: q in u && !Within(q, base) ==>
          (q in t && u[q] == t[q]) || (q !in t && u[q] == Dir && Within(base, q)))
  }

  lemma ContainedTrans(t: Tree, u: Tree, v: Tree, base: Path)
    requires Contained(t, u, base) && Contained(u, v, base)
    ensures Contained(t, v, base)
  {
  }

  lemma MkdirsContained(t: Tree, p: Path, base: Path)
    requires Within(p, base) && Mkdirs(t, p).Some?
    ensures Contained(t, Mkdirs(t, p).value, base)
  {
    var u := Mkdirs(t, p).value;
    forall q | q in u && !Within(q, base) && q !in t ensures Within(base, q) {
      assert q == p[..|q|];
      assert |q| < |base|;
      assert base[..|q|] == p[..|q|];
    }
  }

  /** The file system, whose state every operation of the script changes in
      place. `sep` is the host's `os.path.sep`. */
  class FileSystem {
    const sep: char
    var tree: Tree

    ghost predicate Valid()
      reads this
    {
      WellFormed(tree, sep)
    }

    constructor (sep: char, tree: Tree)
      requires WellFormed(tree, sep)
      ensures Valid() && this.sep == sep && this.tree == tree
    {
      this.sep := sep;
      this.tree := tree;
    }

    method MakeDirs(p: Path) returns (ok: bool)
      requires Valid() && ValidPath(p, sep)
      modifies this
      ensures Valid()
      ensures ok <==> Mkdirs(old(tree), p).Some?
      ensures tree == if ok then Mkdirs(old(tree), p).value else old(tree)
    {
      MkdirsWellFormed(tree, p, sep);
      var r := Mkdirs(tree, p);
      ok := r.Some?;
      if ok {
        tree := r.value;
      }
    }

    method WriteFile(p: Path, data: Payload) returns (ok: bool)
      requires Valid() && ValidPath(p, sep)
      modifies this
      ensures Valid()
      ensures ok <==> Write(old(tree), p, data).Some?
      ensures tree == if ok then Write(old(tree), p, data).value else old(tree)
    {
      WriteWellFormed(tree, p, data, sep);
      ok := p != [] && IsDir(tree, Parent(p)) && !IsDir(tree, p);
      if ok {
        tree := tree[p := File(data)];
      }
    }

    method RemoveFile(p: Path) returns (ok: bool)
      requires Valid()
      modifies this
      ensures Valid()
      ensures ok <==> Remove(old(tree), p).Some?
      ensures tree == if ok then Remove(old(tree), p).value else old(tree)
    {
      RemoveWellFormed(tree, p, sep);
      ok := IsFile(tree, p);
      if ok {
        tree := tree - {p};
      }
    }

    method Copy(src: Path, dst: Path) returns (ok: bool)
      requires Valid() && ValidPath(dst, sep)
      modifies this
      ensures Valid()
      ensures ok <==> CopyFile(old(tree), src, dst).Some?
      ensures tree == if ok then CopyFile(old(tree), src, dst).value else old(tree)
    {
      ok := src != dst && IsFile(tree, src);
      if ok {
        ok := WriteFile(dst, tree[src].data);
      }
    }
  }
}
