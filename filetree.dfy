/** An in-memory filesystem: the part of the disk the synchronisation agent
    reads and writes, and the effect of each library call it makes on it
    (`mkdirSync` with `recursive`, a write stream, `copyFileSync`,
    `unlinkSync`, `rmdirSync`, `rimraf.sync`). Paths are sequences of
    components, so separators and `path.join` normalisation do not arise. */
module FileTree {

  /** A path as its sequence of components; [] is the filesystem root. */
  type Path = seq<string>

  /** What a regular file holds: bytes, or a zip archive of a directory
      (an opaque value: only which directory it was made from is kept). */
  datatype Content = Data(bytes: seq<bv8>) | ZipOf(source: Path)

  /** A directory, a regular file, or anything else (fifo, socket, device). */
  datatype Node = Dir | File(content: Content) | Other

  /** The errno codes of the modelled calls. */
  datatype FsError =
    | NoEntry          // ENOENT
    | NotADirectory    // ENOTDIR (also mkdir over a file)
    | IsADirectory     // EISDIR
    | NotEmpty         // ENOTEMPTY
    | NotRegularFile   // the source or target of a copy or write is not a regular file
    | Busy             // EBUSY: removing the root

  datatype Result<T> = Ok(value: T) | Err(error: FsError)

  datatype Option<T> = None | Some(value: T)

  type Tree = map<Path, Node>

  function Parent(p: Path): Path
    requires p != []
  {
    p[..|p| - 1]
  }

  predicate Exists(t: Tree, p: Path) {
    p == [] || p in t
  }

  predicate IsDirAt(t: Tree, p: Path) {
    p == [] || (p in t && t[p].Dir?)
  }

  function Lookup(t: Tree, p: Path): Option<Node> {
    if p in t then Some(t[p]) else None
  }

  /** Every entry sits in a directory: the shape of a real disk. */
  ghost predicate Valid(t: Tree) {
    forall p :: p in t ==> p != [] && IsDirAt(t, Parent(p))
  }

  /** The names directly inside p. */
  function Children(t: Tree, p: Path): set<string> {
    set q | q in t && |q| == |p| + 1 && q[..|p|] == p :: q[|p|]
  }

  /** The names in s. */
  function Names(s: seq<string>): set<string> {
    set x | x in s
  }

  /** No name occurs twice in s. */
  predicate Distinct(s: seq<string>) {
    forall i, j :: 0 <= i < j < |s| ==> s[i] != s[j]
  }

  /** s is what `readdirSync(p)` may return: every child once, in some order. */
  ghost predicate IsListing(t: Tree, p: Path, s: seq<string>) {
    Distinct(s) && Names(s) == Children(t, p)
  }

  lemma ChildrenMembership(t: Tree, p: Path, c: string)
    ensures c in Children(t, p) <==> p + [c] in t
  {
    if p + [c] in t {
      var q := p + [c];
      assert |q| == |p| + 1 && q[..|p|] == p && q[|p|] == c;
    }
    if c in Children(t, p) {
      var q :| q in t && |q| == |p| + 1 && q[..|p|] == p && q[|p|] == c;
      assert q == p + [c];
    }
  }

  /** In a valid tree every proper ancestor of an entry is a directory entry. */
  lemma {:induction false} AncestorsAreDirs(t: Tree, q: Path, k: nat)
    requires Valid(t) && q in t && 0 < k < |q|
    ensures q[..k] in t && t[q[..k]].Dir?
    decreases |q| - k
  {
    if k + 1 < |q| {
      AncestorsAreDirs(t, q, k + 1);
      assert q[..k + 1] in t;
      assert Parent(q[..k + 1]) == q[..k];
    } else {
      assert Parent(q) == q[..k];
    }
  }

  /** Nothing lives below a file or other non-directory entry. */
  lemma NothingBelowNonDir(t: Tree, p: Path)
    requires Valid(t) && p in t && !t[p].Dir?
    ensures forall q :: q in t ==> !(p < q)
  {
    forall q | q in t && p < q
      ensures false
    {
      assert q[..|p|] == p;
      AncestorsAreDirs(t, q, |p|);
    }
  }

  /** Every entry strictly below p starts with one of p's children. */
  lemma BelowHasChild(t: Tree, p: Path, q: Path)
    requires Valid(t) && q in t && p < q
    ensures q[|p|] in Children(t, p)
  {
    if |p| + 1 < |q| {
      AncestorsAreDirs(t, q, |p| + 1);
    }
    assert q[..|p| + 1] == p + [q[|p|]];
    ChildrenMembership(t, p, q[|p|]);
  }

  /** `mkdirSync(p, {recursive: true})`: creates every missing directory on
      the way to p, and fails when some component exists and is not one. */
  function MkdirAll(t: Tree, p: Path): (r: Result<Tree>)
    decreases |p|
    ensures r.Ok? <==> forall k :: 0 < k <= |p| && p[..k] in t ==> t[p[..k]].Dir?
    ensures r.Ok? ==> IsDirAt(r.value, p)
    ensures r.Ok? ==> forall q :: q in t ==> q in r.value && r.value[q] == t[q]
    ensures r.Ok? ==> forall q :: q in r.value && q !in t ==> q <= p && r.value[q] == Dir
  {
    if p == [] then Ok(t)
    else
      var up := MkdirAll(t, Parent(p));
      assert forall k :: 0 < k <= |Parent(p)| ==> Parent(p)[..k] == p[..k];
      assert p[..|p|] == p;
      if up.Err? then up
      else if p in up.value then
        if up.value[p].Dir? then up else Err(NotADirectory)
      else
        Ok(up.value[p := Dir])
  }

  /** Writing a whole regular file at p (a write stream, or the write half
      of `copyFileSync`): the parent must be a directory and p must not be
      a directory or a special file; an existing file is replaced. */
  function WriteFile(t: Tree, p: Path, c: Content): (r: Result<Tree>)
    requires p != []
    ensures r.Ok? <==> IsDirAt(t, Parent(p)) && (p !in t || t[p].File?)
    ensures r.Ok? ==> r.value == t[p := File(c)]
    ensures r.Ok? ==> forall q :: q in t ==> q in r.value && r.value[q].Dir? == t[q].Dir?
  {
    if !Exists(t, Parent(p)) then Err(NoEntry)
    else if !IsDirAt(t, Parent(p)) then Err(NotADirectory)
    else if p in t && t[p].Dir? then Err(IsADirectory)
    else if p in t && t[p].Other? then Err(NotRegularFile)
    else Ok(t[p := File(c)])
  }

  /** `copyFileSync(src, dst)`: src must be a regular file; its content is
      written at dst. Copying a file onto itself changes nothing. */
  function CopyFile(t: Tree, src: Path, dst: Path): (r: Result<Tree>)
    requires dst != []
    ensures r.Ok? <==> src != [] && src in t && t[src].File? && IsDirAt(t, Parent(dst)) && (dst !in t || t[dst].File?)
    ensures r.Ok? ==> r.value == t[dst := t[src]]
  {
    if !Exists(t, src) then Err(NoEntry)
    else if IsDirAt(t, src) then Err(IsADirectory)
    else if t[src].Other? then Err(NotRegularFile)
    else WriteFile(t, dst, t[src].content)
  }

  /** Creating directories keeps the tree well formed. */
  lemma {:induction false} MkdirAllKeepsValid(t: Tree, p: Path)
    requires Valid(t) && MkdirAll(t, p).Ok?
    ensures Valid(MkdirAll(t, p).value)
    decreases |p|
  {
    if p != [] {
      MkdirAllKeepsValid(t, Parent(p));
    }
  }

  /** Writing a file keeps the tree well formed. */
  lemma WriteFileKeepsValid(t: Tree, p: Path, c: Content)
    requires Valid(t) && p != [] && WriteFile(t, p, c).Ok?
    ensures Valid(WriteFile(t, p, c).value)
  {
  }

  /** Copying a file keeps the tree well formed. */
  lemma CopyFileKeepsValid(t: Tree, src: Path, dst: Path)
    requires Valid(t) && dst != [] && CopyFile(t, src, dst).Ok?
    ensures Valid(CopyFile(t, src, dst).value)
  {
    WriteFileKeepsValid(t, dst, t[src].content);
  }

  /** `unlinkSync(p)`: removes a non-directory entry. */
  function Unlink(t: Tree, p: Path): (r: Result<Tree>)
    ensures r.Ok? <==> p != [] && p in t && !t[p].Dir?
    ensures r.Ok? ==> r.value == t - {p}
  {
    if !Exists(t, p) then Err(NoEntry)
    else if IsDirAt(t, p) then Err(IsADirectory)
    else Ok(t - {p})
  }

  /** `rimraf.sync(p)`: removes p and everything below it; a missing p is
      not an error. */
  function RemoveTree(t: Tree, p: Path): (r: Tree)
    ensures forall q :: q in r <==> q in t && !(p <= q)
    ensures forall q :: q in r ==> r[q] == t[q]
    ensures Valid(t) ==> Valid(r)
  {
    var r := map q | q in t && !(p <= q) :: t[q];
    assert Valid(t) ==> Valid(r) by {
      if Valid(t) {
        forall q | q in r
          ensures q != [] && IsDirAt(r, Parent(q))
        {
          assert Parent(q) <= q;
        }
      }
    }
    r
  }

  /** `rmdirSync(p)`: removes an empty directory. */
  function Rmdir(t: Tree, p: Path): (r: Result<Tree>)
    ensures r.Ok? <==> p != [] && p in t && t[p].Dir? && forall q :: q in t ==> !(p < q)
    ensures r.Ok? ==> r.value == t - {p}
  {
    if p == [] then Err(Busy)
    else if p !in t then Err(NoEntry)
    else if !t[p].Dir? then Err(NotADirectory)
    else if exists q :: q in t && p < q then Err(NotEmpty)
    else Ok(t - {p})
  }

  /** In a valid tree, unlinking a non-directory is removing its subtree. */
  lemma UnlinkIsRemoveTree(t: Tree, p: Path)
    requires Valid(t) && p in t && !t[p].Dir?
    ensures Unlink(t, p) == Ok(RemoveTree(t, p))
  {
    NothingBelowNonDir(t, p);
    forall q ensures q in RemoveTree(t, p) <==> q in t - {p} {
      assert p <= q ==> p == q || p < q;
    }
    assert RemoveTree(t, p) == t - {p};
  }
}
