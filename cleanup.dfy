/** `emptyDirectory(directoryName)`: after a successful upload, removes
    `Dentread/<savedUsername>/<directoryName>` below the working directory.
    A directory is emptied entry by entry and then removed itself; a
    regular file is unlinked; anything else is refused. */
module Cleanup {
  import opened FileTree
  import opened NodeFs
  import opened PathNames

  /** The message of the result object. The source prints the target in
      the two success messages; it writes it relative to the working
      directory, and the model carries the resolved path. */
  datatype EmptyMessage =
    | DirectoryEmptied(path: Path)
    | FileRemoved(path: Path)
    | InvalidTarget
    | TargetMissing

  /** `{ success, message }` */
  datatype EmptyResult = EmptyResult(success: bool, message: EmptyMessage)

  /** `path.join('./', 'Dentread', username, directoryName)`, resolved
      against the working directory: an empty or "." name adds nothing, so
      `emptyDirectory("")` targets the user's folder itself. */
  function TargetPath(cwd: Path, username: string, directoryName: string): (p: Path)
    ensures |cwd| < |p| <= |cwd| + 3 && p[..|cwd| + 1] == cwd + ["Dentread"]
    ensures !Vanishes(username) && !Vanishes(directoryName) ==> p == cwd + ["Dentread", username, directoryName]
    ensures !Vanishes(username) && Vanishes(directoryName) ==> p == cwd + ["Dentread", username]
    ensures forall i :: |cwd| < i < |p| ==> !Vanishes(p[i])
  {
    JoinName(JoinName(cwd + ["Dentread"], username), directoryName)
  }

  /** What `emptyDirectory` does to the tree and what it returns. */
  function EmptySpec(t: Tree, target: Path): (r: (Tree, EmptyResult))
    requires target != []
    ensures r.1.success <==> target in t && !t[target].Other?
    ensures !r.1.success ==> r.0 == t
    ensures target !in r.0 <==> r.1.success || target !in t
  {
    if target !in t then (t, EmptyResult(false, TargetMissing))
    else match t[target]
      case Dir => (RemoveTree(t, target), EmptyResult(true, DirectoryEmptied(target)))
      case File(_) => (t - {target}, EmptyResult(true, FileRemoved(target)))
      case Other => (t, EmptyResult(false, InvalidTarget))
  }

  /** The call succeeds exactly when the target exists and is a directory or
      a regular file; then the target and everything below it are gone and
      every other entry is untouched; otherwise nothing changes. The
      result names the target's kind. */
  lemma EmptySpecEffect(t: Tree, target: Path)
    requires Valid(t) && target != []
    ensures var (u, r) := EmptySpec(t, target);
      && (r.success <==> target in t && !t[target].Other?)
      && (r.success ==> forall q :: q in u <==> q in t && !(target <= q))
      && (!r.success ==> u == t)
      && (forall q :: q in u ==> q in t && u[q] == t[q])
      && Valid(u)
      && (r.message == TargetMissing <==> target !in t)
      && (r.message == DirectoryEmptied(target) <==> target in t && t[target].Dir?)
      && (r.message == FileRemoved(target) <==> target in t && t[target].File?)
  {
    if target in t && t[target].File? {
      UnlinkIsRemoveTree(t, target);
    }
  }

  /** q lies in the subtree of one of target's children `names`. */
  ghost predicate UnderChild(target: Path, names: set<string>, q: Path) {
    |target| < |q| && q[..|target|] == target && q[|target|] in names
  }

  /** t without the subtrees of target's children `names`. */
  ghost function Pruned(t: Tree, target: Path, names: set<string>): Tree {
    map q | q in t && !UnderChild(target, names, q) :: t[q]
  }

  lemma ChildPrefix(target: Path, c: string, q: Path)
    ensures target + [c] <= q <==> UnderChild(target, {c}, q)
  {
    if target + [c] <= q {
      assert q[..|target|] == (target + [c])[..|target|];
    }
    if UnderChild(target, {c}, q) {
      assert q[..|target| + 1] == target + [c];
    }
  }

  /** Removing one more child's subtree with `rimraf.sync` prunes it. */
  lemma PruneOne(t: Tree, target: Path, names: set<string>, c: string)
    ensures RemoveTree(Pruned(t, target, names), target + [c]) == Pruned(t, target, names + {c})
  {
    var lhs := RemoveTree(Pruned(t, target, names), target + [c]);
    var rhs := Pruned(t, target, names + {c});
    forall q
      ensures q in lhs <==> q in rhs
    {
      ChildPrefix(target, c, q);
    }
    assert lhs == rhs;
  }

  /** Once every child of a directory is pruned, removing the (now empty)
      directory itself with `rmdirSync` removes its whole subtree. */
  lemma PruneAll(t: Tree, target: Path)
    requires Valid(t) && target in t && t[target].Dir?
    ensures Rmdir(Pruned(t, target, Children(t, target)), target) == Ok(RemoveTree(t, target))
  {
    var names := Children(t, target);
    var u := Pruned(t, target, names);
    forall q | q in t && target < q
      ensures q !in u
    {
      BelowHasChild(t, target, q);
      assert q[..|target|] == target;
    }
    forall q
      ensures q in u - {target} <==> q in RemoveTree(t, target)
    {
      if q in t && UnderChild(target, names, q) {
        assert target < q by {
          assert q[..|target|] == target;
        }
      }
      if q in t && target <= q && q != target {
        assert target < q;
        assert q !in u;
      }
    }
    assert u - {target} == RemoveTree(t, target);
  }

  /** The i-th listed entry is still there after the first i are removed:
      the listing has no repeats. */
  lemma ListedEntryPresent(t: Tree, target: Path, names: seq<string>, i: nat)
    requires IsListing(t, target, names) && i < |names|
    ensures target + [names[i]] in Pruned(t, target, Names(names[..i]))
    ensures Names(names[..i + 1]) == Names(names[..i]) + {names[i]}
  {
    assert names[i] in (set x | x in names);
    ChildrenMembership(t, target, names[i]);
    assert names[i] !in names[..i];
    var q := target + [names[i]];
    assert q[..|target|] == target && q[|target|] == names[i];
    assert names[..i + 1] == names[..i] + [names[i]];
  }

  /** The loop of `emptyDirectory` over the listing of target: each
      directory entry goes with `rimraf.sync`, anything else with
      `unlinkSync`. Neither can throw here: each listed entry is still
      there when it is reached, rimraf never fails, and a non-directory can
      always be unlinked. */
  method RemoveEntries(fs: FileSystem, target: Path, items: seq<string>)
    requires fs.Valid() && IsListing(fs.nodes, target, items)
    modifies fs
    ensures fs.Valid()
    ensures fs.nodes == Pruned(old(fs.nodes), target, Children(old(fs.nodes), target))
  {
    ghost var start := fs.nodes;
    var i := 0;
    while i < |items|
      invariant 0 <= i <= |items|
      invariant fs.nodes == Pruned(start, target, Names(items[..i]))
      invariant fs.Valid()
    {
      var itemPath := target + [items[i]];
      ListedEntryPresent(start, target, items, i);
      PruneOne(start, target, Names(items[..i]), items[i]);
      var itemStat := fs.StatSync(itemPath);
      if itemStat.value.Dir? {
        fs.RimrafSync(itemPath);
      } else {
        UnlinkIsRemoveTree(fs.nodes, itemPath);
        var unlinked := fs.UnlinkSync(itemPath);
        assert unlinked.Pass?;
      }
      i := i + 1;
    }
    assert items[..i] == items;
  }

  /** `emptyDirectory`, as the source runs it. */
  method EmptyDirectory(fs: FileSystem, cwd: Path, username: string, directoryName: string) returns (r: EmptyResult)
    requires fs.Valid()
    modifies fs
    ensures fs.Valid()
    ensures (fs.nodes, r) == EmptySpec(old(fs.nodes), TargetPath(cwd, username, directoryName))
  {
    var target := TargetPath(cwd, username, directoryName);
    var present := fs.ExistsSync(target);
    if !present {
      return EmptyResult(false, TargetMissing);
    }
    var st := fs.StatSync(target);
    assert st.Ok?;
    if st.value.Dir? {
      var listed := fs.ReadDirSync(target);
      assert listed.Ok?;
      ghost var start := fs.nodes;
      RemoveEntries(fs, target, listed.value);
      PruneAll(start, target);
      var removed := fs.RmdirSync(target);
      assert removed.Pass?;
      r := EmptyResult(true, DirectoryEmptied(target));
    } else if st.value.File? {
      var unlinked := fs.UnlinkSync(target);
      assert unlinked.Pass?;
      r := EmptyResult(true, FileRemoved(target));
    } else {
      r := EmptyResult(false, InvalidTarget);
    }
  }
}
