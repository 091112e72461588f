/** The process's disk as one mutable object, with the synchronous library
    calls the agent makes on it. Each call changes `nodes` exactly as the
    corresponding function of FileTree says, or leaves it alone and reports
    the error the call would throw. */
module NodeFs {
  import opened FileTree

  /** How a state-changing call ended: normally, or by throwing. */
  datatype Outcome = Pass | Fail(error: FsError)

  class FileSystem {
    var nodes: Tree

    ghost predicate Valid()
      reads this
    {
      FileTree.Valid(nodes)
    }

    constructor (init: Tree)
      requires FileTree.Valid(init)
      ensures Valid() && nodes == init
    {
      nodes := init;
    }

    /** `fs.existsSync(p)` */
    method ExistsSync(p: Path) returns (b: bool)
      ensures b == Exists(nodes, p)
    {
      b := Exists(nodes, p);
    }

    /** `fs.statSync(p)` / `fs.lstatSync(p)` (there are no symbolic links
        in the model, so the two agree). */
    method StatSync(p: Path) returns (r: Result<Node>)
      ensures r.Ok? <==> Exists(nodes, p)
      ensures r.Ok? ==> r.value == (if p == [] then Dir else nodes[p])
      ensures r.Err? ==> r.error == NoEntry
    {
      if p == [] {
        r := Ok(Dir);
      } else if p in nodes {
        r := Ok(nodes[p]);
      } else {
        r := Err(NoEntry);
      }
    }

    /** `fs.readdirSync(p)`: the names inside p, each once, in an order the
        operating system chooses. */
    method ReadDirSync(p: Path) returns (r: Result<seq<string>>)
      ensures r.Ok? <==> IsDirAt(nodes, p)
      ensures r.Ok? ==> IsListing(nodes, p, r.value)
    {
      if !IsDirAt(nodes, p) {
        r := Err(if Exists(nodes, p) then NotADirectory else NoEntry);
        return;
      }
      var left := Children(nodes, p);
      var names: seq<string> := [];
      while left != {}
        invariant Names(names) + left == Children(nodes, p)
        invariant forall x :: x in names ==> x !in left
        invariant Distinct(names)
        decreases left
      {
        var x :| x in left;
        names := names + [x];
        left := left - {x};
      }
      r := Ok(names);
    }

    /** `fs.mkdirSync(p, {recursive: true})` */
    method MkdirSync(p: Path) returns (o: Outcome)
      modifies this
      ensures match MkdirAll(old(nodes), p)
        case Ok(t) => o == Pass && nodes == t
        case Err(e) => o == Fail(e) && nodes == old(nodes)
    {
      match MkdirAll(nodes, p)
      case Ok(t) =>
        nodes := t;
        o := Pass;
      case Err(e) =>
        o := Fail(e);
    }

    /** A write stream on p that receives c and is closed: a zip archive
        written by `archiver` through `fs.createWriteStream(p)`. */
    method WriteStream(p: Path, c: Content) returns (o: Outcome)
      requires p != []
      modifies this
      ensures match WriteFile(old(nodes), p, c)
        case Ok(t) => o == Pass && nodes == t
        case Err(e) => o == Fail(e) && nodes == old(nodes)
    {
      match WriteFile(nodes, p, c)
      case Ok(t) =>
        nodes := t;
        o := Pass;
      case Err(e) =>
        o := Fail(e);
    }

    /** `fs.copyFileSync(src, dst)` */
    method CopyFileSync(src: Path, dst: Path) returns (o: Outcome)
      requires dst != []
      modifies this
      ensures match CopyFile(old(nodes), src, dst)
        case Ok(t) => o == Pass && nodes == t
        case Err(e) => o == Fail(e) && nodes == old(nodes)
    {
      match CopyFile(nodes, src, dst)
      case Ok(t) =>
        nodes := t;
        o := Pass;
      case Err(e) =>
        o := Fail(e);
    }

    /** `fs.unlinkSync(p)`, and `fs.promises.unlink(p)` awaited */
    method UnlinkSync(p: Path) returns (o: Outcome)
      modifies this
      ensures match Unlink(old(nodes), p)
        case Ok(t) => o == Pass && nodes == t
        case Err(e) => o == Fail(e) && nodes == old(nodes)
    {
      match Unlink(nodes, p)
      case Ok(t) =>
        nodes := t;
        o := Pass;
      case Err(e) =>
        o := Fail(e);
    }

    /** `fs.rmdirSync(p)` */
    method RmdirSync(p: Path) returns (o: Outcome)
      modifies this
      ensures match Rmdir(old(nodes), p)
        case Ok(t) => o == Pass && nodes == t
        case Err(e) => o == Fail(e) && nodes == old(nodes)
    {
      match Rmdir(nodes, p)
      case Ok(t) =>
        nodes := t;
        o := Pass;
      case Err(e) =>
        o := Fail(e);
    }

    /** `rimraf.sync(p)` */
    method RimrafSync(p: Path)
      modifies this
      ensures nodes == RemoveTree(old(nodes), p)
    {
      nodes := RemoveTree(nodes, p);
    }
  }
}
