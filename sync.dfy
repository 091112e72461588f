/** `hitApiWithFolderPathAndSubdirectories(reqdId)`: uploads the folder
    (or file) `Dentread/<savedUsername>/<reqdId>` below the working
    directory. A folder is first archived as `<folder>.zip` next to it, the
    archive is uploaded and then deleted; a file is uploaded as it is.
    Every thrown error ends in the same failure object. */
module Sync {
  import opened FileTree
  import opened PathNames
  import opened NodeFs
  import opened Upload
  import opened Cleanup

  const ApiUrl := "http://testapi.dentread.com/datasync/"
  const FailureMessage := "API request failed"
  const FailureStatus := 500

  /** `JSON.parse(localStorage.getItem('token'))`: no object at all, or an
      object whose `access` field may be missing. */
  datatype StoredToken = NoToken | Token(access: Option<string>)

  /** How the returned promise settles: with the upload's response, with
      the failure object, or never (the archive's output stream failed and
      nobody listens for its error). */
  datatype SyncResult =
    | Forwarded(response: HttpResponse)
    | RequestFailed(message: string, status: int)
    | Unsettled

  /** The result, the request sent if one was, and the tree afterwards. */
  datatype SyncOutcome = SyncOutcome(result: SyncResult, request: Option<UploadRequest>, tree: Tree)

  /** `${accessToken}` in the header: a missing field prints "undefined". */
  function AccessText(access: Option<string>): string {
    match access
    case Some(s) => s
    case None => "undefined"
  }

  function Failure(): SyncResult {
    RequestFailed(FailureMessage, FailureStatus)
  }

  /** `currentWorkingDirectory + '\\Dentread\\' + savedUsername + '\\' + reqdId`,
      as the file system resolves it: an empty or "." component names the
      folder it follows. It is the entry `emptyDirectory` removes for the
      same names (`SameEntryAsCleanup`). */
  function SyncTarget(cwd: Path, savedUsername: string, reqdId: string): (p: Path)
    ensures p != [] && !Vanishes(Basename(p))
    ensures !Vanishes(reqdId) ==> Basename(p) == reqdId
  {
    JoinName(JoinName(cwd + ["Dentread"], savedUsername), reqdId)
  }

  /** `${newDirectoryPath}.zip`: the suffix is appended to the string, so
      for an ordinary id the archive sits beside the folder as
      `<folder>.zip`, while for an empty or "." id the path ends in a
      separator (or "\\.") and the archive `.zip` (or `..zip`) lands inside
      the folder itself. */
  function ArchivePath(cwd: Path, savedUsername: string, reqdId: string): (z: Path)
    ensures z != [] && Basename(z) == reqdId + ".zip"
  {
    JoinName(cwd + ["Dentread"], savedUsername) + [reqdId + ".zip"]
  }

  /** Where the archive lands relative to the folder: beside it as
      `<folder>.zip` for an ordinary id, inside it for an empty or "." id,
      and never on the folder's own path. */
  lemma ArchivePlacement(cwd: Path, savedUsername: string, reqdId: string)
    ensures var target := SyncTarget(cwd, savedUsername, reqdId);
      var z := ArchivePath(cwd, savedUsername, reqdId);
      && z != target
      && (!Vanishes(reqdId) ==> z == ZipPath(target))
      && (Vanishes(reqdId) ==> Parent(z) == target)
  {
    var z := ArchivePath(cwd, savedUsername, reqdId);
    assert Parent(z) == JoinName(cwd + ["Dentread"], savedUsername);
  }

  /** The upload and the cleanup that follows it name the same entry, so
      the target lies below `<cwd>/Dentread` and is `<user>/<id>` there
      when neither name vanishes (the contract of `TargetPath`). */
  lemma SameEntryAsCleanup(cwd: Path, username: string, id: string)
    ensures SyncTarget(cwd, username, id) == TargetPath(cwd, username, id)
  {
  }

  /** What the handler does, for the tree t, the stored token and the
      endpoint's reply. The user name is read from `savedUsername` twice
      (once for the path, once for the request); both reads agree. */
  function SyncSpec(t: Tree, cwd: Path, username: string, reqdId: string, token: StoredToken, reply: HttpReply): SyncOutcome
  {
    var target := SyncTarget(cwd, username, reqdId);
    if token.NoToken? || !Exists(t, target) then SyncOutcome(Failure(), None, t)
    else
      var access := AccessText(token.access);
      if IsDirAt(t, target) then
        var zip := ArchivePath(cwd, username, reqdId);
        match WriteFile(t, zip, ZipOf(target))
        case Err(_) => SyncOutcome(Unsettled, None, t)
        case Ok(written) =>
          var x := SendFileToApi(zip, ApiUrl, access, username, reply);
          match x.result
          case Returned(response) => SyncOutcome(Forwarded(response), Some(x.request), written - {zip})
          case Threw(_) => SyncOutcome(Failure(), Some(x.request), written)
      else
        var x := SendFileToApi(target, ApiUrl, access, username, reply);
        match x.result
        case Returned(response) => SyncOutcome(Forwarded(response), Some(x.request), t)
        case Threw(_) => SyncOutcome(Failure(), Some(x.request), t)
  }

  /** The three trees a call can leave: the one it found, the one with
      the archive written, and that one with the archive deleted again. */
  lemma SyncTreeShape(t: Tree, cwd: Path, username: string, reqdId: string, token: StoredToken, reply: HttpReply)
    ensures var o := SyncSpec(t, cwd, username, reqdId, token, reply);
      var zip := ArchivePath(cwd, username, reqdId);
      var written := t[zip := File(ZipOf(SyncTarget(cwd, username, reqdId)))];
      o.tree == t || o.tree == written || o.tree == written - {zip}
  {
    var target := SyncTarget(cwd, username, reqdId);
    var o := SyncSpec(t, cwd, username, reqdId, token, reply);
    if token.Token? && Exists(t, target) && IsDirAt(t, target) {
      var zip := ArchivePath(cwd, username, reqdId);
      var w := WriteFile(t, zip, ZipOf(target));
      if w.Ok? {
        var x := SendFileToApi(zip, ApiUrl, AccessText(token.access), username, reply);
        assert w.value == t[zip := File(ZipOf(target))];
        assert o.tree == if x.result.Returned? then w.value - {zip} else w.value;
      } else {
        assert o.tree == t;
      }
    } else {
      assert o.tree == t;
    }
  }

  /** Only the archive path can change: the uploaded folder, and
      everything else on disk, keep their entries. */
  lemma SyncFrame(t: Tree, cwd: Path, username: string, reqdId: string, token: StoredToken, reply: HttpReply)
    ensures var o := SyncSpec(t, cwd, username, reqdId, token, reply);
      forall p :: p != ArchivePath(cwd, username, reqdId) ==> Lookup(o.tree, p) == Lookup(t, p)
  {
    SyncTreeShape(t, cwd, username, reqdId, token, reply);
    var tree := SyncSpec(t, cwd, username, reqdId, token, reply).tree;
    var zip := ArchivePath(cwd, username, reqdId);
    var written := t[zip := File(ZipOf(SyncTarget(cwd, username, reqdId)))];
    forall p | p != zip
      ensures Lookup(tree, p) == Lookup(t, p)
    {
      assert Lookup(written, p) == Lookup(t, p);
    }
  }

  /** Every entry stays inside a directory: the archive is written into an
      existing directory and removing a regular file orphans nothing. */
  lemma SyncKeepsValid(t: Tree, cwd: Path, username: string, reqdId: string, token: StoredToken, reply: HttpReply)
    requires Valid(t)
    ensures Valid(SyncSpec(t, cwd, username, reqdId, token, reply).tree)
  {
    var target := SyncTarget(cwd, username, reqdId);
    var zip := ArchivePath(cwd, username, reqdId);
    if token.Token? && Exists(t, target) && IsDirAt(t, target) && WriteFile(t, zip, ZipOf(target)).Ok? {
      var written := WriteFile(t, zip, ZipOf(target)).value;
      WriteFileKeepsValid(t, zip, ZipOf(target));
      UnlinkIsRemoveTree(written, zip);
      assert Unlink(written, zip).value == written - {zip};
    }
  }

  /** The promise settles with the response exactly when a request went
      out and got a 2xx answer; every other settled end is the one failure
      object, and when no request went out the disk is unchanged. */
  lemma SyncResults(t: Tree, cwd: Path, username: string, reqdId: string, token: StoredToken, reply: HttpReply)
    ensures var o := SyncSpec(t, cwd, username, reqdId, token, reply);
      && (o.result.Forwarded? <==> o.request.Some? && reply.Received? && IsOk(reply.response))
      && (o.result.Forwarded? ==> o.result.response == reply.response)
      && (o.result.RequestFailed? ==> o.result == RequestFailed("API request failed", 500))
      && (o.request.None? ==> o.tree == t)
  {
    var o := SyncSpec(t, cwd, username, reqdId, token, reply);
    if o.request.Some? {
      assert token.Token? && Exists(t, SyncTarget(cwd, username, reqdId));
    }
  }

  /** When nothing can be sent (no token, or no target) nothing changes
      and the failure object is returned. */
  lemma SyncNeedsTokenAndTarget(t: Tree, cwd: Path, username: string, reqdId: string, token: StoredToken, reply: HttpReply)
    ensures token.NoToken? || !Exists(t, SyncTarget(cwd, username, reqdId)) <==>
              SyncSpec(t, cwd, username, reqdId, token, reply) == SyncOutcome(Failure(), None, t)
  {
    var target := SyncTarget(cwd, username, reqdId);
    var o := SyncSpec(t, cwd, username, reqdId, token, reply);
    if !(token.NoToken? || !Exists(t, target)) && o.request.None? {
      assert IsDirAt(t, target) && o.result == Unsettled;
    }
  }

  /** A folder whose archive cannot be written: on a well-formed tree
      that happens exactly when the archive path exists and is not a
      regular file, and then the promise never settles, nothing is sent
      and the disk is unchanged. */
  lemma SyncFolderUnsettled(t: Tree, cwd: Path, username: string, reqdId: string, token: StoredToken, reply: HttpReply)
    requires Valid(t) && token.Token?
    requires SyncTarget(cwd, username, reqdId) in t && t[SyncTarget(cwd, username, reqdId)].Dir?
    ensures var o := SyncSpec(t, cwd, username, reqdId, token, reply);
      var zip := ArchivePath(cwd, username, reqdId);
      && (o.result.Unsettled? <==> zip in t && !t[zip].File?)
      && (o.result.Unsettled? ==> o.tree == t && o.request.None?)
  {
    var target := SyncTarget(cwd, username, reqdId);
    var zip := ArchivePath(cwd, username, reqdId);
    ArchivePlacement(cwd, username, reqdId);
    if !Vanishes(reqdId) {
      assert Parent(zip) == Parent(target);
    }
    assert IsDirAt(t, Parent(zip));
  }

  /** Node reads the archive's name `<id>.zip` back with `<id>` as its
      stem, except for an empty id, whose archive `.zip` has no extension. */
  lemma ArchiveStem(reqdId: string)
    ensures reqdId != "" ==> ParseName(reqdId + ".zip") == reqdId
    ensures reqdId == "" ==> ParseName(reqdId + ".zip") == ".zip"
  {
    if reqdId != "" {
      SplitExtension(reqdId, ".zip");
    } else {
      var name := reqdId + ".zip";
      assert name == ".zip" && name[1] == 'z' && name[2] == 'i' && name[3] == 'p';
      assert LastDot(name) <= 0;
    }
  }

  /** A folder whose archive can be written: the archive is what is
      uploaded, as `<id>.zip` with `directory_path` `<id>` and the bearer
      token; after a 2xx answer it is deleted (an older file of that name
      included), after any other answer it stays on disk. */
  lemma SyncFolderUpload(t: Tree, cwd: Path, username: string, reqdId: string, token: StoredToken, reply: HttpReply)
    requires token.Token?
    requires SyncTarget(cwd, username, reqdId) in t && t[SyncTarget(cwd, username, reqdId)].Dir?
    requires WriteFile(t, ArchivePath(cwd, username, reqdId), ZipOf(SyncTarget(cwd, username, reqdId))).Ok?
    ensures var o := SyncSpec(t, cwd, username, reqdId, token, reply);
      var zip := ArchivePath(cwd, username, reqdId);
      && o.request.Some?
      && o.request.value.file == zip
      && o.request.value.fileName == reqdId + ".zip"
      && (reqdId != "" ==> o.request.value.directoryPath == reqdId)
      && (reqdId == "" ==> o.request.value.directoryPath == ".zip")
      && o.request.value.authorization == BearerAuthorization(AccessText(token.access))
      && (o.result.Forwarded? ==> o.tree == t - {zip})
      && (o.result.RequestFailed? ==> o.tree == t[zip := File(ZipOf(SyncTarget(cwd, username, reqdId)))])
  {
    var zip := ArchivePath(cwd, username, reqdId);
    ArchiveStem(reqdId);
    assert t[zip := File(ZipOf(SyncTarget(cwd, username, reqdId)))] - {zip} == t - {zip};
  }

  /** A file (or anything that is not a folder) is uploaded as it is, with
      its own name and its stem as `directory_path`, and the disk is left
      as it was. */
  lemma SyncFile(t: Tree, cwd: Path, username: string, reqdId: string, token: StoredToken, reply: HttpReply)
    requires token.Token?
    requires SyncTarget(cwd, username, reqdId) in t && !t[SyncTarget(cwd, username, reqdId)].Dir?
    ensures var o := SyncSpec(t, cwd, username, reqdId, token, reply);
      var target := SyncTarget(cwd, username, reqdId);
      && o.tree == t
      && !o.result.Unsettled?
      && o.request.Some?
      && o.request.value.file == target
      && o.request.value.fileName == Basename(target)
      && (!Vanishes(reqdId) ==> o.request.value.fileName == reqdId)
      && o.request.value.directoryPath + ExtName(Basename(target)) == Basename(target)
  {
    var target := SyncTarget(cwd, username, reqdId);
    assert Exists(t, target) && !IsDirAt(t, target);
    var x := SendFileToApi(target, ApiUrl, AccessText(token.access), username, reply);
    var o := SyncSpec(t, cwd, username, reqdId, token, reply);
    assert o.request == Some(x.request) && o.tree == t;
  }

  /** `hitApiWithFolderPathAndSubdirectories`, as the source runs it. The
      upload is the awaited `sendFileToAPI`; the endpoint's reply is an
      input. */
  method HitApiWithFolderPathAndSubdirectories(fs: FileSystem, cwd: Path, savedUsername: string, reqdId: string,
                                               token: StoredToken, reply: HttpReply)
    returns (result: SyncResult, request: Option<UploadRequest>)
    requires fs.Valid()
    modifies fs
    ensures fs.Valid()
    ensures var o := SyncSpec(old(fs.nodes), cwd, savedUsername, reqdId, token, reply);
      result == o.result && request == o.request && fs.nodes == o.tree
  {
    SyncKeepsValid(fs.nodes, cwd, savedUsername, reqdId, token, reply);
    var target := SyncTarget(cwd, savedUsername, reqdId);
    if token.NoToken? {
      return Failure(), None;
    }
    var accessToken := AccessText(token.access);
    var username := savedUsername;
    var st := fs.StatSync(target);
    if st.Err? {
      return Failure(), None;
    }
    if st.value.Dir? {
      var zip := ArchivePath(cwd, savedUsername, reqdId);
      var written := fs.WriteStream(zip, ZipOf(target));
      if written.Fail? {
        return Unsettled, None;
      }
      var x := SendFileToApi(zip, ApiUrl, accessToken, username, reply);
      request := Some(x.request);
      if x.result.Threw? {
        return Failure(), request;
      }
      var unlinked := fs.UnlinkSync(zip);
      result := Forwarded(x.result.response);
    } else {
      var x := SendFileToApi(target, ApiUrl, accessToken, username, reply);
      request := Some(x.request);
      result := if x.result.Threw? then Failure() else Forwarded(x.result.response);
    }
  }
}
