/** `sendFileToAPI(filePath, apiUrl, accessToken, username)`: one multipart
    POST of a file with bearer authentication, and what the caller gets
    back. The transport itself is not modelled: the endpoint's answer is
    an input (`HttpReply`), and only the fields the request is built from
    are kept. */
module Upload {
  import opened FileTree
  import opened PathNames

  datatype HttpResponse = HttpResponse(status: int, statusText: string, body: string)

  /** What came back from `fetch`: a response, or a rejection with no
      response at all (DNS failure, refused connection, timeout). */
  datatype HttpReply = Received(response: HttpResponse) | NetworkFailure

  datatype UploadError =
    | ApiError(message: string)   // a response outside 2xx
    | NetworkError                // fetch itself rejected

  /** The settled promise: the response object, or the thrown error. */
  datatype UploadResult = Returned(response: HttpResponse) | Threw(error: UploadError)

  /** The request as sent: the URL, the Authorization header, the two text
      fields `directory_path` and `username`, and the `files` part (which
      file is streamed, under which file name). */
  datatype UploadRequest = UploadRequest(
    url: string,
    authorization: string,
    directoryPath: string,
    username: string,
    fileName: string,
    file: Path)

  datatype Exchange = Exchange(request: UploadRequest, result: UploadResult)

  /** `response.ok` */
  predicate IsOk(r: HttpResponse) {
    200 <= r.status <= 299
  }

  const BearerScheme := "Bearer"

  /** The Authorization header value for an access token. */
  function BearerAuthorization(token: string): string {
    BearerScheme + " " + token
  }

  predicate IsTokenChar(c: char) {
    || 'A' <= c <= 'Z' || 'a' <= c <= 'z' || '0' <= c <= '9'
    || c == '-' || c == '.' || c == '_' || c == '~' || c == '+' || c == '/'
  }

  /** The number of '=' padding characters that end s. */
  function TrailingPad(s: string): (k: nat)
    ensures k <= |s|
    ensures forall i :: |s| - k <= i < |s| ==> s[i] == '='
    ensures k < |s| ==> s[|s| - k - 1] != '='
  {
    if s != [] && s[|s| - 1] == '=' then 1 + TrailingPad(s[..|s| - 1]) else 0
  }

  /** b64token of section 2.1 of RFC 6750:
      1*( ALPHA / DIGIT / "-" / "." / "_" / "~" / "+" / "/" ) *"=". */
  predicate IsB64Token(s: string) {
    var n := |s| - TrailingPad(s);
    n >= 1 && forall i :: 0 <= i < n ==> IsTokenChar(s[i])
  }

  function DropSpaces(s: string): (r: string)
    ensures |r| <= |s| && s[|s| - |r|..] == r
    ensures r == [] || r[0] != ' '
  {
    if s != [] && s[0] == ' ' then DropSpaces(s[1..]) else s
  }

  /** How a server reads the header back: the scheme "Bearer" in any case,
      one or more spaces, then a b64token (section 2.1 of RFC 6750). */
  function ParseBearer(h: string): Option<string> {
    if |h| < 7 || Lower(h[..6]) != "bearer" || h[6] != ' ' then None
    else
      var credentials := DropSpaces(h[7..]);
      if IsB64Token(credentials) then Some(credentials) else None
  }

  /** The header sent carries exactly the access token, readable back by
      the server whenever the token is a b64token. */
  lemma BearerRoundTrip(token: string)
    requires IsB64Token(token)
    ensures ParseBearer(BearerAuthorization(token)) == Some(token)
  {
    var h := BearerAuthorization(token);
    assert h[..6] == BearerScheme;
    assert Lower(h[..6]) == "bearer";
    assert h[6] == ' ';
    assert h[7..] == token;
    assert token[0] != ' ';
  }

  /** The request `sendFileToAPI` builds for filePath. */
  function RequestFor(filePath: Path, apiUrl: string, accessToken: string, username: string): (r: UploadRequest)
    requires filePath != []
    ensures r.file == filePath && r.fileName == Basename(filePath)
  {
    var name := Basename(filePath);
    UploadRequest(apiUrl, BearerAuthorization(accessToken), ParseName(name), username, name, filePath)
  }

  /** The request goes to apiUrl with the caller's username; its file part
      streams filePath under its base name; `directory_path` is that name
      without its extension; and the Authorization header carries the
      access token so that the server reads back exactly that token. */
  lemma RequestCarries(filePath: Path, apiUrl: string, accessToken: string, username: string)
    requires filePath != []
    ensures var req := RequestFor(filePath, apiUrl, accessToken, username);
      && req.url == apiUrl && req.username == username
      && req.file == filePath && req.fileName == Basename(filePath)
      && req.directoryPath + ExtName(req.fileName) == req.fileName
      && (IsB64Token(accessToken) ==> ParseBearer(req.authorization) == Some(accessToken))
  {
    if IsB64Token(accessToken) {
      BearerRoundTrip(accessToken);
    }
  }

  /** What the awaited call yields for the endpoint's answer: an ok
      response is handed back as it is; any other response throws an
      error carrying its status text; a failed fetch throws. */
  function ResultOf(reply: HttpReply): (r: UploadResult)
    ensures r.Returned? <==> reply.Received? && IsOk(reply.response)
    ensures r.Returned? ==> r.response == reply.response
    ensures reply.Received? && !IsOk(reply.response) ==>
              r == Threw(ApiError("API Error: " + reply.response.statusText))
    ensures reply.NetworkFailure? ==> r == Threw(NetworkError)
  {
    match reply
    case NetworkFailure => Threw(NetworkError)
    case Received(response) =>
      if IsOk(response) then Returned(response)
      else Threw(ApiError("API Error: " + response.statusText))
  }

  /** `sendFileToAPI`: the request it sends and how it settles. It takes no
      filesystem state, so it deletes nothing. */
  function SendFileToApi(filePath: Path, apiUrl: string, accessToken: string, username: string, reply: HttpReply): (x: Exchange)
    requires filePath != []
    ensures x.request.url == apiUrl && x.request.file == filePath
    ensures x.result.Returned? <==> reply.Received? && IsOk(reply.response)
  {
    Exchange(RequestFor(filePath, apiUrl, accessToken, username), ResultOf(reply))
  }

  /** Uploading the archive `<dir>.zip` names the part `<dir>.zip` and sends
      `<dir>` as `directory_path`. */
  lemma ZipUploadNames(dir: Path, apiUrl: string, accessToken: string, username: string)
    requires dir != [] && Basename(dir) != ""
    ensures RequestFor(ZipPath(dir), apiUrl, accessToken, username).fileName == Basename(dir) + ".zip"
    ensures RequestFor(ZipPath(dir), apiUrl, accessToken, username).directoryPath == Basename(dir)
  {
    ZipPathNames(dir);
    var req := RequestFor(ZipPath(dir), apiUrl, accessToken, username);
    assert ExtName(req.fileName) == ".zip";
  }

  /** For a plain file the stem is sent as `directory_path`, whatever its
      extension: "scan.stl" is sent as directory "scan". */
  lemma FileUploadStripsAnyExtension(file: Path, stem: string, ext: string, apiUrl: string, accessToken: string, username: string)
    requires file != [] && stem != "" && IsExtension(ext) && Basename(file) == stem + ext && stem + ext != ".."
    ensures RequestFor(file, apiUrl, accessToken, username).directoryPath == stem
  {
    SplitExtension(stem, ext);
    var req := RequestFor(file, apiUrl, accessToken, username);
    assert req.directoryPath + ext == stem + ext;
  }
}
