/**
 * `POST /api/dropbox/upload`: authenticates the caller, checks that the
 * server has a Dropbox token and the body carries non-blank backup text,
 * builds a timestamped path and hands the upload to the Dropbox API. The
 * token verifier, the clock (as an ISO timestamp) and the HTTP call are
 * parameters.
 */
module DropboxUpload {
  import opened Wrappers
  import opened Text
  import BearerAuth
  import MS = MantraService
  import DataExport

  type Json = MS.Json

  const TokenMissing: string := "Dropbox access token not configured"
  const ContentRequired: string := "Backup content is required"
  const UploadFailed: string := "Dropbox upload failed"
  const Uploaded: string := "Backup uploaded to Dropbox"
  const DefaultName: string := "mantra-tracker-backup"
  const Folder: string := "/mantra-tracker/"
  /** The `TypeError` raised when `filename` is present but not a string. */
  const TrimNotAFunction: string := "body.filename?.trim is not a function"

  /** 401 when the message is about authentication or the token, otherwise 500. */
  function ErrorStatus(message: string): (r: int)
    ensures r == 401 <==> Contains(message, "authenticated") || Contains(message, "Invalid token")
    ensures r == 401 || r == 500
  {
    if Contains(message, "authenticated") || Contains(message, "Invalid token") then 401 else 500
  }

  /** Both authentication failures map to 401 here. */
  lemma AuthFailuresAre401()
    ensures ErrorStatus(BearerAuth.NotAuthenticated) == 401
    ensures ErrorStatus(BearerAuth.InvalidToken) == 401
  {
    assert Contains("Not authenticated"[4..], "authenticated") by {
      assert "Not authenticated"[4..][..13] == "authenticated";
    }
    assert Contains("Not authenticated"[3..], "authenticated");
    assert Contains("Not authenticated"[2..], "authenticated");
    assert Contains("Not authenticated"[1..], "authenticated");
    assert "Invalid token"[..13] == "Invalid token";
  }

  /** A message lacking one of the needle's characters does not contain the needle. */
  lemma MissingCharNotContained(s: string, sub: string, k: nat)
    requires k < |sub| && sub[k] !in s
    ensures !Contains(s, sub)
  {
    ContainsIff(s, sub);
  }

  /** The `trim` TypeError of a non-string file name is neither an authentication nor a token error, so it maps to 500. */
  lemma TrimErrorIs500()
    ensures ErrorStatus(TrimNotAFunction) == 500
  {
    assert forall j :: 0 <= j < |TrimNotAFunction| ==> TrimNotAFunction[j] != 'h' && TrimNotAFunction[j] != 'I';
    MissingCharNotContained(TrimNotAFunction, "authenticated", 3);
    MissingCharNotContained(TrimNotAFunction, "Invalid token", 0);
  }

  /** `.replace(/[:.]/g, '-')`. */
  function Dashed(s: string): (r: string)
    ensures |r| == |s|
    ensures forall k :: 0 <= k < |s| ==> r[k] == (if s[k] == ':' || s[k] == '.' then '-' else s[k])
    ensures ':' !in r && '.' !in r
  {
    seq(|s|, k requires 0 <= k < |s| => if s[k] == ':' || s[k] == '.' then '-' else s[k])
  }

  /** `body.filename?.trim() || DefaultName`, or the error a non-string name raises. */
  function FileName(filename: Option<Json>): (r: Result<string, string>)
    ensures r.Failure? <==> filename.Some? && !filename.value.JStr? && !filename.value.JNull?
    ensures r.Failure? ==> r.error == TrimNotAFunction
    ensures r.Success? ==> r.value != []
    ensures filename.Some? && filename.value.JStr? && !AllSpace(filename.value.s) ==> r == Success(Trim(filename.value.s))
    ensures (filename.None? || filename == Some(MS.JNull) || (filename.Some? && filename.value.JStr? && AllSpace(filename.value.s)))
            ==> r == Success(DefaultName)
  {
    match filename
    case None => Success(DefaultName)
    case Some(v) =>
      match v
      case JNull => Success(DefaultName)
      case JStr(s) => var t := Trim(s); Success(if t == [] then DefaultName else t)
      case _ => Failure(TrimNotAFunction)
  }

  /**
   * The Dropbox path of a backup: in the app's folder, the name, a dash, the
   * time with its `:` and `.` turned into dashes, and `.json`.
   */
  function PathOf(name: string, nowIso: string): (r: string)
    ensures StartsWith(r, Folder)
    ensures |r| == |Folder| + |name| + 1 + |nowIso| + 5
    ensures r[|Folder|..|Folder| + |name|] == name
    ensures r[|Folder| + |name|] == '-'
    ensures r[|Folder| + |name| + 1..|r| - 5] == Dashed(nowIso)
    ensures r[|r| - 5..] == ".json"
    ensures var stamp := r[|Folder| + |name| + 1..|r| - 5];
      ':' !in stamp && '.' !in stamp
  {
    Folder + name + "-" + Dashed(nowIso) + ".json"
  }

  /** The backup text when the body carries a string `content` that is not blank. */
  function Content(body: Option<Json>): (r: Option<string>)
    ensures r.Some? <==> (
              && body.Some? && body.value != MS.JNull
              && DataExport.Field(body.value, "content").Some?
              && DataExport.Field(body.value, "content").value.JStr?
              && !AllSpace(DataExport.Field(body.value, "content").value.s))
    ensures r.Some? ==> r.value == DataExport.Field(body.value, "content").value.s
  {
    if body.None? || body.value == MS.JNull then None
    else
      match DataExport.Field(body.value, "content")
      case Some(JStr(s)) => if Trim(s) == [] then None else Some(s)
      case _ => None
  }

  /** What the upload request returned: a success with its JSON, a non-OK status with its text, or a thrown error. */
  datatype Reply = ReplyOk(result: Json) | ReplyNotOk(status: int, text: string) | ReplyThrew(message: string)

  datatype Response =
    | Done(message: string, path: string, result: Json)
    | Failed(status: int, error: string, details: Option<string>)

  /**
   * `POST`: `dropboxToken` is the configured access token, `body` the parsed
   * request body (`None` when it does not parse), `send(token, path, content)`
   * the upload call.
   */
  function Post<P>(header: Option<string>, verify: string -> Option<P>, dropboxToken: Option<string>,
                   body: Option<Json>, nowIso: string, send: (string, string, string) -> Reply): (r: Response)
    ensures BearerAuth.Authenticate(header, verify).Failure? ==>
      r == Failed(401, BearerAuth.Authenticate(header, verify).error, None)
    ensures BearerAuth.Authenticate(header, verify).Success? && (dropboxToken.None? || dropboxToken.value == []) ==>
      r == Failed(500, TokenMissing, None)
    ensures (BearerAuth.Authenticate(header, verify).Success? && dropboxToken.Some? && dropboxToken.value != []
             && Content(body).None?) ==> r == Failed(400, ContentRequired, None)
    ensures r.Done? <==> (
              && BearerAuth.Authenticate(header, verify).Success?
              && dropboxToken.Some? && dropboxToken.value != []
              && Content(body).Some?
              && FileName(DataExport.Field(body.value, "filename")).Success?
              && send(dropboxToken.value, PathOf(FileName(DataExport.Field(body.value, "filename")).value, nowIso),
                      Content(body).value).ReplyOk?)
    ensures r.Done? ==>
      && r.message == Uploaded
      && r.path == PathOf(FileName(DataExport.Field(body.value, "filename")).value, nowIso)
    ensures (BearerAuth.Authenticate(header, verify).Success? && dropboxToken.Some? && dropboxToken.value != []
             && Content(body).Some?) ==>
      var name := FileName(DataExport.Field(body.value, "filename"));
      && (name.Failure? ==> r == Failed(500, TrimNotAFunction, None))
      && (name.Success? ==>
            var path := PathOf(name.value, nowIso);
            var reply := send(dropboxToken.value, path, Content(body).value);
            && (reply.ReplyOk? ==> r == Done(Uploaded, path, reply.result))
            && (reply.ReplyNotOk? ==> r == Failed(reply.status, UploadFailed, Some(reply.text)))
            && (reply.ReplyThrew? ==> r == Failed(ErrorStatus(reply.message), reply.message, None)))
  {
    match BearerAuth.Authenticate(header, verify)
    case Failure(e) => AuthFailuresAre401(); Failed(ErrorStatus(e), e, None)
    case Success(_) =>
      if dropboxToken.None? || dropboxToken.value == [] then Failed(500, TokenMissing, None)
      else
        match Content(body)
        case None => Failed(400, ContentRequired, None)
        case Some(content) =>
          match FileName(DataExport.Field(body.value, "filename"))
          case Failure(e) => TrimErrorIs500(); Failed(ErrorStatus(e), e, None)
          case Success(name) =>
            var path := PathOf(name, nowIso);
            match send(dropboxToken.value, path, content)
            case ReplyOk(result) => Done(Uploaded, path, result)
            case ReplyNotOk(status, text) => Failed(status, UploadFailed, Some(text))
            case ReplyThrew(message) => Failed(ErrorStatus(message), message, None)
  }
}
