/**
 * The tool call: validate the request, then look at the log file, then run
 * the query.  Whether the file exists and whether it can be read are given as
 * booleans, and its lines as a sequence; the error payloads carry a code and
 * the message shown to the caller.
 */
module Tool {
  import opened Wrappers
  import opened Validate
  import opened Query

  datatype ErrorCode = InvalidParams | NotFound | PermissionDenied

  /** isError with an error object, or the query result as data. */
  datatype ToolResult = Failure(code: ErrorCode, message: string) | Success(data: QueryResult)

  const NotFoundMessage: string := "日志文件不存在"
  const PermissionDeniedMessage: string := "没有读取日志文件的权限"

  /** The tool's answer as a value: the first of the three failures that
      applies, in the order invalid parameters, missing file, unreadable file,
      and otherwise the query's result. */
  function Outcome(req: Request, fileExists: bool, canRead: bool, lines: seq<string>): ToolResult {
    if ValidateParams(req).Some? then Failure(InvalidParams, ValidateParams(req).value.Message())
    else if !fileExists then Failure(NotFound, NotFoundMessage)
    else if !canRead then Failure(PermissionDenied, PermissionDeniedMessage)
    else Success(Answer(req, lines))
  }

  /** The tool lambda: each check returns as soon as it fails, and the file is
      only scanned once all three have passed. */
  method CallTool(req: Request, fileExists: bool, canRead: bool, lines: seq<string>) returns (r: ToolResult)
    ensures r == Outcome(req, fileExists, canRead, lines)
  {
    var err := ValidateParams(req);
    if err.Some? {
      return Failure(InvalidParams, err.value.Message());
    }
    if !fileExists {
      return Failure(NotFound, NotFoundMessage);
    }
    if !canRead {
      return Failure(PermissionDenied, PermissionDeniedMessage);
    }
    var data := Handler(req, lines);
    return Success(data);
  }

  /** Which outcome a call has: invalid parameters exactly when validation
      finds a violation, whatever the file; a missing file only for a valid
      request; an unreadable one only for a valid request on an existing file;
      and a result exactly when all three checks pass. */
  lemma OutcomeOrder(req: Request, fileExists: bool, canRead: bool, lines: seq<string>)
    ensures var r := Outcome(req, fileExists, canRead, lines);
      && (r.Failure? && r.code == InvalidParams <==> exists e: ParamError :: Violates(req, e))
      && (r.Failure? && r.code == NotFound <==> (forall e: ParamError :: !Violates(req, e)) && !fileExists)
      && (r.Failure? && r.code == PermissionDenied <==>
            (forall e: ParamError :: !Violates(req, e)) && fileExists && !canRead)
      && (r.Success? <==> (forall e: ParamError :: !Violates(req, e)) && fileExists && canRead)
  {
    var v := ValidateParams(req);
    if v.Some? {
      assert Violates(req, v.value);
    }
  }

  /** An invalid request reports the message of its first violation, and a
      successful call reports the query's result whatever the file's flags
      were. */
  lemma OutcomeMessages(req: Request, fileExists: bool, canRead: bool, lines: seq<string>)
    ensures var r := Outcome(req, fileExists, canRead, lines);
      && (r.Failure? && r.code == InvalidParams ==>
            exists e: ParamError :: Violates(req, e) && r.message == e.Message()
              && forall e': ParamError :: e'.Rank() < e.Rank() ==> !Violates(req, e'))
      && (r.Success? ==> r.data == Answer(req, lines))
  {
    var v := ValidateParams(req);
    if v.Some? {
      assert Violates(req, v.value);
    }
  }

  /** A request that fails validation is answered without looking at the
      file: neither its existence, nor its readability, nor its lines matter. */
  lemma InvalidNeedsNoFile(req: Request, fileExists: bool, canRead: bool, lines: seq<string>,
                           fileExists': bool, canRead': bool, lines': seq<string>)
    requires ValidateParams(req).Some?
    ensures Outcome(req, fileExists, canRead, lines) == Outcome(req, fileExists', canRead', lines')
    ensures Outcome(req, fileExists, canRead, lines).Failure?
  {
  }
}
