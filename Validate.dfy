/**
 * validateParams: the request check that runs before the log file is touched.
 * The checks run in a fixed order and the first one that fails is reported.
 */
module Validate {
  import opened Wrappers
  import opened Text
  import opened Timestamp
  import opened Extract

  /** The tool's arguments, each already decoded from JSON to text (None when
      the argument is absent).  limit and offset hold the text of the JSON value
      as it is written, so a number 5 is "5" and a string "5" is "\"5\"". */
  datatype Request = Request(
    logPath: Option<string>,
    keyword: Option<string>,
    logLevel: Option<string>,
    startTime: Option<string>,
    endTime: Option<string>,
    limit: Option<string>,
    offset: Option<string>)

  /** The four violations, in the order they are checked. */
  datatype ParamError = MissingLogPath | UnsupportedLevel | BadStartTime | BadEndTime {
    function Rank(): nat {
      match this
      case MissingLogPath => 0
      case UnsupportedLevel => 1
      case BadStartTime => 2
      case BadEndTime => 3
    }

    function Message(): string {
      match this
      case MissingLogPath => "log_path 必须为非空字符串"
      case UnsupportedLevel => "log_level 仅支持 INFO/WARN/ERROR"
      case BadStartTime => "start_time 格式错误，应为 YYYY-MM-DD HH:MM:SS"
      case BadEndTime => "end_time 格式错误，应为 YYYY-MM-DD HH:MM:SS"
    }
  }

  /** The rule behind each violation, on its own. */
  predicate Violates(req: Request, e: ParamError) {
    match e
    case MissingLogPath => req.logPath.None? || IsBlank(req.logPath.value)
    case UnsupportedLevel =>
      req.logLevel.Some? && !IsBlank(req.logLevel.value) && req.logLevel.value !in ValidLevels
    case BadStartTime => req.startTime.Some? && ParseTime(req.startTime).None?
    case BadEndTime => req.endTime.Some? && ParseTime(req.endTime).None?
  }

  /** validateParams: the first rule the request breaks, in rank order, or
      none when it breaks none. */
  function ValidateParams(req: Request): (r: Option<ParamError>)
    ensures r.None? ==> forall e: ParamError :: !Violates(req, e)
    ensures r.Some? ==> Violates(req, r.value)
    ensures r.Some? ==> forall e: ParamError :: e.Rank() < r.value.Rank() ==> !Violates(req, e)
  {
    if req.logPath.None? || IsBlank(req.logPath.value) then Some(MissingLogPath)
    else if req.logLevel.Some? && !IsBlank(req.logLevel.value) && req.logLevel.value !in ValidLevels then
      Some(UnsupportedLevel)
    else if req.startTime.Some? && ParseTime(req.startTime).None? then Some(BadStartTime)
    else if req.endTime.Some? && ParseTime(req.endTime).None? then Some(BadEndTime)
    else None
  }

  /** Blank text is treated differently by the level and the time checks: a
      blank log_level passes, while a present but blank start_time or end_time
      can never be parsed and is rejected. */
  lemma BlankFields(req: Request)
    requires req.logPath.Some? && !IsBlank(req.logPath.value)
    ensures req.logLevel.Some? && IsBlank(req.logLevel.value) ==> ValidateParams(req) != Some(UnsupportedLevel)
    ensures (req.startTime.Some? && IsBlank(req.startTime.value) && !Violates(req, UnsupportedLevel))
      ==> ValidateParams(req) == Some(BadStartTime)
    ensures (&& req.endTime.Some? && IsBlank(req.endTime.value)
             && !Violates(req, UnsupportedLevel) && !Violates(req, BadStartTime))
      ==> ValidateParams(req) == Some(BadEndTime)
  {
  }

  /** A well-formed timestamp in start_time or end_time, with any whitespace
      around it, passes its check. */
  lemma FormattedTimesPass(req: Request, t: DateTime, pre: string, post: string)
    requires IsValid(t) && IsBlank(pre) && IsBlank(post)
    ensures req.startTime == Some(pre + Format(t) + post) ==> !Violates(req, BadStartTime)
    ensures req.endTime == Some(pre + Format(t) + post) ==> !Violates(req, BadEndTime)
  {
    ParseTimeRoundTrip(t, pre, post);
  }
}
