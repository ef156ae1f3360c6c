/**
 * handler: one forward pass over the lines of the log file that counts every
 * line passing the request's filter and keeps a window of those matches
 * chosen by offset and limit.
 *
 * The pass is the method Handler; Answer states the same result as "filter
 * the lines, then slice the matches", and the lemmas below are about Answer.
 */
module Query {
  import opened Wrappers
  import opened Text
  import opened Timestamp
  import opened Extract
  import opened Validate

  /** defaultLimit. */
  const DefaultLimit: int := 2000

  /** One reported line: its 1-based position in the whole file, the extracted
      timestamp written back in the `yyyy-MM-dd HH:mm:ss` layout, the extracted
      level, and the line itself. */
  datatype LogEntry = LogEntry(lineNumber: nat, timestamp: Option<string>, level: Option<Level>, text: string)

  /** The result record: count, totalMatched, the offset and limit in force,
      and the entries. */
  datatype QueryResult = QueryResult(count: nat, totalMatched: nat, offset: int, limit: int, entries: seq<LogEntry>)

  /** The filters a request asks for; None means the filter is off. */
  datatype Filter = Filter(keyword: Option<string>, level: Option<string>, start: Option<DateTime>, end: Option<DateTime>)

  /** The filters read from a request: the keyword lower-cased and dropped
      when blank, the level dropped when blank, and each time bound parsed. */
  function FilterOf(req: Request): Filter {
    var kw := if req.keyword.Some? && !IsBlank(Lower(req.keyword.value)) then Some(Lower(req.keyword.value)) else None;
    var lv := if req.logLevel.Some? && !IsBlank(req.logLevel.value) then req.logLevel else None;
    Filter(kw, lv, ParseTime(req.startTime), ParseTime(req.endTime))
  }

  /** `?.toIntOrNull() ?: d`. */
  function IntOr(s: Option<string>, d: int): int {
    if s.Some? && ToIntOrNull(s.value).Some? then ToIntOrNull(s.value).value else d
  }

  /** `ts?.format(timeFmt)`. */
  function FormatOpt(ts: Option<DateTime>): Option<string>
    requires ts.Some? ==> IsValid(ts.value)
  {
    if ts.Some? then Some(Format(ts.value)) else None
  }

  /** The keyword test: a case-blind substring test on the whole raw line. */
  predicate KeywordPasses(kw: Option<string>, line: string) {
    kw.None? || Contains(Lower(line), kw.value)
  }

  /** The level test: the extracted level must be the one asked for, so a line
      without a level never passes it. */
  predicate LevelPasses(lv: Option<string>, detected: Option<Level>) {
    lv.None? || (detected.Some? && detected.value.Name() == lv.value)
  }

  /** The time tests: only a line that has a timestamp can be excluded, and the
      bounds are inclusive. */
  predicate TimePasses(start: Option<DateTime>, end: Option<DateTime>, ts: Option<DateTime>) {
    && (start.None? || ts.None? || !Before(ts.value, start.value))
    && (end.None? || ts.None? || !After(ts.value, end.value))
  }

  /** A line is counted when every filter that is on passes. */
  predicate LineMatches(f: Filter, line: string) {
    var (ts, lv) := ExtractTimeLevel(line);
    KeywordPasses(f.keyword, line) && LevelPasses(f.level, lv) && TimePasses(f.start, f.end, ts)
  }

  /** The entry reported for a line at 1-based position n. */
  function EntryFor(line: string, n: nat): LogEntry {
    var (ts, lv) := ExtractTimeLevel(line);
    LogEntry(n, FormatOpt(ts), lv, line)
  }

  /** The entries of all matching lines, in file order. */
  function Matches(f: Filter, lines: seq<string>): seq<LogEntry>
    decreases |lines|
  {
    if lines == [] then []
    else
      var n := |lines|;
      var prev := Matches(f, lines[..n - 1]);
      if LineMatches(f, lines[n - 1]) then prev + [EntryFor(lines[n - 1], n)] else prev
  }

  function Max(a: int, b: int): int {
    if a < b then b else a
  }

  function Min(a: int, b: int): int {
    if a < b then a else b
  }

  /** The window: the matches after the first offset ones, at most limit of
      them. */
  function Window(all: seq<LogEntry>, offset: int, limit: int): seq<LogEntry> {
    var lo := if offset <= 0 then 0 else Min(offset, |all|);
    var hi := if limit <= 0 then lo else Min(lo + limit, |all|);
    all[lo..hi]
  }

  /** What the window holds: with o = max(offset, 0), entry j of the window is
      match number o + j + 1, and there are min(max(limit, 0), max(|all| - o, 0))
      entries, so none are skipped when offset is negative and none are kept
      when limit <= 0. */
  lemma WindowMeaning(all: seq<LogEntry>, offset: int, limit: int)
    ensures |Window(all, offset, limit)| == Min(Max(limit, 0), Max(|all| - Max(offset, 0), 0))
    ensures forall j :: 0 <= j < |Window(all, offset, limit)| ==>
      Window(all, offset, limit)[j] == all[Max(offset, 0) + j]
  {
  }

  /** Entry j of the window is entry max(offset, 0) + j of the whole. */
  lemma WindowIndex(all: seq<LogEntry>, offset: int, limit: int, j: nat)
    requires j < |Window(all, offset, limit)|
    ensures Max(offset, 0) + j < |all| && Window(all, offset, limit)[j] == all[Max(offset, 0) + j]
  {
    WindowMeaning(all, offset, limit);
  }

  /** Two entries of the window are in the order of the entries of the whole
      they come from. */
  lemma WindowKeepsOrder(all: seq<LogEntry>, offset: int, limit: int, j: nat, j': nat)
    requires j < j' < |Window(all, offset, limit)|
    ensures Max(offset, 0) + j' < |all|
    ensures all[Max(offset, 0) + j].lineNumber < all[Max(offset, 0) + j'].lineNumber ==>
      Window(all, offset, limit)[j].lineNumber < Window(all, offset, limit)[j'].lineNumber
  {
    WindowIndex(all, offset, limit, j);
    WindowIndex(all, offset, limit, j');
  }

  /** The result of handler, stated as filter then slice. */
  function Answer(req: Request, lines: seq<string>): QueryResult {
    var f := FilterOf(req);
    var kw, lv, st, et := f.keyword, f.level, f.start, f.end;
    var limit := IntOr(req.limit, DefaultLimit);
    var offset := IntOr(req.offset, 0);
    var all := Matches(f, lines);
    var w := Window(all, offset, limit);
    QueryResult(|w|, |all|, offset, limit, w)
  }

  /** handler: the single pass.  Each line is extracted once and checked
      against the filters one after the other, the first failing one skipping
      the line; a passing line is counted, and is kept while it is past the
      offset and the window has room. */
  method Handler(req: Request, lines: seq<string>) returns (res: QueryResult)
    ensures res == Answer(req, lines)
  {
    var f := FilterOf(req);
    var kw, lv, st, et := f.keyword, f.level, f.start, f.end;
    var limit := IntOr(req.limit, DefaultLimit);
    var offset := IntOr(req.offset, 0);

    var total := 0;
    var entries: seq<LogEntry> := [];
    ghost var matched: seq<LogEntry> := [];
    var idx := 0;
    while idx < |lines|
      invariant 0 <= idx <= |lines|
      invariant matched == Matches(f, lines[..idx])
      invariant total == |matched|
      invariant entries == Window(matched, offset, limit)
    {
      var line := lines[idx];
      idx := idx + 1;
      MatchesStep(f, lines, idx);
      var (ts, detLv) := ExtractTimeLevel(line);
      if kw.Some? && !Contains(Lower(line), kw.value) { continue; }
      if lv.Some? && (detLv.None? || detLv.value.Name() != lv.value) { continue; }
      if st.Some? && ts.Some? && Before(ts.value, st.value) { continue; }
      if et.Some? && ts.Some? && After(ts.value, et.value) { continue; }
      var e := LogEntry(idx, FormatOpt(ts), detLv, line);
      assert e == EntryFor(line, idx);
      WindowStep(matched, e, offset, limit);
      matched := matched + [e];
      total := total + 1;
      if total > offset && |entries| < limit {
        entries := entries + [e];
      }
    }
    assert lines[..idx] == lines;
    res := QueryResult(|entries|, total, offset, limit, entries);
  }

  /** Matches of a prefix one line longer. */
  lemma MatchesStep(f: Filter, lines: seq<string>, n: nat)
    requires 1 <= n <= |lines|
    ensures Matches(f, lines[..n]) ==
      Matches(f, lines[..n - 1]) + (if LineMatches(f, lines[n - 1]) then [EntryFor(lines[n - 1], n)] else [])
  {
    assert lines[..n][..n - 1] == lines[..n - 1];
  }

  /** The window of one more match: it grows by that match exactly when the
      match is past the offset and the window is below the limit. */
  lemma WindowStep(all: seq<LogEntry>, e: LogEntry, offset: int, limit: int)
    ensures Window(all + [e], offset, limit) ==
      Window(all, offset, limit) + (if |all| + 1 > offset && |Window(all, offset, limit)| < limit then [e] else [])
  {
    var all' := all + [e];
    var w, w' := Window(all, offset, limit), Window(all', offset, limit);
    var o := Max(offset, 0);
    WindowMeaning(all, offset, limit);
    WindowMeaning(all', offset, limit);
    var grows := |all| + 1 > offset && |w| < limit;
    var v := w + (if grows then [e] else []);
    assert |w'| == |v|;
    forall j | 0 <= j < |w'| ensures w'[j] == v[j] {
      WindowIndex(all', offset, limit, j);
      if j < |w| {
        WindowIndex(all, offset, limit, j);
        assert all'[o + j] == all[o + j];
      }
    }
  }

  // ---------------------------------------------------------------------------
  // What the matches are

  /** e reports a matching line of the file: it is the entry for the line at
      its 1-based position, with that line's raw text. */
  predicate Reports(f: Filter, lines: seq<string>, e: LogEntry) {
    && 1 <= e.lineNumber <= |lines| && e.text == lines[e.lineNumber - 1]
    && e == EntryFor(e.text, e.lineNumber) && LineMatches(f, e.text)
  }

  /** Every match reports a matching line. */
  lemma {:induction false} MatchSound(f: Filter, lines: seq<string>, k: nat)
    requires k < |Matches(f, lines)|
    ensures Reports(f, lines, Matches(f, lines)[k])
    decreases |lines|
  {
    var n := |lines|;
    var p := lines[..n - 1];
    if k < |Matches(f, p)| {
      MatchSound(f, p, k);
      var e := Matches(f, p)[k];
      assert p[e.lineNumber - 1] == lines[e.lineNumber - 1];
    }
  }

  /** The matches are in strictly increasing line order. */
  lemma {:induction false} MatchesOrdered(f: Filter, lines: seq<string>, k: nat, k': nat)
    requires k < k' < |Matches(f, lines)|
    ensures Matches(f, lines)[k].lineNumber < Matches(f, lines)[k'].lineNumber
    decreases |lines|
  {
    var n := |lines|;
    var p := lines[..n - 1];
    var mp := Matches(f, p);
    if k' < |mp| {
      MatchesOrdered(f, p, k, k');
    } else {
      MatchSound(f, p, k);
      assert Matches(f, lines)[k'] == EntryFor(lines[n - 1], n);
    }
  }

  /** The matches of a prefix of the file are a prefix of its matches. */
  lemma {:induction false} MatchesPrefix(f: Filter, lines: seq<string>, j: nat)
    requires j <= |lines|
    ensures var q := Matches(f, lines[..j]); |q| <= |Matches(f, lines)| && Matches(f, lines)[..|q|] == q
    decreases |lines|
  {
    if j < |lines| {
      var n := |lines|;
      var p := lines[..n - 1];
      assert p[..j] == lines[..j];
      MatchesPrefix(f, p, j);
      assert lines[..n] == lines;
      MatchesStep(f, lines, n);
    } else {
      assert lines[..j] == lines;
    }
  }

  /** Every matching line is reported, as the entry for its line. */
  lemma MatchComplete(f: Filter, lines: seq<string>, i: nat)
    requires i < |lines| && LineMatches(f, lines[i])
    ensures exists k :: 0 <= k < |Matches(f, lines)| && Matches(f, lines)[k] == EntryFor(lines[i], i + 1)
  {
    var q := Matches(f, lines[..i + 1]);
    MatchesStep(f, lines, i + 1);
    MatchesPrefix(f, lines, i + 1);
    var k := |Matches(f, lines[..i])|;
    assert q[k] == EntryFor(lines[i], i + 1);
    assert Matches(f, lines)[..|q|][k] == Matches(f, lines)[k];
  }

  // ---------------------------------------------------------------------------
  // Properties of the result

  /** count is the window's size and at most totalMatched; totalMatched is the
      number of matching lines; at most limit entries when limit >= 0, none when
      limit <= 0, and none when offset reaches the total. */
  lemma AnswerBounds(req: Request, lines: seq<string>)
    ensures var r := Answer(req, lines);
      && r.count == |r.entries| <= r.totalMatched
      && r.totalMatched == |Matches(FilterOf(req), lines)|
      && (r.limit >= 0 ==> r.count <= r.limit)
      && (r.limit <= 0 ==> r.entries == [])
      && (r.offset >= r.totalMatched ==> r.entries == [])
  {
    var r := Answer(req, lines);
    WindowMeaning(Matches(FilterOf(req), lines), r.offset, r.limit);
  }

  /** The offset and limit in force are those of the request when they are
      integers, and 0 and 2000 when they are absent or not integers. */
  lemma AnswerEchoesPaging(req: Request, lines: seq<string>)
    ensures var r := Answer(req, lines);
      && (req.offset.None? || ToIntOrNull(req.offset.value).None? ==> r.offset == 0)
      && (req.limit.None? || ToIntOrNull(req.limit.value).None? ==> r.limit == 2000)
      && (req.limit.Some? && ToIntOrNull(req.limit.value).Some? ==> r.limit == ToIntOrNull(req.limit.value).value)
      && (req.offset.Some? && ToIntOrNull(req.offset.value).Some? ==> r.offset == ToIntOrNull(req.offset.value).value)
  {
  }

  /** Entry j of the window is match number max(offset, 0) + j + 1: a matching
      line, at its position in the file, with its raw text. */
  lemma WindowEntry(f: Filter, lines: seq<string>, offset: int, limit: int, j: nat)
    requires j < |Window(Matches(f, lines), offset, limit)|
    ensures Window(Matches(f, lines), offset, limit)[j] == Matches(f, lines)[Max(offset, 0) + j]
    ensures Reports(f, lines, Window(Matches(f, lines), offset, limit)[j])
  {
    var m := Matches(f, lines);
    WindowMeaning(m, offset, limit);
    var k := Max(offset, 0) + j;
    assert Window(m, offset, limit)[j] == m[k];
    MatchSound(f, lines, k);
  }

  /** The window is in strictly increasing line order. */
  lemma WindowOrdered(f: Filter, lines: seq<string>, offset: int, limit: int, j: nat, j': nat)
    requires j < j' < |Window(Matches(f, lines), offset, limit)|
    ensures Window(Matches(f, lines), offset, limit)[j].lineNumber
      < Window(Matches(f, lines), offset, limit)[j'].lineNumber
  {
    MatchesAreOrdered(f, lines);
    WindowOfOrdered(Matches(f, lines), offset, limit);
  }

  /** Entries in strictly increasing line order. */
  predicate Ordered(s: seq<LogEntry>) {
    forall k, k' :: 0 <= k < k' < |s| ==> s[k].lineNumber < s[k'].lineNumber
  }

  /** All the matches are in strictly increasing line order. */
  lemma MatchesAreOrdered(f: Filter, lines: seq<string>)
    ensures Ordered(Matches(f, lines))
  {
    forall k, k' | 0 <= k < k' < |Matches(f, lines)| {
      MatchesOrdered(f, lines, k, k');
    }
  }

  /** A window of entries in line order is itself in line order. */
  lemma WindowOfOrdered(all: seq<LogEntry>, offset: int, limit: int)
    requires Ordered(all)
    ensures Ordered(Window(all, offset, limit))
  {
    forall j, j' | 0 <= j < j' < |Window(all, offset, limit)| {
      WindowKeepsOrder(all, offset, limit, j, j');
    }
  }

  /** Entry j of the result is match number max(offset, 0) + j + 1: a matching
      line, at its position in the file, with its raw text. */
  lemma AnswerEntries(req: Request, lines: seq<string>, j: nat)
    requires j < |Answer(req, lines).entries|
    ensures Answer(req, lines).entries[j] == Matches(FilterOf(req), lines)[Max(Answer(req, lines).offset, 0) + j]
    ensures Reports(FilterOf(req), lines, Answer(req, lines).entries[j])
  {
    var f := FilterOf(req);
    var r := Answer(req, lines);
    assert r.entries == Window(Matches(f, lines), r.offset, r.limit);
    WindowEntry(f, lines, r.offset, r.limit, j);
  }

  /** The entries of the result are in strictly increasing line order. */
  lemma AnswerOrdered(req: Request, lines: seq<string>, j: nat, j': nat)
    requires j < j' < |Answer(req, lines).entries|
    ensures Answer(req, lines).entries[j].lineNumber < Answer(req, lines).entries[j'].lineNumber
  {
    var f := FilterOf(req);
    var r := Answer(req, lines);
    assert r.entries == Window(Matches(f, lines), r.offset, r.limit);
    WindowOrdered(f, lines, r.offset, r.limit, j, j');
  }

  /** totalMatched depends on the filters and the file alone, never on offset
      or limit, because the pass never stops early. */
  lemma TotalIgnoresPaging(req: Request, lines: seq<string>, limit: Option<string>, offset: Option<string>)
    ensures Answer(req.(limit := limit, offset := offset), lines).totalMatched == Answer(req, lines).totalMatched
  {
  }

  /** With a level filter on, every entry carries exactly that level. */
  lemma LevelFilterKeepsLevel(req: Request, lines: seq<string>)
    requires req.logLevel.Some? && !IsBlank(req.logLevel.value)
    ensures forall e :: e in Answer(req, lines).entries ==>
      e.level.Some? && e.level.value.Name() == req.logLevel.value
  {
    var r := Answer(req, lines);
    forall e | e in r.entries ensures e.level.Some? && e.level.value.Name() == req.logLevel.value {
      var j :| 0 <= j < |r.entries| && r.entries[j] == e;
      AnswerEntries(req, lines, j);
    }
  }

  /** A line without a timestamp is never excluded by the time bounds. */
  lemma NoStampIgnoresTimeBounds(f: Filter, line: string)
    requires ExtractTimeLevel(line).0.None?
    ensures LineMatches(f, line) == LineMatches(f.(start := None, end := None), line)
  {
  }

  /** A line with a timestamp passes the bounds exactly when it lies between
      them, both ends included. */
  lemma StampWithinBounds(f: Filter, line: string)
    requires ExtractTimeLevel(line).0.Some? && f.start.Some? && f.end.Some?
    ensures var t := ExtractTimeLevel(line).0.value;
      (TimePasses(f.start, f.end, ExtractTimeLevel(line).0)
       <==> (f.start.value == t || Before(f.start.value, t)) && (t == f.end.value || Before(t, f.end.value)))
  {
    var t := ExtractTimeLevel(line).0.value;
    BeforeIsStrictTotalOrder(t, f.start.value, t);
    BeforeIsStrictTotalOrder(t, f.end.value, t);
  }

  /** The keyword test is case-blind on both sides: it passes exactly when the
      lower-cased keyword occurs somewhere in the lower-cased raw line,
      timestamp and level included, and two keywords that differ only in case
      select the same lines. */
  lemma KeywordIgnoresCase(req: Request, k: string, k': string, line: string)
    requires req.keyword == Some(k) && !IsBlank(k) && Lower(k) == Lower(k')
    ensures FilterOf(req).keyword == Some(Lower(k))
    ensures KeywordPasses(FilterOf(req).keyword, line) <==> exists i :: OccursAt(Lower(line), Lower(k), i)
    ensures FilterOf(req.(keyword := Some(k'))) == FilterOf(req)
  {
    LowerFacts(k);
    LowerFacts(k');
    ContainsMeaning(Lower(line), Lower(k));
  }

  /** A validated request's filters: a non-blank level is one of the three
      names, and a start_time or end_time that is given always becomes a bound. */
  lemma ValidatedFilter(req: Request)
    requires ValidateParams(req).None?
    ensures FilterOf(req).level.Some? ==> FilterOf(req).level.value in ValidLevels
    ensures req.startTime.Some? ==> FilterOf(req).start.Some?
    ensures req.endTime.Some? ==> FilterOf(req).end.Some?
  {
    assert !Violates(req, UnsupportedLevel);
    assert !Violates(req, BadStartTime);
    assert !Violates(req, BadEndTime);
  }

  /** The timestamp text of an entry parses back to the timestamp extracted
      from its line. */
  lemma EntryStampReparses(line: string, n: nat)
    ensures EntryFor(line, n).timestamp.Some? ==>
      ParseTime(EntryFor(line, n).timestamp) == ExtractTimeLevel(line).0
    ensures EntryFor(line, n).timestamp.None? <==> ExtractTimeLevel(line).0.None?
  {
    var ts := ExtractTimeLevel(line).0;
    if ts.Some? {
      ParseTimeRoundTrip(ts.value, "", "");
      assert "" + Format(ts.value) + "" == Format(ts.value);
    }
  }

  // ---------------------------------------------------------------------------
  // Scenarios

  /** With every filter off, every line is a match. */
  lemma {:induction false} UnfilteredMatchesAll(lines: seq<string>)
    ensures |Matches(Filter(None, None, None, None), lines)| == |lines|
    ensures forall k :: 0 <= k < |lines| ==>
      Matches(Filter(None, None, None, None), lines)[k] == EntryFor(lines[k], k + 1)
    decreases |lines|
  {
    if lines != [] {
      var n := |lines|;
      var p := lines[..n - 1];
      var f := Filter(None, None, None, None);
      UnfilteredMatchesAll(p);
      var mp := Matches(f, p);
      var m := mp + [EntryFor(lines[n - 1], n)];
      assert Matches(f, lines) == m by {
        assert LineMatches(f, lines[n - 1]);
      }
      forall k | 0 <= k < n - 1 ensures m[k] == EntryFor(lines[k], k + 1) {
        assert m[k] == mp[k] && p[k] == lines[k];
      }
    }
  }

  /** A five-line file with no filters, offset 1 and limit 1: all five lines
      match and the one entry is the second line. */
  lemma PageScenario(path: string, lines: seq<string>)
    requires !IsBlank(path) && |lines| == 5
    ensures var req := Request(Some(path), None, None, None, None, Some("1"), Some("1"));
      && ValidateParams(req).None?
      && Answer(req, lines).totalMatched == 5
      && Answer(req, lines).count == 1
      && Answer(req, lines).entries == [EntryFor(lines[1], 2)]
  {
    var req := Request(Some(path), None, None, None, None, Some("1"), Some("1"));
    assert DecimalValue("1") == 1 by {
      assert "1"[..0] == [];
    }
    assert IntOr(req.limit, DefaultLimit) == 1 && IntOr(req.offset, 0) == 1;
    assert FilterOf(req) == Filter(None, None, None, None);
    UnfilteredMatchesAll(lines);
    var m := Matches(FilterOf(req), lines);
    WindowMeaning(m, 1, 1);
  }

  /** The matches of the level filter ERROR alone on five lines whose levels
      are INFO, ERROR, WARN, ERROR and INFO: lines 2 and 4. */
  lemma ErrorLinesOfFive(lines: seq<string>)
    requires |lines| == 5
    requires ExtractTimeLevel(lines[0]).1 == Some(Info) && ExtractTimeLevel(lines[1]).1 == Some(Error)
    requires ExtractTimeLevel(lines[2]).1 == Some(Warn) && ExtractTimeLevel(lines[3]).1 == Some(Error)
    requires ExtractTimeLevel(lines[4]).1 == Some(Info)
    ensures Matches(Filter(None, Some("ERROR"), None, None), lines) == [EntryFor(lines[1], 2), EntryFor(lines[3], 4)]
  {
    var f := Filter(None, Some("ERROR"), None, None);
    assert lines[..0] == [];
    MatchesStep(f, lines, 1);
    MatchesStep(f, lines, 2);
    MatchesStep(f, lines, 3);
    MatchesStep(f, lines, 4);
    MatchesStep(f, lines, 5);
    assert lines[..5] == lines;
  }

  /** A five-line file whose lines carry the levels INFO, ERROR, WARN, ERROR and
      INFO, filtered by level ERROR with the default paging: two matches, both
      reported. */
  lemma LevelScenario(path: string, lines: seq<string>)
    requires !IsBlank(path) && |lines| == 5
    requires ExtractTimeLevel(lines[0]).1 == Some(Info) && ExtractTimeLevel(lines[1]).1 == Some(Error)
    requires ExtractTimeLevel(lines[2]).1 == Some(Warn) && ExtractTimeLevel(lines[3]).1 == Some(Error)
    requires ExtractTimeLevel(lines[4]).1 == Some(Info)
    ensures var req := Request(Some(path), None, Some("ERROR"), None, None, None, None);
      && ValidateParams(req).None?
      && Answer(req, lines).totalMatched == 2
      && Answer(req, lines).count == 2
      && Answer(req, lines).entries == [EntryFor(lines[1], 2), EntryFor(lines[3], 4)]
  {
    var req := Request(Some(path), None, Some("ERROR"), None, None, None, None);
    assert !IsWhitespace("ERROR"[0]);
    assert FilterOf(req) == Filter(None, Some("ERROR"), None, None);
    ErrorLinesOfFive(lines);
    WindowMeaning(Matches(FilterOf(req), lines), 0, DefaultLimit);
  }

  /** The keyword test of "TimeOut" on its own: a line passes it exactly when
      its lower-cased text contains "timeout". */
  lemma TimeoutKeyword(path: string, line: string)
    requires !IsBlank(path)
    ensures var req := Request(Some(path), Some("TimeOut"), None, None, None, None, None);
      && FilterOf(req) == Filter(Some("timeout"), None, None, None)
      && (LineMatches(FilterOf(req), line) <==> Contains(Lower(line), "timeout"))
  {
    LowerFacts("TimeOut");
    assert Lower("TimeOut") == "timeout";
    assert !IsWhitespace("timeout"[0]);
  }

  /** The keyword "TimeOut" on a file where exactly line i contains "timeout"
      in any mix of cases: one match, the entry for line i. */
  lemma KeywordScenario(path: string, lines: seq<string>, i: nat)
    requires !IsBlank(path)
    requires i < |lines| && Contains(Lower(lines[i]), "timeout")
    requires forall j :: 0 <= j < |lines| && j != i ==> !Contains(Lower(lines[j]), "timeout")
    ensures var req := Request(Some(path), Some("TimeOut"), None, None, None, None, None);
      && ValidateParams(req).None?
      && Answer(req, lines).totalMatched == 1
      && Answer(req, lines).entries == [EntryFor(lines[i], i + 1)]
  {
    var req := Request(Some(path), Some("TimeOut"), None, None, None, None, None);
    var f := FilterOf(req);
    TimeoutKeyword(path, lines[i]);
    var m := Matches(f, lines);
    MatchComplete(f, lines, i);
    var k :| 0 <= k < |m| && m[k] == EntryFor(lines[i], i + 1);
    forall k' | 0 <= k' < |m| ensures m[k'].lineNumber == i + 1 {
      MatchSound(f, lines, k');
      TimeoutKeyword(path, lines[m[k'].lineNumber - 1]);
    }
    if |m| > 1 {
      MatchesOrdered(f, lines, 0, 1);
      assert false;
    }
    assert m == [EntryFor(lines[i], i + 1)];
    WindowMeaning(m, 0, DefaultLimit);
  }

  /** A limit past the 32-bit range is not an integer to toIntOrNull, so the
      default of 2000 is used. */
  lemma OverflowingLimitFallsBack(req: Request, lines: seq<string>)
    requires req.limit == Some("2147483648")
    ensures Answer(req, lines).limit == DefaultLimit
  {
    ToIntOrNullOverflow();
  }
}
