# Log query engine of the Kotlin log MCP server, in Dafny

The server exposes a single tool, `call`, that searches a server log file.
The request names the file. It can also give a keyword, a severity level
(INFO, WARN or ERROR), an inclusive time range in the `yyyy-MM-dd HH:mm:ss`
layout, and a window given by offset and limit.

The engine handles a request in four steps:
1. It validates the request. The checks run in a fixed order and the first
   failure is reported.
2. It refuses a missing or unreadable file.
3. It reads every line of the file once. From each line it extracts an
   optional leading timestamp and the first whole-word level.
4. It counts the lines that pass every filter that is on, and keeps the
   matches that fall in the window.

The result holds the number of entries kept, the total number of matches,
the offset and limit in force, and the entries. Each entry holds its line
number, timestamp, level and raw text.

Modules, in dependency order:

- `Wrappers`: `Option`.
- `Text`: Kotlin's blank test and `trim` (by `Char.isWhitespace`), ASCII
  lower-casing, `String.contains`, and `String.toIntOrNull` with its 32-bit
  range.
- `Timestamp`: the date-time value, its order (`isBefore`/`isAfter`), the
  strict layout parse `ParseStamp`, `ParseTime`, and `Format`.
- `Extract`: the two regular expressions written out as predicates, and
  `ExtractTimeLevel`.
- `Validate`: the request, the four violations with their exact messages, and
  `ValidateParams`.
- `Query`: the filter, the pure specification `Answer` ("filter the lines,
  then slice the matches"), and the method `Handler`. `Handler` is the
  source's single pass with its counters, and it is proved equal to `Answer`.
- `Tool`: the order in which the tool lambda reports errors. File existence
  and readability are boolean inputs, and the file's contents are a sequence
  of lines.

Which behaviours the model follows:

- **The window is what the loop keeps.** The tool's schema (lines 133-134) says
  only that results are returned starting from the offset into the matches,
  and that limit is the largest number of entries returned. The window is
  whatever the loop condition at line 85 (`total > offset && entries.size <
  limit`) keeps. For offset >= 0 and limit >= 0 that is the matches with
  ordinal k where offset < k <= offset + limit. For other values:
  - With a negative offset, the window starts at the first match and still
    holds up to `limit` entries.
  - With `limit <= 0`, the window is empty.
  - Neither value is validated anywhere. So "0 <= count <= limit" fails for a
    negative limit: count is 0 there. `Query.AnswerBounds` states what does
    hold.
- **Request fields.** Each field is the decoded text of its JSON value, or
  none when the key is absent.
- **limit and offset.** These are the JSON value's text parsed with
  `toIntOrNull`. So a JSON string `"5"`, whose text keeps its quotes, falls
  back to the default.

## Model

| member | source | states |
|---|---|---|
| Text.TrimShape | kotlin-mcp-server/src/main/kotlin/com/jaychou/mcp/SdkServer.kt:37-38 | `trim` of a non-blank string is non-empty and starts and ends with non-whitespace. A string that already does is left unchanged. |
| Text.TrimAround | kotlin-mcp-server/src/main/kotlin/com/jaychou/mcp/SdkServer.kt:38 | `trim` removes exactly the whitespace around a string whose ends are non-whitespace. |
| Text.LowerFacts | kotlin-mcp-server/src/main/kotlin/com/jaychou/mcp/SdkServer.kt:66 | Lower-casing is idempotent, and it neither creates nor removes blankness, so `takeIf { isNotBlank }` sees the same thing before and after it. |
| Text.ContainsMeaning | kotlin-mcp-server/src/main/kotlin/com/jaychou/mcp/SdkServer.kt:80 | `contains` holds exactly when the keyword occurs at some index of the line. |
| Text.ToIntOrNull | kotlin-mcp-server/src/main/kotlin/com/jaychou/mcp/SdkServer.kt:70-71 | A value is produced only for an optionally signed string of ASCII digits, and only when it fits a 32-bit Int. |
| Text.ToIntOrNullValue | kotlin-mcp-server/src/main/kotlin/com/jaychou/mcp/SdkServer.kt:70-71 | An optional sign followed by digits reads as the signed decimal value of the digits when that value fits a 32-bit Int, and as none when it does not. |
| Text.ToIntOrNullOverflow | kotlin-mcp-server/src/main/kotlin/com/jaychou/mcp/SdkServer.kt:70-71 | "2147483648" and "-2147483649", one past either end of the Int range, give none. "-2147483648" gives the smallest Int. |
| Text.IntRoundTrip | kotlin-mcp-server/src/main/kotlin/com/jaychou/mcp/SdkServer.kt:70-71 | Every 32-bit integer written in decimal parses back to itself. |
| Timestamp.BeforeIsStrictTotalOrder | kotlin-mcp-server/src/main/kotlin/com/jaychou/mcp/SdkServer.kt:82-83 | `isBefore` is irreflexive, asymmetric, transitive and total, so the two bound tests form an inclusive window. |
| Timestamp.Resolve | kotlin-mcp-server/src/main/kotlin/com/jaychou/mcp/SdkServer.kt:38 | The resolver gives a value exactly when the month is 1-12, the day 1-31, the hour, minute and second in range and the year at least 1. The value has the given fields, except that a day past the end of its month becomes the month's last day. |
| Timestamp.ParseStamp | kotlin-mcp-server/src/main/kotlin/com/jaychou/mcp/SdkServer.kt:38 | A parse succeeds only on text in the exact layout, and it yields a valid date-time. |
| Timestamp.ParseStampMeaning | kotlin-mcp-server/src/main/kotlin/com/jaychou/mcp/SdkServer.kt:38 | Text in the layout parses exactly when its six fields are in range, and then to those fields, with a day past the end of its month moved back to the month's last day. |
| Timestamp.RenderOfFields | kotlin-mcp-server/src/main/kotlin/com/jaychou/mcp/SdkServer.kt:38 | Text in the layout is the zero-padded writing out of its own six fields. |
| Timestamp.StampFormatRoundTrip | kotlin-mcp-server/src/main/kotlin/com/jaychou/mcp/SdkServer.kt:38 | Text that parses formats back to itself exactly when its day was not moved back. |
| Timestamp.ParseRendered | kotlin-mcp-server/src/main/kotlin/com/jaychou/mcp/SdkServer.kt:38 | Numbers that fit their field widths, written out in the layout, parse as the resolver decides about them. |
| Timestamp.MonthThirteenFails | kotlin-mcp-server/src/main/kotlin/com/jaychou/mcp/SdkServer.kt:38 | The text 2024-13-01 00:00:00 does not parse. |
| Timestamp.FebruaryThirtiethClamps | kotlin-mcp-server/src/main/kotlin/com/jaychou/mcp/SdkServer.kt:38 | The text 2023-02-30 12:00:00 parses as 2023-02-28 12:00:00. |
| Timestamp.ParseTime | kotlin-mcp-server/src/main/kotlin/com/jaychou/mcp/SdkServer.kt:36-39 | Absent or blank input gives none. Otherwise the result is the parse of the trimmed text, so every failure is none, never an error. A result is a valid date-time whose trimmed text has the layout. |
| Timestamp.PadRoundTrip | kotlin-mcp-server/src/main/kotlin/com/jaychou/mcp/SdkServer.kt:89 | A zero-padded field of width w reads back as its value. |
| Timestamp.PadOfDigits | kotlin-mcp-server/src/main/kotlin/com/jaychou/mcp/SdkServer.kt:89 | A numeral zero-padded to its own width after reading its value is the numeral again. |
| Timestamp.FormatParseRoundTrip | kotlin-mcp-server/src/main/kotlin/com/jaychou/mcp/SdkServer.kt:89 | A formatted date-time has the layout and parses back to itself. |
| Timestamp.ParseTimeRoundTrip | kotlin-mcp-server/src/main/kotlin/com/jaychou/mcp/SdkServer.kt:36-39 | `parseTime` of a formatted date-time gives it back, even with whitespace around it. |
| Extract.ValidLevelsAreNames | kotlin-mcp-server/src/main/kotlin/com/jaychou/mcp/SdkServer.kt:32 | `validLevels` holds exactly the names of the three levels. |
| Extract.LevelAtComplete | kotlin-mcp-server/src/main/kotlin/com/jaychou/mcp/SdkServer.kt:44 | The level expression matches level l at index i exactly when l's name stands there as a whole word. |
| Extract.ScanLevelFindsFirst | kotlin-mcp-server/src/main/kotlin/com/jaychou/mcp/SdkServer.kt:44-45 | `find` gives none exactly when no index holds a level word. Otherwise it gives the level at the first index that holds one. |
| Extract.ExtractTimeLevel | kotlin-mcp-server/src/main/kotlin/com/jaychou/mcp/SdkServer.kt:41-47 | Extraction is defined on every line, and an extracted timestamp is a valid date-time. |
| Extract.ExtractTimeLevelMeaning | kotlin-mcp-server/src/main/kotlin/com/jaychou/mcp/SdkServer.kt:41-47 | A timestamp is found only when the timestamp expression matches. It is then exactly `parseTime` of the date-time group. The level is none exactly when no whole-word level occurs, and otherwise it is the first one. |
| Extract.GroupNeedsNoTrim | kotlin-mcp-server/src/main/kotlin/com/jaychou/mcp/SdkServer.kt:43 | `parseTime` of a matched group is the plain layout parse, because the group is never blank and has nothing to trim. |
| Extract.StampLine | kotlin-mcp-server/src/main/kotlin/com/jaychou/mcp/SdkServer.kt:42-43 | A line that starts with layout text, an optional `[,.]digits` fraction and a whitespace character yields the parse of that text, whatever follows. |
| Extract.ExtractStampRoundTrip | kotlin-mcp-server/src/main/kotlin/com/jaychou/mcp/SdkServer.kt:42-43 | A line that starts with a formatted timestamp, an optional fraction and a whitespace character yields that timestamp. The fraction is dropped. |
| Extract.FirstLevelWins | kotlin-mcp-server/src/main/kotlin/com/jaychou/mcp/SdkServer.kt:44-45 | A whole-word level with no level word before it is the level extracted. |
| Validate.ValidateParams | kotlin-mcp-server/src/main/kotlin/com/jaychou/mcp/SdkServer.kt:49-63 | None is returned only when no rule is broken. Otherwise the result is a broken rule, and no rule ranked earlier is broken. The order is path, level, start, end. |
| Validate.BlankFields | kotlin-mcp-server/src/main/kotlin/com/jaychou/mcp/SdkServer.kt:52-61 | A blank log_level is accepted. A present but blank start_time or end_time is rejected. |
| Validate.FormattedTimesPass | kotlin-mcp-server/src/main/kotlin/com/jaychou/mcp/SdkServer.kt:56-61 | A well-formed time, with whitespace around it, passes its check. |
| Query.WindowMeaning | kotlin-mcp-server/src/main/kotlin/com/jaychou/mcp/SdkServer.kt:85 | With o = max(offset, 0), window entry j is match o + j. The window size is min(max(limit, 0), max(total - o, 0)). |
| Query.Handler | kotlin-mcp-server/src/main/kotlin/com/jaychou/mcp/SdkServer.kt:65-105 | The single pass with its counters returns exactly the filter-then-slice answer. |
| Query.MatchesStep | kotlin-mcp-server/src/main/kotlin/com/jaychou/mcp/SdkServer.kt:77-84 | One more line adds its entry to the matches exactly when it passes the filter. |
| Query.WindowStep | kotlin-mcp-server/src/main/kotlin/com/jaychou/mcp/SdkServer.kt:84-86 | One more match enters the window exactly when `total > offset` and there is room below `limit`. |
| Query.MatchSound | kotlin-mcp-server/src/main/kotlin/com/jaychou/mcp/SdkServer.kt:77-91 | Every match is the entry for a line that passes the filter. It carries that line's 1-based position and its raw text. |
| Query.MatchesOrdered | kotlin-mcp-server/src/main/kotlin/com/jaychou/mcp/SdkServer.kt:76-78 | The matches are in strictly increasing line order. |
| Query.MatchesPrefix | kotlin-mcp-server/src/main/kotlin/com/jaychou/mcp/SdkServer.kt:77-84 | The matches of the first j lines are the first matches of the whole file. |
| Query.MatchComplete | kotlin-mcp-server/src/main/kotlin/com/jaychou/mcp/SdkServer.kt:77-84 | Every line that passes the filter appears among the matches as its entry. |
| Query.AnswerBounds | kotlin-mcp-server/src/main/kotlin/com/jaychou/mcp/SdkServer.kt:84-100 | count is the number of entries and at most totalMatched. totalMatched is the number of matching lines. count is at most limit when limit >= 0. There are no entries when limit <= 0 or when offset >= totalMatched. |
| Query.AnswerEchoesPaging | kotlin-mcp-server/src/main/kotlin/com/jaychou/mcp/SdkServer.kt:70-71 | The offset and limit echoed are the request's integers, or 0 and 2000 when absent or not integers. |
| Query.WindowEntry | kotlin-mcp-server/src/main/kotlin/com/jaychou/mcp/SdkServer.kt:85-92 | Window entry j is match max(offset, 0) + j, and it reports a matching line. |
| Query.MatchesAreOrdered | kotlin-mcp-server/src/main/kotlin/com/jaychou/mcp/SdkServer.kt:76-78 | Every two matches are in strictly increasing line order. |
| Query.WindowOfOrdered | kotlin-mcp-server/src/main/kotlin/com/jaychou/mcp/SdkServer.kt:85-86 | A window of entries in line order is in line order. |
| Query.WindowOrdered | kotlin-mcp-server/src/main/kotlin/com/jaychou/mcp/SdkServer.kt:85-86 | The window is in strictly increasing line order. |
| Query.AnswerEntries | kotlin-mcp-server/src/main/kotlin/com/jaychou/mcp/SdkServer.kt:85-92 | Result entry j is match max(offset, 0) + j: a matching line at its position, with its timestamp, level and raw text. |
| Query.AnswerOrdered | kotlin-mcp-server/src/main/kotlin/com/jaychou/mcp/SdkServer.kt:85-86 | The result's entries are in file order. |
| Query.TotalIgnoresPaging | kotlin-mcp-server/src/main/kotlin/com/jaychou/mcp/SdkServer.kt:77-84 | totalMatched does not depend on offset or limit. |
| Query.LevelFilterKeepsLevel | kotlin-mcp-server/src/main/kotlin/com/jaychou/mcp/SdkServer.kt:81 | With a level filter on, every entry carries exactly that level. |
| Query.NoStampIgnoresTimeBounds | kotlin-mcp-server/src/main/kotlin/com/jaychou/mcp/SdkServer.kt:82-83 | A line without a timestamp is never excluded by the time bounds. |
| Query.StampWithinBounds | kotlin-mcp-server/src/main/kotlin/com/jaychou/mcp/SdkServer.kt:82-83 | A stamped line passes both bounds exactly when start <= t <= end. |
| Query.KeywordIgnoresCase | kotlin-mcp-server/src/main/kotlin/com/jaychou/mcp/SdkServer.kt:66-80 | The keyword test holds exactly when the lower-cased keyword occurs in the lower-cased raw line. Keywords that differ only in case give the same filter. |
| Query.ValidatedFilter | kotlin-mcp-server/src/main/kotlin/com/jaychou/mcp/SdkServer.kt:67-69 | For a validated request, a level filter is a valid level, and every time given becomes a bound. |
| Query.EntryStampReparses | kotlin-mcp-server/src/main/kotlin/com/jaychou/mcp/SdkServer.kt:89 | An entry's timestamp text parses back to the timestamp extracted from its line. It is absent exactly when none was extracted. |
| Query.UnfilteredMatchesAll | kotlin-mcp-server/src/main/kotlin/com/jaychou/mcp/SdkServer.kt:77-84 | With every filter off, match k is the entry for line k + 1. |
| Query.PageScenario | kotlin-mcp-server/src/main/kotlin/com/jaychou/mcp/SdkServer.kt:70-85 | On a five-line file with offset 1 and limit 1, totalMatched is 5 and the one entry is line 2. |
| Query.ErrorLinesOfFive | kotlin-mcp-server/src/main/kotlin/com/jaychou/mcp/SdkServer.kt:81 | Five lines with levels INFO, ERROR, WARN, ERROR, INFO give matches at lines 2 and 4 for level ERROR. |
| Query.LevelScenario | kotlin-mcp-server/src/main/kotlin/com/jaychou/mcp/SdkServer.kt:67-81 | That file queried with log_level ERROR passes validation and reports count 2 and totalMatched 2. |
| Query.TimeoutKeyword | kotlin-mcp-server/src/main/kotlin/com/jaychou/mcp/SdkServer.kt:66-80 | The keyword "TimeOut" becomes the filter "timeout", and a line passes it exactly when its lower-cased text contains "timeout". |
| Query.KeywordScenario | kotlin-mcp-server/src/main/kotlin/com/jaychou/mcp/SdkServer.kt:66-80 | With keyword "TimeOut", a file where exactly one line contains "timeout" in any mix of cases passes validation and gives one match, the entry for that line. |
| Query.OverflowingLimitFallsBack | kotlin-mcp-server/src/main/kotlin/com/jaychou/mcp/SdkServer.kt:70 | A limit of 2147483648, past the Int range, falls back to the default limit of 2000. |
| Tool.CallTool | kotlin-mcp-server/src/main/kotlin/com/jaychou/mcp/SdkServer.kt:139-166 | The lambda's early returns, followed by the scan, give exactly `Outcome`. |
| Tool.OutcomeOrder | kotlin-mcp-server/src/main/kotlin/com/jaychou/mcp/SdkServer.kt:140-159 | INVALID_PARAMS exactly when some rule is broken. NOT_FOUND exactly for a valid request on a missing file. PERMISSION_DENIED exactly for a valid request on an existing unreadable file. Otherwise a result. |
| Tool.OutcomeMessages | kotlin-mcp-server/src/main/kotlin/com/jaychou/mcp/SdkServer.kt:142-165 | An invalid request reports the message of its first broken rule. A success carries the query's answer. |
| Tool.InvalidNeedsNoFile | kotlin-mcp-server/src/main/kotlin/com/jaychou/mcp/SdkServer.kt:140-150 | A request that fails validation is answered the same whatever the file, since the file is not consulted. |

## Left out

- `runMcpServer`: the server, the tool schema, the stdio transport and the
  coroutine session are SDK plumbing. SdkServer.kt lines 107-185 are not part
  of this model, apart from the lambda's dispatch.
- The client (`SdkClientMain.kt`) and the two Gradle build files are process
  handling and build configuration, so they are not part of this model.
- File access is replaced by inputs. `File.exists` and `canRead` become
  booleans, and `useLines` with its resource closing becomes a sequence of
  lines.
- An I/O error in the middle of a scan is not modelled.
- JSON is not modelled. Request fields are already-decoded optional strings
  and the result is a datatype. `toString().trim('"')` is taken to give the
  string's content, so these are not modelled:
  - escapes;
  - extra quote characters that `trim('"')` would also strip;
  - a JSON `null`, which renders as the text `null`;
  - the encode-then-parse round trip of the entries (line 103).
- `request.arguments!!` on a call without arguments is not modelled.
- Text.Lower: folds only ASCII letters, because Kotlin's Unicode
  `lowercase()` needs the Unicode tables.
- Text.IsWhitespace: covers only the ASCII characters for which Kotlin's
  `Char.isWhitespace` holds, because the Unicode space separators need the
  Unicode tables.
- Text.ToIntOrNull: accepts only ASCII digits, while Kotlin also accepts
  other Unicode decimal digits.
- Extract.StampPrefix: takes `\d` and `\s` as ASCII classes, which is
  Java's default.
- Extract.TokenAt: counts only `[A-Za-z0-9_]` as word characters for `\b`.
  Some Java versions also count non-ASCII letters and digits, and that is
  not modelled.
- Timestamp.ParseStamp: reads only a four-digit year. `DateTimeFormatter`'s
  `+`-signed wider years are not modelled.
- Timestamp.Resolve: rejects the hour 24. The SMART resolver's acceptance of
  `24:00:00` as the next day's midnight is not modelled.
- Query.Handler: counts `idx` and `total` as unbounded integers. The
  source's 32-bit `Int` counters would only wrap for files of more than
  2^31 - 1 lines.
- Compiling the two patterns on every line (42, 44) only costs time.

