/**
 * extractTimeLevel: the best-effort reading of one raw log line into an
 * optional leading timestamp and an optional severity level.  The two regular
 * expressions of the source are written out as predicates over the line, with
 * Java's `\s` and the word characters of `\b` taken as ASCII classes.
 */
module Extract {
  import opened Wrappers
  import opened Text
  import opened Timestamp

  datatype Level = Info | Warn | Error {
    /** The level as it is written in a line and in a request. */
    function Name(): string {
      match this
      case Info => "INFO"
      case Warn => "WARN"
      case Error => "ERROR"
    }
  }

  /** validLevels. */
  const ValidLevels: set<string> := {"INFO", "WARN", "ERROR"}

  /** The accepted level names are exactly the names of the three levels. */
  lemma ValidLevelsAreNames(v: string)
    ensures v in ValidLevels <==> exists l: Level :: l.Name() == v
  {
    if v in ValidLevels {
      assert v == Info.Name() || v == Warn.Name() || v == Error.Name();
    }
  }

  /** Java's regex `\s`: SPACE and TAB..CR. */
  predicate IsRegexSpace(c: char) {
    9 <= c as int <= 13 || c == ' '
  }

  /** A word character for `\b`: an ASCII letter, digit or underscore. */
  predicate IsWordChar(c: char) {
    'a' <= c <= 'z' || 'A' <= c <= 'Z' || IsDigit(c) || c == '_'
  }

  /** The end of the run of digits that starts at i. */
  function SkipDigits(s: string, i: nat): (j: nat)
    requires i <= |s|
    ensures i <= j <= |s| && AllDigits(s[i..j])
    ensures j == |s| || !IsDigit(s[j])
    decreases |s| - i
  {
    if i < |s| && IsDigit(s[i]) then
      var j := SkipDigits(s, i + 1);
      assert s[i..j] == [s[i]] + s[i + 1..j];
      j
    else
      i
  }

  /** The timestamp expression `^(\d{4}-\d{2}-\d{2} \d{2}:\d{2}:\d{2})(?:[,.]\d+)?\s+`
      matches at the start of the line: the 19-character date-time, then
      either a whitespace character at once, or ',' or '.' and at least one
      digit and then a whitespace character. */
  predicate StampPrefix(line: string) {
    && |line| > 19
    && HasLayout(line[..19])
    && (|| IsRegexSpace(line[19])
        || ((line[19] == ',' || line[19] == '.')
            && var j := SkipDigits(line, 20); 20 < j < |line| && IsRegexSpace(line[j])))
  }

  /** The whole word w occurs in line at index i: the expression `\b` w `\b`. */
  predicate TokenAt(line: string, i: int, w: string) {
    && OccursAt(line, w, i)
    && (i == 0 || !IsWordChar(line[i - 1]))
    && (i + |w| == |line| || !IsWordChar(line[i + |w|]))
  }

  /** The level the expression `\b(INFO|WARN|ERROR)\b` matches at index i. */
  function LevelAt(line: string, i: int): Option<Level> {
    if TokenAt(line, i, "INFO") then Some(Info)
    else if TokenAt(line, i, "WARN") then Some(Warn)
    else if TokenAt(line, i, "ERROR") then Some(Error)
    else None
  }

  /** LevelAt finds a level at index i exactly when that level's name stands
      there as a whole word. */
  lemma LevelAtComplete(line: string, i: int, l: Level)
    ensures LevelAt(line, i) == Some(l) <==> TokenAt(line, i, l.Name())
  {
    if TokenAt(line, i, l.Name()) {
      assert line[i] == line[i..i + |l.Name()|][0] == l.Name()[0];
    }
  }

  /** Matcher.find for the level expression, from index i on. */
  function ScanLevel(line: string, i: nat): Option<Level>
    requires i <= |line|
    decreases |line| - i
  {
    if i == |line| then None
    else if LevelAt(line, i).Some? then LevelAt(line, i)
    else ScanLevel(line, i + 1)
  }

  /** The scan finds nothing exactly when no index from i on holds a level
      word, and otherwise finds the level at the first index that does. */
  lemma {:induction false} ScanLevelFindsFirst(line: string, i: nat)
    requires i <= |line|
    ensures ScanLevel(line, i).None? <==> forall j :: i <= j < |line| ==> LevelAt(line, j).None?
    ensures ScanLevel(line, i).Some? ==>
      exists j :: i <= j < |line| && LevelAt(line, j) == ScanLevel(line, i)
        && forall k :: i <= k < j ==> LevelAt(line, k).None?
    decreases |line| - i
  {
    if i < |line| && LevelAt(line, i).None? {
      ScanLevelFindsFirst(line, i + 1);
      if ScanLevel(line, i).Some? {
        var j :| i + 1 <= j < |line| && LevelAt(line, j) == ScanLevel(line, i + 1)
          && forall k :: i + 1 <= k < j ==> LevelAt(line, k).None?;
        assert forall k :: i <= k < j ==> LevelAt(line, k).None?;
      }
    }
  }

  /** extractTimeLevel: the leading timestamp, if the timestamp expression
      matches and its date-time group parses (parseTime of the group, which
      GroupNeedsNoTrim shows is the layout parse), and the first whole-word
      level. */
  function ExtractTimeLevel(line: string): (r: (Option<DateTime>, Option<Level>))
    ensures r.0.Some? ==> IsValid(r.0.value)
  {
    var ts := if StampPrefix(line) then ParseStamp(line[..19]) else None;
    var lv := ScanLevel(line, 0);
    (ts, lv)
  }

  /** What extraction finds: a timestamp only when the timestamp expression
      matches at the start of the line, and then exactly when its date-time
      resolves; a level exactly when some whole-word level name occurs, and
      then the one that occurs first.  It is defined on every line. */
  lemma ExtractTimeLevelMeaning(line: string)
    ensures ExtractTimeLevel(line).0.Some? ==> StampPrefix(line)
    ensures StampPrefix(line) ==> ExtractTimeLevel(line).0 == ParseTime(Some(line[..19]))
    ensures ExtractTimeLevel(line).1.None? <==> forall i :: 0 <= i < |line| ==> LevelAt(line, i).None?
    ensures ExtractTimeLevel(line).1.Some? ==>
      exists i :: 0 <= i < |line| && LevelAt(line, i) == ExtractTimeLevel(line).1
        && forall j :: 0 <= j < i ==> LevelAt(line, j).None?
  {
    ScanLevelFindsFirst(line, 0);
    if StampPrefix(line) {
      GroupNeedsNoTrim(line);
    }
  }

  /** The date-time group of a matching line has no whitespace to trim and is
      not blank, so parseTime of the group is the plain layout parse. */
  lemma GroupNeedsNoTrim(line: string)
    requires StampPrefix(line)
    ensures ParseTime(Some(line[..19])) == ParseStamp(line[..19])
  {
    var g := line[..19];
    assert Layout[0] == 'd' && Layout[4] == '-' && Layout[18] == 'd';
    assert !IsWhitespace(g[4]);
    TrimShape(g);
  }

  /** A line that starts with text in the date-time layout, an optional
      fraction of a second and a whitespace character yields what that text
      parses to, whatever the fraction and the rest of the line. */
  lemma StampLine(g: string, frac: string, c: char, rest: string)
    requires HasLayout(g)
    requires frac == [] || (|frac| >= 2 && (frac[0] == ',' || frac[0] == '.') && AllDigits(frac[1..]))
    requires IsRegexSpace(c)
    ensures ExtractTimeLevel(g + frac + [c] + rest).0 == ParseStamp(g)
  {
    var line := g + frac + [c] + rest;
    assert line[..19] == g;
    if frac == [] {
      assert line[19] == c;
    } else {
      assert line[19] == frac[0];
      var e := 19 + |frac|;
      assert line[e] == c;
      forall k | 20 <= k < e ensures IsDigit(line[k]) {
        assert line[k] == frac[1..][k - 20];
      }
      var j := SkipDigits(line, 20);
      assert !IsDigit(line[e]);
      assert forall k :: 20 <= k < j ==> line[k] == line[20..j][k - 20];
      assert j == e;
    }
    assert StampPrefix(line);
  }

  /** A line that starts with a formatted timestamp, an optional fraction of a
      second and a whitespace character yields that timestamp: the fraction is
      not part of the value. */
  lemma ExtractStampRoundTrip(t: DateTime, frac: string, c: char, rest: string)
    requires IsValid(t)
    requires frac == [] || (|frac| >= 2 && (frac[0] == ',' || frac[0] == '.') && AllDigits(frac[1..]))
    requires IsRegexSpace(c)
    ensures ExtractTimeLevel(Format(t) + frac + [c] + rest).0 == Some(t)
  {
    FormatParseRoundTrip(t);
    StampLine(Format(t), frac, c, rest);
  }

  /** The level found is the one whose whole-word name comes first in the
      line: any whole-word level name at index i is found there, unless another
      one starts earlier. */
  lemma FirstLevelWins(line: string, i: nat, l: Level)
    requires TokenAt(line, i, l.Name())
    requires forall j :: 0 <= j < i ==> LevelAt(line, j).None?
    ensures ExtractTimeLevel(line).1 == Some(l)
  {
    LevelAtComplete(line, i, l);
    ExtractTimeLevelMeaning(line);
    var r := ExtractTimeLevel(line).1;
    assert r.Some?;
    var k :| 0 <= k < |line| && LevelAt(line, k) == r && forall j :: 0 <= j < k ==> LevelAt(line, j).None?;
    assert k == i;
  }
}
