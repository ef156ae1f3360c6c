/**
 * The handful of Kotlin and Java string services the log query engine leans on:
 * blank tests and trimming (Kotlin's Char.isWhitespace), ASCII lower-casing,
 * substring search, and String.toIntOrNull.  Characters outside ASCII are
 * treated as ordinary non-space, non-letter characters.
 */
module Text {
  import opened Wrappers

  /** Kotlin's Char.isWhitespace restricted to ASCII: TAB..CR and the four
      information separators U+001C..U+001F, and SPACE. */
  predicate IsWhitespace(c: char) {
    9 <= c as int <= 13 || 28 <= c as int <= 32
  }

  /** Kotlin's isBlank: every character is whitespace (so "" is blank). */
  predicate IsBlank(s: string) {
    forall i :: 0 <= i < |s| ==> IsWhitespace(s[i])
  }

  predicate IsDigit(c: char) {
    '0' <= c <= '9'
  }

  predicate AllDigits(s: string) {
    forall i :: 0 <= i < |s| ==> IsDigit(s[i])
  }

  /** Drops the longest whitespace prefix. */
  function TrimStart(s: string): string {
    if s != [] && IsWhitespace(s[0]) then TrimStart(s[1..]) else s
  }

  /** Drops the longest whitespace suffix. */
  function TrimEnd(s: string): string {
    if s != [] && IsWhitespace(s[|s| - 1]) then TrimEnd(s[..|s| - 1]) else s
  }

  /** Kotlin's String.trim(): both ends, by Char.isWhitespace. */
  function Trim(s: string): string {
    TrimEnd(TrimStart(s))
  }

  /** Trimming the start of a non-blank string stops at a non-whitespace
      character. */
  lemma {:induction false} TrimStartNonBlank(s: string)
    requires !IsBlank(s)
    ensures TrimStart(s) != [] && !IsWhitespace(TrimStart(s)[0])
    decreases |s|
  {
    if IsWhitespace(s[0]) {
      var k :| 0 <= k < |s| && !IsWhitespace(s[k]);
      assert s[1..][k - 1] == s[k];
      TrimStartNonBlank(s[1..]);
    }
  }

  /** Trimming the end of a string that starts with non-whitespace keeps that
      first character and stops at a non-whitespace character. */
  lemma {:induction false} TrimEndKeepsHead(t: string)
    requires t != [] && !IsWhitespace(t[0])
    ensures TrimEnd(t) != [] && TrimEnd(t)[0] == t[0] && !IsWhitespace(TrimEnd(t)[|TrimEnd(t)| - 1])
    decreases |t|
  {
    if IsWhitespace(t[|t| - 1]) {
      var u := t[..|t| - 1];
      assert u[0] == t[0];
      TrimEndKeepsHead(u);
    }
  }

  /** A trimmed non-blank string is non-empty and starts and ends with a
      non-whitespace character; a string that already does is its own trim. */
  lemma TrimShape(s: string)
    ensures !IsBlank(s) ==> Trim(s) != [] && !IsWhitespace(Trim(s)[0]) && !IsWhitespace(Trim(s)[|Trim(s)| - 1])
    ensures s != [] && !IsWhitespace(s[0]) && !IsWhitespace(s[|s| - 1]) ==> Trim(s) == s
  {
    if !IsBlank(s) {
      TrimStartNonBlank(s);
      TrimEndKeepsHead(TrimStart(s));
    }
  }

  /** A whitespace-only prefix before a non-whitespace character is dropped. */
  lemma {:induction false} TrimStartDropsBlank(pre: string, x: string)
    requires IsBlank(pre) && x != [] && !IsWhitespace(x[0])
    ensures TrimStart(pre + x) == x
    decreases |pre|
  {
    if pre == [] {
      assert pre + x == x;
    } else {
      assert (pre + x)[0] == pre[0];
      assert (pre + x)[1..] == pre[1..] + x;
      TrimStartDropsBlank(pre[1..], x);
    }
  }

  /** A whitespace-only suffix after a non-whitespace character is dropped. */
  lemma {:induction false} TrimEndDropsBlank(x: string, post: string)
    requires IsBlank(post) && x != [] && !IsWhitespace(x[|x| - 1])
    ensures TrimEnd(x + post) == x
    decreases |post|
  {
    if post == [] {
      assert x + post == x;
    } else {
      var s := x + post;
      assert s[|s| - 1] == post[|post| - 1];
      assert s[..|s| - 1] == x + post[..|post| - 1];
      TrimEndDropsBlank(x, post[..|post| - 1]);
    }
  }

  /** Surrounding a string that starts and ends with non-whitespace by
      whitespace-only strings leaves its trim unchanged. */
  lemma TrimAround(pre: string, mid: string, post: string)
    requires IsBlank(pre) && IsBlank(post)
    requires mid != [] && !IsWhitespace(mid[0]) && !IsWhitespace(mid[|mid| - 1])
    ensures Trim(pre + mid + post) == mid
  {
    assert (mid + post)[0] == mid[0];
    assert pre + mid + post == pre + (mid + post);
    TrimStartDropsBlank(pre, mid + post);
    TrimEndDropsBlank(mid, post);
  }

  predicate IsUpper(c: char) {
    'A' <= c <= 'Z'
  }

  /** ASCII case folding, standing for Kotlin's lowercase(). */
  function LowerChar(c: char): char {
    if IsUpper(c) then (c as int + 32) as char else c
  }

  function Lower(s: string): string {
    seq(|s|, i requires 0 <= i < |s| => LowerChar(s[i]))
  }

  /** Lower-casing twice is lower-casing once, and it keeps a blank string blank
      and a non-blank one non-blank. */
  lemma LowerFacts(s: string)
    ensures Lower(Lower(s)) == Lower(s)
    ensures IsBlank(Lower(s)) <==> IsBlank(s)
  {
    assert forall i :: 0 <= i < |s| ==> Lower(Lower(s))[i] == Lower(s)[i];
    assert forall i :: 0 <= i < |s| ==> (IsWhitespace(Lower(s)[i]) <==> IsWhitespace(s[i]));
  }

  /** t occurs in s starting at index i. */
  predicate OccursAt(s: string, t: string, i: int) {
    0 <= i && i + |t| <= |s| && s[i..i + |t|] == t
  }

  /** Java's String.contains: some occurrence of t in s. */
  function Contains(s: string, t: string): bool
    decreases |s|
  {
    if |t| > |s| then false
    else if s[..|t|] == t then true
    else Contains(s[1..], t)
  }

  /** Contains finds exactly the strings that occur somewhere in s. */
  lemma {:induction false} ContainsMeaning(s: string, t: string)
    ensures Contains(s, t) <==> exists i :: OccursAt(s, t, i)
    decreases |s|
  {
    if |t| <= |s| {
      if s[..|t|] == t {
        assert OccursAt(s, t, 0);
      } else {
        ContainsMeaning(s[1..], t);
        ContainsShift(s, t);
      }
    }
  }

  /** An occurrence in s after position 0 is an occurrence in s[1..], and back. */
  lemma ContainsShift(s: string, t: string)
    requires |t| <= |s| && s[..|t|] != t
    ensures (exists i :: OccursAt(s, t, i)) <==> (exists i :: OccursAt(s[1..], t, i))
  {
    if exists i :: OccursAt(s, t, i) {
      var i :| OccursAt(s, t, i);
      assert i != 0;
      assert s[1..][i - 1..i - 1 + |t|] == s[i..i + |t|];
      assert OccursAt(s[1..], t, i - 1);
    }
    if exists i :: OccursAt(s[1..], t, i) {
      var i :| OccursAt(s[1..], t, i);
      assert s[i + 1..i + 1 + |t|] == s[1..][i..i + |t|];
      assert OccursAt(s, t, i + 1);
    }
  }

  // ---------------------------------------------------------------------------
  // Decimal numerals

  function DigitValue(c: char): nat
    requires IsDigit(c)
  {
    c as int - '0' as int
  }

  function DigitChar(d: nat): char
    requires d < 10
  {
    ('0' as int + d) as char
  }

  /** The value of a string of ASCII digits, most significant first. */
  function DecimalValue(s: string): nat
    requires AllDigits(s)
  {
    if s == [] then 0 else DecimalValue(s[..|s| - 1]) * 10 + DigitValue(s[|s| - 1])
  }

  function Pow10(n: nat): nat {
    if n == 0 then 1 else 10 * Pow10(n - 1)
  }

  /** The decimal numeral of n without leading zeros. */
  function NatToString(n: nat): string
    decreases n
  {
    if n < 10 then [DigitChar(n)] else NatToString(n / 10) + [DigitChar(n % 10)]
  }

  lemma {:induction false} NatToStringRoundTrip(n: nat)
    ensures NatToString(n) != [] && AllDigits(NatToString(n))
    ensures DecimalValue(NatToString(n)) == n
    decreases n
  {
    if n >= 10 {
      NatToStringRoundTrip(n / 10);
      var s := NatToString(n);
      assert s[..|s| - 1] == NatToString(n / 10);
    }
  }

  const MinInt: int := -0x8000_0000
  const MaxInt: int := 0x7FFF_FFFF

  predicate IsInt32(v: int) {
    MinInt <= v <= MaxInt
  }

  function Bounded(v: int): Option<int> {
    if IsInt32(v) then Some(v) else None
  }

  /** Kotlin's String.toIntOrNull (radix 10): an optional leading '-' or '+',
      then at least one digit, and a value that fits a 32-bit Int. */
  function ToIntOrNull(s: string): (r: Option<int>)
    ensures r.Some? ==> IsInt32(r.value)
    ensures r.Some? ==> s != [] && (AllDigits(s) || ((s[0] == '-' || s[0] == '+') && |s| > 1 && AllDigits(s[1..])))
  {
    if |s| == 0 then None
    else if s[0] < '0' then
      if |s| == 1 then None
      else if s[0] == '-' then (if AllDigits(s[1..]) then Bounded(0 - DecimalValue(s[1..])) else None)
      else if s[0] == '+' then (if AllDigits(s[1..]) then Bounded(DecimalValue(s[1..])) else None)
      else None
    else if AllDigits(s) then Bounded(DecimalValue(s))
    else None
  }

  /** What toIntOrNull reads from a sign ("", "+" or "-") and a non-empty
      run of digits: the signed value when it fits a 32-bit Int, and none when
      it does not.  So "+5" and "007" read as 5 and 7, and a numeral beyond the
      32-bit range gives none rather than a wrapped value. */
  lemma ToIntOrNullValue(sign: string, digits: string)
    requires sign == "" || sign == "+" || sign == "-"
    requires digits != [] && AllDigits(digits)
    ensures var v := if sign == "-" then 0 - DecimalValue(digits) else DecimalValue(digits);
      ToIntOrNull(sign + digits) == (if IsInt32(v) then Some(v) else None)
  {
    var s := sign + digits;
    if sign == "" {
      assert s == digits;
      assert IsDigit(s[0]);
    } else {
      assert s[0] == sign[0] && s[1..] == digits;
    }
  }

  /** The value of a numeral is that of its first digits, shifted, plus its
      last digit. */
  lemma DecimalSnoc(s: string, c: char)
    requires AllDigits(s) && IsDigit(c)
    ensures AllDigits(s + [c]) && DecimalValue(s + [c]) == DecimalValue(s) * 10 + DigitValue(c)
  {
    assert (s + [c])[..|s|] == s;
  }

  /** The value of a two-digit and of a four-digit numeral. */
  lemma DecimalOfTwo(a: char, b: char)
    requires IsDigit(a) && IsDigit(b)
    ensures AllDigits([a, b]) && DecimalValue([a, b]) == DigitValue(a) * 10 + DigitValue(b)
  {
    DecimalSnoc([], a);
    assert [] + [a] == [a];
    DecimalSnoc([a], b);
    assert [a] + [b] == [a, b];
  }

  lemma DecimalOfFour(a: char, b: char, c: char, d: char)
    requires IsDigit(a) && IsDigit(b) && IsDigit(c) && IsDigit(d)
    ensures AllDigits([a, b, c, d])
    ensures DecimalValue([a, b, c, d]) == ((DigitValue(a) * 10 + DigitValue(b)) * 10 + DigitValue(c)) * 10 + DigitValue(d)
  {
    DecimalOfTwo(a, b);
    DecimalSnoc([a, b], c);
    assert [a, b] + [c] == [a, b, c];
    DecimalSnoc([a, b, c], d);
    assert [a, b, c] + [d] == [a, b, c, d];
  }

  lemma DecimalOf214748364()
    ensures AllDigits("214748364") && DecimalValue("214748364") == 214748364
  {
    DecimalSnoc("", '2');
    assert "" + ['2'] == "2";
    DecimalSnoc("2", '1');
    assert "2" + ['1'] == "21";
    DecimalSnoc("21", '4');
    assert "21" + ['4'] == "214";
    DecimalSnoc("214", '7');
    assert "214" + ['7'] == "2147";
    DecimalSnoc("2147", '4');
    assert "2147" + ['4'] == "21474";
    DecimalSnoc("21474", '8');
    assert "21474" + ['8'] == "214748";
    DecimalSnoc("214748", '3');
    assert "214748" + ['3'] == "2147483";
    DecimalSnoc("2147483", '6');
    assert "2147483" + ['6'] == "21474836";
    DecimalSnoc("21474836", '4');
    assert "21474836" + ['4'] == "214748364";
  }

  /** The first numerals past either end of the 32-bit range give none, and
      the smallest Int is read. */
  lemma ToIntOrNullOverflow()
    ensures ToIntOrNull("2147483648").None?
    ensures ToIntOrNull("-2147483649").None?
    ensures ToIntOrNull("-2147483648") == Some(MinInt)
  {
    DecimalOf214748364();
    DecimalSnoc("214748364", '8');
    DecimalSnoc("214748364", '9');
    var d, e := "214748364" + "8", "214748364" + "9";
    ToIntOrNullValue("", d);
    ToIntOrNullValue("-", d);
    ToIntOrNullValue("-", e);
    assert "" + d == "2147483648" && "-" + d == "-2147483648" && "-" + e == "-2147483649";
  }

  /** The decimal rendering of an integer, '-' first when negative. */
  function IntToString(v: int): string {
    if v < 0 then "-" + NatToString(-v) else NatToString(v)
  }

  /** Every 32-bit integer written in decimal is read back as itself. */
  lemma IntRoundTrip(v: int)
    requires IsInt32(v)
    ensures ToIntOrNull(IntToString(v)) == Some(v)
  {
    var s := IntToString(v);
    if v < 0 {
      var d := NatToString(-v);
      NatToStringRoundTrip(-v);
      assert s == "-" + d;
      assert s[0] == '-' && s[1..] == d;
      assert ToIntOrNull(s) == Bounded(0 - DecimalValue(d));
      assert IsInt32(0 - DecimalValue(d));
    } else {
      NatToStringRoundTrip(v);
      assert IsDigit(s[0]);
      assert ToIntOrNull(s) == Bounded(DecimalValue(s));
      assert IsInt32(DecimalValue(s));
    }
  }
}
