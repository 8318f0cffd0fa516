/**
 * The JavaScript string operations the bot relies on (`trim`, `split`, `join`,
 * `startsWith`, `includes`, decimal rendering of integers and a plain integer
 * parse), written as explicit character scans.
 */
module Strings {
  import opened Common

  /** ECMAScript WhiteSpace and LineTerminator code points: what `String.prototype.trim` removes. */
  predicate IsWhitespace(c: char) {
    c == ' ' || c == '\t' || c == '\n' || c == '\r' || c == '\U{B}' || c == '\U{C}'
    || c == '\U{A0}' || c == '\U{1680}' || ('\U{2000}' <= c <= '\U{200A}')
    || c == '\U{2028}' || c == '\U{2029}' || c == '\U{202F}' || c == '\U{205F}'
    || c == '\U{3000}' || c == '\U{FEFF}'
  }

  /** Number of leading whitespace characters of `s`. */
  function LeadingSpace(s: string): (k: nat)
    ensures k <= |s|
    ensures forall i :: 0 <= i < k ==> IsWhitespace(s[i])
    ensures k < |s| ==> !IsWhitespace(s[k])
  {
    if s == [] || !IsWhitespace(s[0]) then 0 else 1 + LeadingSpace(s[1..])
  }

  /** End of `s[lo..hi]` once its trailing whitespace is dropped. */
  function ContentEnd(s: string, lo: nat, hi: nat): (k: nat)
    requires lo <= hi <= |s|
    ensures lo <= k <= hi
    ensures forall i :: k <= i < hi ==> IsWhitespace(s[i])
    ensures k > lo ==> !IsWhitespace(s[k - 1])
    decreases hi
  {
    if hi == lo || !IsWhitespace(s[hi - 1]) then hi else ContentEnd(s, lo, hi - 1)
  }

  /** `String.prototype.trim`. */
  function Trim(s: string): (r: string)
    ensures |r| <= |s|
    ensures r != [] ==> !IsWhitespace(r[0]) && !IsWhitespace(r[|r| - 1])
    ensures LeadingSpace(s) + |r| <= |s| && r == s[LeadingSpace(s)..LeadingSpace(s) + |r|]
    ensures forall i :: LeadingSpace(s) + |r| <= i < |s| ==> IsWhitespace(s[i])
  {
    var a := LeadingSpace(s);
    var e := ContentEnd(s, a, |s|);
    assert e > a ==> s[a..e][0] == s[a] && s[a..e][e - a - 1] == s[e - 1];
    s[a..e]
  }

  /** Text without white space at either end is its own trim. */
  lemma TrimKeepsUnpadded(s: string)
    requires s == [] || (!IsWhitespace(s[0]) && !IsWhitespace(s[|s| - 1]))
    ensures Trim(s) == s
  {
  }

  /** `s.startsWith(p)`. */
  predicate StartsWith(s: string, p: string) {
    |p| <= |s| && s[..|p|] == p
  }

  /** `haystack.includes(needle)` on strings: a substring test (the empty needle is found everywhere). */
  function Includes(haystack: string, needle: string): (b: bool)
    ensures b <==> exists i :: 0 <= i <= |haystack| && StartsWith(haystack[i..], needle)
    decreases |haystack|
  {
    if StartsWith(haystack, needle) then
      assert StartsWith(haystack[0..], needle);
      true
    else if haystack == [] then
      false
    else
      var b := Includes(haystack[1..], needle);
      assert forall i :: 1 <= i <= |haystack| ==> haystack[i..] == haystack[1..][i - 1..];
      b
  }

  /** Index of the first `c` in `s`. */
  function IndexOf(s: string, c: char): (i: nat)
    requires c in s
    ensures i < |s| && s[i] == c && c !in s[..i]
  {
    if s[0] == c then 0 else 1 + IndexOf(s[1..], c)
  }

  /** `parts.join(sep)`. */
  function Join(parts: seq<string>, sep: char): string {
    if parts == [] then ""
    else if |parts| == 1 then parts[0]
    else parts[0] + [sep] + Join(parts[1..], sep)
  }

  /** `s.split(sep)` for a one-character separator: the maximal pieces between separators. */
  function Split(s: string, sep: char): (parts: seq<string>)
    ensures |parts| >= 1
    ensures forall i :: 0 <= i < |parts| ==> sep !in parts[i]
    ensures Join(parts, sep) == s
    decreases |s|
  {
    if sep !in s then [s]
    else
      var i := IndexOf(s, sep);
      var rest := Split(s[i + 1..], sep);
      assert s == s[..i] + [sep] + s[i + 1..];
      [s[..i]] + rest
  }

  /** The first separator of `a + [sep] + b` is the one after `a` when `a` holds none. */
  lemma IndexOfAfter(a: string, sep: char, b: string)
    requires sep !in a
    ensures sep in a + [sep] + b && IndexOf(a + [sep] + b, sep) == |a|
  {
    var s := a + [sep] + b;
    assert s[|a|] == sep;
    assert s[..|a|] == a;
  }

  /** Splitting a join gives back the pieces, when no piece holds the separator. */
  lemma {:induction false} SplitJoin(parts: seq<string>, sep: char)
    requires |parts| >= 1
    requires forall i :: 0 <= i < |parts| ==> sep !in parts[i]
    ensures Split(Join(parts, sep), sep) == parts
    decreases |parts|
  {
    if |parts| > 1 {
      var head, tail := parts[0], Join(parts[1..], sep);
      var s := head + [sep] + tail;
      assert Join(parts, sep) == s;
      IndexOfAfter(head, sep, tail);
      assert s[..|head|] == head;
      assert s[|head| + 1..] == tail;
      assert Split(s, sep) == [head] + Split(tail, sep);
      SplitJoin(parts[1..], sep);
      assert parts == [head] + parts[1..];
    }
  }


  predicate IsDigit(c: char) {
    '0' <= c <= '9'
  }

  /** One or more ASCII digits. */
  predicate IsDigits(s: string) {
    |s| > 0 && forall i :: 0 <= i < |s| ==> IsDigit(s[i])
  }

  function Pow10(k: nat): (p: nat)
    ensures p >= 1
  {
    if k == 0 then 1 else 10 * Pow10(k - 1)
  }

  /** The value of a run of decimal digits, most significant first. */
  function DigitsValue(s: string): (n: nat)
    requires forall i :: 0 <= i < |s| ==> IsDigit(s[i])
    ensures n < Pow10(|s|)
  {
    if s == [] then 0
    else
      var last := s[|s| - 1];
      assert IsDigit(last);
      var m := DigitsValue(s[..|s| - 1]);
      assert m <= Pow10(|s| - 1) - 1;
      10 * m + (last as int - '0' as int)
  }

  /** Positional notation: the first digit of a run counts `10^k` times, `k` the number of digits after it. */
  lemma {:induction false} DigitsValueFirst(c: char, d: string)
    requires IsDigit(c) && forall i :: 0 <= i < |d| ==> IsDigit(d[i])
    ensures DigitsValue([c] + d) == (c as int - '0' as int) * Pow10(|d|) + DigitsValue(d)
    decreases |d|
  {
    var s := [c] + d;
    if d != [] {
      var init := d[..|d| - 1];
      assert s[..|s| - 1] == [c] + init;
      DigitsValueFirst(c, init);
      var v, p, last := c as int - '0' as int, Pow10(|init|), d[|d| - 1] as int - '0' as int;
      var w := DigitsValue(init);
      assert DigitsValue(s) == 10 * (v * p + w) + last;
      assert DigitsValue(d) == 10 * w + last;
      assert Pow10(|d|) == 10 * p;
      ScaleDigit(v, p);
    } else {
      assert s[..|s| - 1] == [];
    }
  }

  lemma ScaleDigit(v: int, p: int)
    ensures 10 * (v * p) == v * (10 * p)
  {
  }

  /** Leading zeros do not change the value of a run of digits. */
  lemma DigitsValueLeadingZero(d: string)
    requires forall i :: 0 <= i < |d| ==> IsDigit(d[i])
    ensures DigitsValue("0" + d) == DigitsValue(d)
  {
    DigitsValueFirst('0', d);
  }

  /**
   * The integer a text denotes: an optional `+` or `-` sign followed by one or
   * more decimal digits, and nothing else.
   */
  function ParseInteger(s: string): (r: Option<int>)
    ensures r.Some? ==> |s| > 0
    ensures r.Some? <==> IsDigits(s) || (|s| > 1 && (s[0] == '-' || s[0] == '+') && IsDigits(s[1..]))
  {
    if |s| > 0 && (s[0] == '-' || s[0] == '+') then
      if IsDigits(s[1..]) then
        var n: int := DigitsValue(s[1..]);
        Some(if s[0] == '-' then -n else n)
      else None
    else if IsDigits(s) then Some(DigitsValue(s))
    else None
  }

  /** A `+` sign leaves the number as it is and a `-` sign negates it; the unsigned text reads as its digit value. */
  lemma ParseIntegerSign(d: string)
    requires IsDigits(d)
    ensures ParseInteger(d) == Some(DigitsValue(d) as int)
    ensures ParseInteger("+" + d) == ParseInteger(d)
    ensures ParseInteger("-" + d) == Some(-(DigitsValue(d) as int))
  {
    assert ("+" + d)[1..] == d;
    assert ("-" + d)[1..] == d;
  }

  /** A leading zero is read past: `"007"` is 7. */
  lemma ParseIntegerLeadingZero(d: string)
    requires IsDigits(d)
    ensures ParseInteger("0" + d) == ParseInteger(d)
  {
    var s := "0" + d;
    assert IsDigits(s) by {
      assert forall i :: 1 <= i < |s| ==> s[i] == d[i - 1];
    }
    DigitsValueLeadingZero(d);
  }

  function DigitChar(d: nat): (c: char)
    requires d < 10
    ensures IsDigit(c) && c as int - '0' as int == d
  {
    ('0' as int + d) as char
  }

  /** Decimal rendering of a natural number, without leading zeros. */
  function NatToString(n: nat): (s: string)
    ensures IsDigits(s)
    ensures DigitsValue(s) == n
    ensures |s| > 1 ==> s[0] != '0'
  {
    if n < 10 then [DigitChar(n)]
    else
      var s := NatToString(n / 10) + [DigitChar(n % 10)];
      assert s[..|s| - 1] == NatToString(n / 10);
      s
  }

  /** `String(n)` for an integer `n`. */
  function IntToString(n: int): string {
    if n < 0 then "-" + NatToString(-n) else NatToString(n)
  }

  /** Rendering an integer and parsing it back gives the integer. */
  lemma IntToStringParses(n: int)
    ensures ParseInteger(IntToString(n)) == Some(n)
  {
    var s := IntToString(n);
    if n < 0 {
      assert s[1..] == NatToString(-n);
    }
  }
}
