/**
 * The expression-only pieces of response_handlers.js: the balance bound, the
 * channel-id shape and privilege checks, the social "label-url" split and the
 * `formatText` markup substitution.
 */
module Validators {
  import opened Common
  import opened Strings

  // ---------------------------------------------------------------- balance

  /** The largest balance change, in either direction, the balance handler accepts. */
  const MaxAmount: int := 1000000000

  /** `Math.abs(amount) > 1000000000` fails: the accepted amounts are an interval around zero. */
  function AmountInRange(amount: int): (b: bool)
    ensures b <==> -MaxAmount <= amount <= MaxAmount
  {
    !((if amount < 0 then -amount else amount) > MaxAmount)
  }

  // ---------------------------------------------------------------- channel id

  /** All characters of `s` from index `i` on are ASCII digits. */
  function DigitsFrom(s: string, i: nat): bool
    decreases |s| - i
  {
    i >= |s| || (IsDigit(s[i]) && DigitsFrom(s, i + 1))
  }

  /**
   * The test `/^-100\d{10}$/`, as a scan: it accepts exactly the 14-character
   * strings that are `-100` followed by ten ASCII digits.
   */
  function IsChannelId(s: string): (b: bool)
    ensures b <==> |s| == 14 && s[..4] == "-100" && IsDigits(s[4..])
  {
    ChannelIdScan(s);
    |s| == 14 && s[0] == '-' && s[1] == '1' && s[2] == '0' && s[3] == '0' && DigitsFrom(s, 4)
  }

  lemma {:induction false} DigitsFromAll(s: string, i: nat)
    ensures DigitsFrom(s, i) <==> forall k :: i <= k < |s| ==> IsDigit(s[k])
    decreases |s| - i
  {
    if i < |s| {
      DigitsFromAll(s, i + 1);
    }
  }

  /** The character-by-character scan is the prefix-and-digits shape. */
  lemma ChannelIdScan(s: string)
    ensures (|s| == 14 && s[0] == '-' && s[1] == '1' && s[2] == '0' && s[3] == '0' && DigitsFrom(s, 4))
        <==> |s| == 14 && s[..4] == "-100" && IsDigits(s[4..])
  {
    DigitsFromAll(s, 4);
    if |s| == 14 && IsDigits(s[4..]) {
      assert forall k :: 4 <= k < |s| ==> s[k] == s[4..][k - 4];
    }
    if |s| == 14 && s[..4] == "-100" {
      assert s[0] == s[..4][0] && s[1] == s[..4][1] && s[2] == s[..4][2] && s[3] == s[..4][3];
    }
  }

  /** Every ten-digit string behind `-100` is a channel id. */
  lemma ChannelIdOfDigits(digits: string)
    requires |digits| == 10 && IsDigits(digits)
    ensures IsChannelId("-100" + digits)
  {
    var s := "-100" + digits;
    assert s[..4] == "-100" && s[4..] == digits;
  }

  // ---------------------------------------------------------------- privileges

  /** What getChatMember reports about the bot in the channel. */
  datatype ChatMember = ChatMember(status: string, canChangeInfo: bool)

  datatype Privilege = NotAdmin | LacksRights(rights: seq<string>) | Privileged

  /** The admin right the bot needs in a channel it is told to register. */
  const ChangeInfoRight: string := "'Change Channel Info'"

  /** The status check and then the rights check the channel handler makes. */
  function CheckPrivilege(m: ChatMember): (p: Privilege)
    ensures p.NotAdmin? <==> m.status != "administrator" && m.status != "creator"
    ensures p.Privileged? <==> (m.status == "administrator" || m.status == "creator") && m.canChangeInfo
    ensures p.LacksRights? ==> p.rights == [ChangeInfoRight]
  {
    if m.status != "administrator" && m.status != "creator" then NotAdmin
    else
      var missing := if !m.canChangeInfo then [ChangeInfoRight] else [];
      if |missing| > 0 then LacksRights(missing) else Privileged
  }

  /** A failure of the messaging capability during the privilege check. */
  datatype TransportError = TransportError(responseErrorCode: Option<int>, description: string, code: Option<int>)

  /** The three kinds of message the channel handler reports a failed privilege check with. */
  datatype ChannelFailure = ApiError(description: string) | NotInChannel | InternalError

  function ClassifyError(e: TransportError): (f: ChannelFailure)
    ensures f.ApiError? <==> e.responseErrorCode == Some(400)
    ensures f.ApiError? ==> f.description == e.description
    ensures f.NotInChannel? <==> e.responseErrorCode != Some(400) && e.code == Some(403)
  {
    if e.responseErrorCode == Some(400) then ApiError(e.description)
    else if e.code == Some(403) then NotInChannel
    else InternalError
  }

  // ---------------------------------------------------------------- social links

  /**
   * `let [button_text, ...urlParts] = answer.split('-'); url = urlParts.join('-')`:
   * the text before the first `-`, and everything after it.
   */
  function SplitSocial(answer: string): (r: (string, string))
    ensures '-' !in r.0
    ensures '-' in answer ==> r.0 + "-" + r.1 == answer
    ensures '-' !in answer ==> r == (answer, "")
  {
    var parts := Split(answer, '-');
    if |parts| == 1 then
      (parts[0], "")
    else
      assert Join(parts, '-') == parts[0] + "-" + Join(parts[1..], '-');
      (parts[0], Join(parts[1..], '-'))
  }

  /**
   * The social handler's acceptance test on a label and a url: a non-empty label
   * and an http or https url (the scheme test already rules out an empty url).
   */
  function ValidSocial(buttonText: string, url: string): (b: bool)
    ensures b <==> buttonText != "" && (StartsWith(url, "https://") || StartsWith(url, "http://"))
  {
    buttonText != "" && url != "" && (StartsWith(url, "https://") || StartsWith(url, "http://"))
  }

  /** Any label without `-` and any http(s) url are split back apart exactly. */
  lemma SocialRoundTrip(buttonText: string, url: string)
    requires '-' !in buttonText
    ensures SplitSocial(buttonText + "-" + url) == (buttonText, url)
  {
    var s := buttonText + "-" + url;
    assert s[|buttonText|] == '-';
    var r := SplitSocial(s);
    var i := IndexOf(s, '-');
    assert i == |buttonText|;
    assert r.0 == s[..i];
    assert s[..|buttonText|] == buttonText;
    assert r.0 + "-" + r.1 == s;
    assert r.1 == s[|buttonText| + 1..];
    assert s[|buttonText| + 1..] == url;
  }

  // ---------------------------------------------------------------- formatText

  /** The characters `.` does not match in a JavaScript regular expression. */
  predicate IsLineTerminator(c: char) {
    c == '\n' || c == '\r' || c == '\U{2028}' || c == '\U{2029}'
  }

  /** Index of the first line terminator at or after `from`, or the length of `s`. */
  function LineEnd(s: string, from: nat): (e: nat)
    requires from <= |s|
    ensures from <= e <= |s|
    ensures forall k :: from <= k < e ==> !IsLineTerminator(s[k])
    ensures e < |s| ==> IsLineTerminator(s[e])
    decreases |s| - from
  {
    if from == |s| || IsLineTerminator(s[from]) then from else LineEnd(s, from + 1)
  }

  /**
   * Where the lazy `(.*?)` of a delimited span starting its body at `from` stops:
   * the first occurrence of the delimiter `d` before the end of the line
   * (`FindCloseSpec` and `FindCloseScan` say so).
   */
  function FindClose(s: string, from: nat, d: string): (r: Option<nat>)
    requires from <= |s| && |d| > 0
    ensures r.Some? ==> from <= r.value && r.value + |d| <= |s|
    decreases |s| - from
  {
    if StartsWith(s[from..], d) then Some(from)
    else if from == |s| || IsLineTerminator(s[from]) then None
    else FindClose(s, from + 1, d)
  }

  /**
   * The span closes at the first delimiter on the rest of the line, and there
   * is none when no delimiter starts before the line ends.
   */
  lemma {:induction false} FindCloseSpec(s: string, from: nat, d: string)
    requires from <= |s| && |d| > 0
    ensures var r := FindClose(s, from, d);
      && (r.Some? ==> r.value <= LineEnd(s, from) && StartsWith(s[r.value..], d))
      && (r.Some? ==> forall k :: from <= k < r.value ==> !StartsWith(s[k..], d))
      && (r.None? ==> forall k :: from <= k <= LineEnd(s, from) ==> !StartsWith(s[k..], d))
    decreases |s| - from
  {
    if !StartsWith(s[from..], d) && from < |s| && !IsLineTerminator(s[from]) {
      FindCloseSpec(s, from + 1, d);
    }
  }

  /**
   * The converse for a match: a delimiter at `j` with no line break and no other
   * delimiter starting between `from` and `j` is where the span closes.
   */
  lemma {:induction false} FindCloseScan(s: string, from: nat, d: string, j: nat)
    requires |d| > 0 && from <= j <= |s| && StartsWith(s[j..], d)
    requires forall k :: from <= k < j ==> !IsLineTerminator(s[k]) && !StartsWith(s[k..], d)
    ensures FindClose(s, from, d) == Some(j)
    decreases j - from
  {
    if from < j {
      FindCloseScan(s, from + 1, d, j);
    }
  }

  /** The converse for no match: the line ends at `e` before any delimiter starts. */
  lemma {:induction false} FindCloseNoneAt(s: string, from: nat, d: string, e: nat)
    requires from <= e < |s| && |d| > 0
    requires IsLineTerminator(s[e]) && !StartsWith(s[e..], d)
    requires forall k :: from <= k < e ==> !IsLineTerminator(s[k]) && !StartsWith(s[k..], d)
    ensures FindClose(s, from, d).None?
    decreases e - from
  {
    if from < e {
      FindCloseNoneAt(s, from + 1, d, e);
    }
  }

  /**
   * One global replace of `d(.*?)d` by `open$1close`: scanning left to right,
   * each delimiter that has a closing one later on the same line opens a span
   * that ends at the nearest such closing delimiter; scanning resumes after it.
   */
  function Substitute(s: string, d: string, open: string, close: string): (r: string)
    requires |d| > 0
    ensures |open| + |close| >= 2 * |d| ==> |r| >= |s|
    decreases |s|
  {
    if s == [] then []
    else if StartsWith(s, d) then
      match FindClose(s, |d|, d)
      case Some(j) => open + s[|d|..j] + close + Substitute(s[j + |d|..], d, open, close)
      case None => [s[0]] + Substitute(s[1..], d, open, close)
    else [s[0]] + Substitute(s[1..], d, open, close)
  }

  /** `formatText(input)`: bold, then italic, then monospace; every tag is at least as long as its delimiters. */
  function FormatText(input: string): (r: string)
    ensures |r| >= |input|
  {
    var bold := Substitute(input, "*", "<b>", "</b>");
    var italic := Substitute(bold, "_", "<i>", "</i>");
    Substitute(italic, "``", "<code>", "</code>")
  }

  /** A text in which the delimiter never occurs is left unchanged. */
  lemma {:induction false} SubstituteWithoutDelimiter(s: string, d: string, open: string, close: string)
    requires |d| > 0
    requires forall k :: 0 <= k < |s| ==> !StartsWith(s[k..], d)
    ensures Substitute(s, d, open, close) == s
    decreases |s|
  {
    if s != [] {
      assert s[0..] == s;
      assert forall k :: 1 <= k < |s| ==> s[1..][k - 1..] == s[k..];
      SubstituteWithoutDelimiter(s[1..], d, open, close);
    }
  }

  /** Input containing none of `*`, `_`, `` ` `` comes back unchanged. */
  lemma FormatTextPlain(input: string)
    requires forall i :: 0 <= i < |input| ==> input[i] != '*' && input[i] != '_' && input[i] != '`'
    ensures FormatText(input) == input
  {
    forall k | 0 <= k < |input| ensures !StartsWith(input[k..], "*") && !StartsWith(input[k..], "_") && !StartsWith(input[k..], "``") {
      assert input[k..][0] == input[k];
    }
    SubstituteWithoutDelimiter(input, "*", "<b>", "</b>");
    SubstituteWithoutDelimiter(input, "_", "<i>", "</i>");
    SubstituteWithoutDelimiter(input, "``", "<code>", "</code>");
  }

  /**
   * Lazy, single-line matching: a delimiter followed, on the same line and
   * without another delimiter starting in between, by a closing one wraps
   * exactly the text between them; scanning goes on after the closing delimiter.
   */
  lemma SubstitutePair(d: string, x: string, rest: string, open: string, close: string)
    requires |d| > 0
    requires forall i :: 0 <= i < |x| ==> !IsLineTerminator(x[i])
    requires forall k :: 0 <= k < |x| ==> !StartsWith(x[k..] + d + rest, d)
    ensures Substitute(d + x + d + rest, d, open, close) == open + x + close + Substitute(rest, d, open, close)
  {
    var s := d + x + d + rest;
    PairShape(s, d, x, rest);
    SubstituteClosedAt(s, d, open, close, |d| + |x|, x, rest);
  }

  /**
   * In `d + x + d + rest` the delimiter after `x` is the first one after the
   * opening delimiter, with no line break before it.
   */
  lemma PairShape(s: string, d: string, x: string, rest: string)
    requires s == d + x + d + rest
    requires forall i :: 0 <= i < |x| ==> !IsLineTerminator(x[i])
    requires forall k :: 0 <= k < |x| ==> !StartsWith(x[k..] + d + rest, d)
    ensures StartsWith(s, d) && StartsWith(s[|d| + |x|..], d)
    ensures forall k :: |d| <= k < |d| + |x| ==> !IsLineTerminator(s[k]) && !StartsWith(s[k..], d)
    ensures s[|d|..|d| + |x|] == x && s[|d| + |x| + |d|..] == rest
  {
    var j := |d| + |x|;
    assert s[..|d|] == d;
    assert s[j..] == d + rest;
    forall k | |d| <= k < j ensures !IsLineTerminator(s[k]) && !StartsWith(s[k..], d) {
      assert s[k] == x[k - |d|];
      assert s[k..] == x[k - |d|..] + d + rest;
    }
  }

  /** `SubstituteClosed` with the span's text and the remaining input named. */
  lemma SubstituteClosedAt(s: string, d: string, open: string, close: string, j: nat, x: string, rest: string)
    requires |d| > 0 && StartsWith(s, d) && |d| <= j <= |s| && StartsWith(s[j..], d)
    requires forall k :: |d| <= k < j ==> !IsLineTerminator(s[k]) && !StartsWith(s[k..], d)
    requires x == s[|d|..j] && rest == s[j + |d|..]
    ensures Substitute(s, d, open, close) == open + x + close + Substitute(rest, d, open, close)
  {
    SubstituteClosed(s, d, open, close, j);
  }

  /**
   * A delimiter at the front followed, before any line break or other delimiter,
   * by a closing one at `j` becomes one span; the scan resumes after it.
   */
  lemma SubstituteClosed(s: string, d: string, open: string, close: string, j: nat)
    requires |d| > 0 && StartsWith(s, d) && |d| <= j <= |s| && StartsWith(s[j..], d)
    requires forall k :: |d| <= k < j ==> !IsLineTerminator(s[k]) && !StartsWith(s[k..], d)
    ensures Substitute(s, d, open, close) == open + s[|d|..j] + close + Substitute(s[j + |d|..], d, open, close)
  {
    FindCloseScan(s, |d|, d, j);
  }

  /**
   * A span never crosses a line break: a delimiter whose line holds no other
   * delimiter is copied as it is, and scanning resumes on the next character.
   */
  lemma SubstituteUnclosedOnLine(c: char, x: string, nl: char, rest: string, open: string, close: string)
    requires forall i :: 0 <= i < |x| ==> x[i] != c && !IsLineTerminator(x[i])
    requires IsLineTerminator(nl) && !IsLineTerminator(c)
    ensures Substitute([c] + x + [nl] + rest, [c], open, close)
         == [c] + Substitute(x + [nl] + rest, [c], open, close)
  {
    var s := [c] + x + [nl] + rest;
    assert s[..1] == [c];
    var e := |x| + 1;
    assert s[e] == nl;
    forall k | 1 <= k < e ensures !IsLineTerminator(s[k]) && !StartsWith(s[k..], [c]) {
      assert s[k] == x[k - 1];
    }
    assert !StartsWith(s[e..], [c]) by { assert s[e..][0] == nl; }
    FindCloseNoneAt(s, 1, [c], e);
    SubstituteUnclosed(s, [c], open, close);
    assert s[1..] == x + [nl] + rest;
  }

  /** A delimiter at the front that no span closes is copied one character at a time. */
  lemma SubstituteUnclosed(s: string, d: string, open: string, close: string)
    requires |d| > 0 && StartsWith(s, d) && FindClose(s, |d|, d).None?
    ensures Substitute(s, d, open, close) == [s[0]] + Substitute(s[1..], d, open, close)
  {
  }
}
