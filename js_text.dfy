/** The JavaScript built-ins the loader's record handling rests on, over
    strings of characters: `String.prototype.trim`, `String.prototype.substr`,
    `Buffer.prototype.toString(encoding, start, end)`, `String.prototype.replace`
    with an anchored run of zeros, and `parseInt(s, 10)` (ECMA-262, sections
    22.1.3.32, B.2.2.1 and 19.2.5; Node.js `buf.toString`). */
module JsText {

  function Min(a: int, b: int): int { if a <= b then a else b }

  /** WhiteSpace and LineTerminator code points (ECMA-262, sections 12.2 and
      12.3): what `trim` removes and what `parseInt` skips. */
  predicate IsJsWhitespace(c: char) {
    c == '\t' || c == '\n' || c == '\U{B}' || c == '\U{C}' || c == '\r' || c == ' '
    || c == '\U{A0}' || c == '\U{1680}' || ('\U{2000}' <= c <= '\U{200A}')
    || c == '\U{2028}' || c == '\U{2029}' || c == '\U{202F}' || c == '\U{205F}'
    || c == '\U{3000}' || c == '\U{FEFF}'
  }

  predicate IsDigit(c: char) { '0' <= c <= '9' }

  predicate AllDigits(s: string) { forall j :: 0 <= j < |s| ==> IsDigit(s[j]) }

  predicate AllZeros(s: string) { forall j :: 0 <= j < |s| ==> s[j] == '0' }

  /** The value of a decimal digit (0 for any other character). */
  function DigitValue(c: char): nat {
    if IsDigit(c) then (c as int) - ('0' as int) else 0
  }

  function Pow10(n: nat): (p: nat)
    ensures p >= 1
  {
    if n == 0 then 1 else 10 * Pow10(n - 1)
  }

  // ---------------------------------------------------------------------
  // trim and substr

  /** Number of whitespace characters at the start of `s`
      (`LeadingWhitespaceSpec`). */
  function LeadingWhitespace(s: string): (n: nat)
    ensures n <= |s|
  {
    if |s| > 0 && IsJsWhitespace(s[0]) then 1 + LeadingWhitespace(s[1..]) else 0
  }

  /** Number of whitespace characters at the end of `s`
      (`TrailingWhitespaceSpec`). */
  function TrailingWhitespace(s: string): (n: nat)
    ensures n <= |s|
  {
    if |s| > 0 && IsJsWhitespace(s[|s| - 1]) then 1 + TrailingWhitespace(s[..|s| - 1]) else 0
  }

  /** `s.trim()`: `s` without its leading and trailing whitespace
      (`TrimSpec`, `TrimIsUnique`). */
  function Trim(s: string): (r: string)
    ensures |r| <= |s|
  {
    var t := s[LeadingWhitespace(s)..];
    t[..|t| - TrailingWhitespace(t)]
  }

  /** `s.substr(start, length)` for a non-negative start: at most `length`
      characters from `start`, the empty string when `start` is past the end. */
  function Substr(s: string, start: nat, length: nat): (r: string)
    ensures |r| <= length
    ensures start + length <= |s| ==> r == s[start..start + length]
    ensures start + length > |s| ==> r == if start < |s| then s[start..] else []
  {
    if start >= |s| then [] else s[start..Min(start + length, |s|)]
  }

  /** `buf.toString('utf8', start, end)` with bytes read as characters:
      `end` is clipped to the buffer's length, an empty range gives "". */
  function BufferSlice(buf: seq<char>, start: nat, end: nat): (r: seq<char>)
    ensures end <= |buf| && start <= end ==> r == buf[start..end]
    ensures start < |buf| < end ==> r == buf[start..]
    ensures Min(end, |buf|) <= start ==> r == []
    ensures start <= end ==> |r| <= end - start
    ensures |r| <= |buf|
  {
    var hi := Min(end, |buf|);
    if start >= hi then [] else buf[start..hi]
  }

  // ---------------------------------------------------------------------
  // replace(/^0{1,limit}/, '')

  /** Number of '0' characters at the start of `s` (`LeadingZerosSpec`). */
  function LeadingZeros(s: string): (n: nat)
    ensures n <= |s|
  {
    if |s| > 0 && s[0] == '0' then 1 + LeadingZeros(s[1..]) else 0
  }

  /** `s.replace(/^0{1,limit}/, '')`: the greedy anchored match takes as many
      leading zeros as there are, up to `limit`; with none it leaves `s` alone
      (`StripLeadingZerosSpec`). */
  function StripLeadingZeros(s: string, limit: nat): (r: string)
    ensures |r| <= |s| && r == s[|s| - |r|..]
    ensures |s| - |r| <= limit
  {
    s[Min(limit, LeadingZeros(s))..]
  }

  // ---------------------------------------------------------------------
  // parseInt(s, 10)

  /** A JavaScript number as `parseInt` can produce it: NaN, or an integer
      with its sign kept apart so that negative zero (-0) stays visible. */
  datatype JsInt = NaN | Int(negative: bool, magnitude: nat)

  /** Length of the run of decimal digits at the start of `s`
      (`LeadingDigitsSpec`). */
  function LeadingDigits(s: string): (n: nat)
    ensures n <= |s|
  {
    if |s| > 0 && IsDigit(s[0]) then 1 + LeadingDigits(s[1..]) else 0
  }

  /** The value of a string of decimal digits, most significant first. */
  function DigitsValue(d: string): nat {
    if d == [] then 0 else 10 * DigitsValue(d[..|d| - 1]) + DigitValue(d[|d| - 1])
  }

  /** `parseInt(s, 10)`: skip leading whitespace, take one optional sign,
      then the longest run of decimal digits; NaN when that run is empty.
      A '-' before a run of zeros gives -0. */
  function ParseInt(s: string): JsInt {
    var t := s[LeadingWhitespace(s)..];
    var negative := |t| > 0 && t[0] == '-';
    var u := if |t| > 0 && (t[0] == '-' || t[0] == '+') then t[1..] else t;
    var n := LeadingDigits(u);
    if n == 0 then NaN else Int(negative, DigitsValue(u[..n]))
  }

  /** Whether `s` has a decimal digit that `parseInt` reaches: one preceded
      only by whitespace, or by whitespace and a single sign character. */
  predicate StartsWithNumber(s: string) {
    exists k :: 0 <= k < |s| && IsDigit(s[k]) && NumberPrefix(s, k)
  }

  predicate NumberPrefix(s: string, k: nat)
    requires k <= |s|
  {
    (forall j :: 0 <= j < k ==> IsJsWhitespace(s[j]))
    || (1 <= k && (s[k - 1] == '-' || s[k - 1] == '+')
        && forall j :: 0 <= j < k - 1 ==> IsJsWhitespace(s[j]))
  }

  // ---------------------------------------------------------------------
  // Lemmas

  /** The counted prefix is whitespace, and the count stops at the first
      character that is not. */
  lemma {:induction false} LeadingWhitespaceSpec(s: string)
    ensures forall j :: 0 <= j < LeadingWhitespace(s) ==> IsJsWhitespace(s[j])
    ensures LeadingWhitespace(s) < |s| ==> !IsJsWhitespace(s[LeadingWhitespace(s)])
  {
    if |s| > 0 && IsJsWhitespace(s[0]) {
      LeadingWhitespaceSpec(s[1..]);
    }
  }

  /** The counted suffix is whitespace, and the count stops at the last
      character that is not. */
  lemma {:induction false} TrailingWhitespaceSpec(s: string)
    ensures forall j :: |s| - TrailingWhitespace(s) <= j < |s| ==> IsJsWhitespace(s[j])
    ensures TrailingWhitespace(s) < |s| ==> !IsJsWhitespace(s[|s| - 1 - TrailingWhitespace(s)])
  {
    if |s| > 0 && IsJsWhitespace(s[|s| - 1]) {
      TrailingWhitespaceSpec(s[..|s| - 1]);
    }
  }

  lemma {:induction false} LeadingZerosSpec(s: string)
    ensures forall j :: 0 <= j < LeadingZeros(s) ==> s[j] == '0'
    ensures LeadingZeros(s) < |s| ==> s[LeadingZeros(s)] != '0'
  {
    if |s| > 0 && s[0] == '0' {
      LeadingZerosSpec(s[1..]);
    }
  }

  lemma {:induction false} LeadingDigitsSpec(s: string)
    ensures forall j :: 0 <= j < LeadingDigits(s) ==> IsDigit(s[j])
    ensures LeadingDigits(s) < |s| ==> !IsDigit(s[LeadingDigits(s)])
  {
    if |s| > 0 && IsDigit(s[0]) {
      LeadingDigitsSpec(s[1..]);
    }
  }

  /** What the regex removes is zeros, all of them unless the limit cut
      the run short. */
  lemma StripLeadingZerosSpec(s: string, limit: nat)
    ensures var r := StripLeadingZeros(s, limit);
      && (forall j :: 0 <= j < |s| - |r| ==> s[j] == '0')
      && (|s| - |r| < limit ==> r == [] || r[0] != '0')
  {
    LeadingZerosSpec(s);
  }

  /** `trim` leaves no whitespace at either end, and leaves nothing exactly
      when `s` is all whitespace. */
  lemma TrimSpec(s: string)
    ensures var r := Trim(s);
      && (|r| > 0 ==> !IsJsWhitespace(r[0]) && !IsJsWhitespace(r[|r| - 1]))
      && (r == [] <==> forall j :: 0 <= j < |s| ==> IsJsWhitespace(s[j]))
  {
    var l := LeadingWhitespace(s);
    var t := s[l..];
    LeadingWhitespaceSpec(s);
    TrailingWhitespaceSpec(t);
    var r := Trim(s);
    if r == [] {
      assert |t| == 0;
    } else {
      assert r[0] == t[0] && r[|r| - 1] == t[|t| - 1 - TrailingWhitespace(t)];
    }
  }

  /** `trim` is determined by the two cut points: whatever split of `s`
      into whitespace, a core that neither starts nor ends with whitespace,
      and whitespace yields that core. */
  lemma TrimIsUnique(s: string, a: nat, b: nat)
    requires a <= b <= |s|
    requires forall j :: 0 <= j < a ==> IsJsWhitespace(s[j])
    requires forall j :: b <= j < |s| ==> IsJsWhitespace(s[j])
    requires a < b ==> !IsJsWhitespace(s[a]) && !IsJsWhitespace(s[b - 1])
    ensures Trim(s) == s[a..b]
  {
    var l := LeadingWhitespace(s);
    var t := s[l..];
    var m := TrailingWhitespace(t);
    LeadingWhitespaceSpec(s);
    TrailingWhitespaceSpec(t);
    if a < b {
      assert l == a;
      assert |t| - 1 - m == b - 1 - l;
    } else {
      assert forall j :: 0 <= j < |s| ==> IsJsWhitespace(s[j]);
    }
  }

  /** A string without whitespace at either end is its own trim. */
  lemma TrimUnpadded(s: string)
    requires |s| > 0 ==> !IsJsWhitespace(s[0]) && !IsJsWhitespace(s[|s| - 1])
    ensures Trim(s) == s
  {
    TrimIsUnique(s, 0, |s|);
  }

  lemma TrimIdempotent(s: string)
    ensures Trim(Trim(s)) == Trim(s)
  {
    TrimSpec(s);
    TrimUnpadded(Trim(s));
  }

  /** Removing leading zeros does not change a digit string's value. */
  lemma {:induction false} DigitsValueDropZeros(d: string, k: nat)
    requires AllDigits(d)
    requires k <= |d|
    requires forall j :: 0 <= j < k ==> d[j] == '0'
    ensures DigitsValue(d[k..]) == DigitsValue(d)
    decreases |d|
  {
    if k == |d| {
      AllZerosValue(d);
    } else if k > 0 {
      var init := d[..|d| - 1];
      DigitsValueDropZeros(init, k);
      assert init[k..] == d[k..][..|d[k..]| - 1];
    }
  }

  lemma {:induction false} AllZerosValue(d: string)
    requires AllZeros(d)
    ensures AllDigits(d) && DigitsValue(d) == 0
    decreases |d|
  {
    if d != [] {
      AllZerosValue(d[..|d| - 1]);
    }
  }

  /** A digit string that does not start with '0' has a positive value. */
  lemma {:induction false} DigitsValuePositive(d: string)
    requires AllDigits(d)
    requires |d| > 0 && d[0] != '0'
    ensures DigitsValue(d) > 0
    decreases |d|
  {
    if |d| > 1 {
      DigitsValuePositive(d[..|d| - 1]);
    }
  }

  /** Stripping up to `limit` leading zeros from digits keeps the value and
      leaves digits; it leaves nothing exactly when the digits are at most
      `limit` zeros. */
  lemma StripZerosOfDigits(s: string, limit: nat)
    requires AllDigits(s)
    ensures var r := StripLeadingZeros(s, limit);
      AllDigits(r) && DigitsValue(r) == DigitsValue(s)
      && (r == [] <==> AllZeros(s) && |s| <= limit)
  {
    var r := StripLeadingZeros(s, limit);
    assert AllDigits(r) by {
      StripZerosKeepsDigits(s, limit);
    }
    assert DigitsValue(r) == DigitsValue(s) by {
      StripZerosKeepsValue(s, limit);
    }
    assert r == [] <==> AllZeros(s) && |s| <= limit by {
      StripZerosEmptyIff(s, limit);
    }
  }

  lemma StripZerosKeepsDigits(s: string, limit: nat)
    requires AllDigits(s)
    ensures AllDigits(StripLeadingZeros(s, limit))
  {
    var r := StripLeadingZeros(s, limit);
    forall j | 0 <= j < |r|
      ensures IsDigit(r[j])
    {
      assert r[j] == s[|s| - |r| + j];
    }
  }

  lemma StripZerosKeepsValue(s: string, limit: nat)
    requires AllDigits(s)
    ensures DigitsValue(StripLeadingZeros(s, limit)) == DigitsValue(s)
  {
    var r := StripLeadingZeros(s, limit);
    StripLeadingZerosSpec(s, limit);
    DigitsValueDropZeros(s, |s| - |r|);
  }

  /** The regex removes everything exactly when `s` is at most `limit`
      zeros. */
  lemma StripZerosEmptyIff(s: string, limit: nat)
    ensures StripLeadingZeros(s, limit) == [] <==> AllZeros(s) && |s| <= limit
  {
    LeadingZerosSpec(s);
    if AllZeros(s) && |s| <= limit {
      assert LeadingZeros(s) == |s|;
    }
  }

  /** `parseInt` of digits: NaN for "", otherwise their decimal value. */
  lemma ParseIntOfDigitString(d: string)
    requires AllDigits(d)
    ensures ParseInt(d) == if d == [] then NaN else Int(false, DigitsValue(d))
  {
    if d != [] {
      ParseIntOfDigits(d);
    }
  }

  /** `parseInt` of '-' and digits: NaN for "-", otherwise the negated
      value (-0 when the digits are all zeros). */
  lemma ParseIntOfSignedDigits(d: string)
    requires AllDigits(d)
    ensures ParseInt("-" + d) == if d == [] then NaN else Int(true, DigitsValue(d))
  {
    var v := "-" + d;
    assert LeadingWhitespace(v) == 0;
    assert v[0..][1..] == d;
    if d != [] {
      LeadingDigitsSpec(d);
      assert LeadingDigits(d) == |d|;
      assert d[..|d|] == d;
    }
  }

  /** `parseInt` of a non-empty string of digits is its decimal value. */
  lemma ParseIntOfDigits(d: string)
    requires |d| > 0 && AllDigits(d)
    ensures ParseInt(d) == Int(false, DigitsValue(d))
  {
    assert LeadingWhitespace(d) == 0 by {
      assert !IsJsWhitespace(d[0]);
    }
    var n := LeadingDigits(d);
    LeadingDigitsSpec(d);
    assert n == |d|;
    assert d[0..][..n] == d;
  }

  /** `parseInt` returns NaN exactly when no digit follows the optional
      whitespace and sign. */
  lemma ParseIntNaNIff(s: string)
    ensures ParseInt(s).NaN? <==> !StartsWithNumber(s)
  {
    var w := LeadingWhitespace(s);
    var t := s[w..];
    var signed := |t| > 0 && (t[0] == '-' || t[0] == '+');
    var u := if signed then t[1..] else t;
    LeadingWhitespaceSpec(s);
    LeadingDigitsSpec(u);
    if ParseInt(s).Int? {
      var k := if signed then w + 1 else w;
      assert u == s[k..];
      assert IsDigit(s[k]) && NumberPrefix(s, k);
    } else {
      assert LeadingDigits(u) == 0;
      forall k | 0 <= k < |s| && IsDigit(s[k])
        ensures !NumberPrefix(s, k)
      {
      }
    }
  }
}
