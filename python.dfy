/**
 * The few Python built-ins the backend's logic rests on: `None`, the
 * truthiness of optional strings and integers, `str.startswith`,
 * `str.strip()` and the decimal rendering `str(n)` used in f-strings.
 */
module Python {

  datatype Option<+T> = None | Some(value: T)

  /** `not s` for a value that is `None` or a `str`. */
  predicate FalsyStr(s: Option<string>) {
    s.None? || s.value == ""
  }

  /** `not i` for a value that is `None` or an `int`. */
  predicate FalsyInt(i: Option<int>) {
    i.None? || i.value == 0
  }

  /** `s.startswith(prefix)`. */
  predicate StartsWith(s: string, prefix: string) {
    |prefix| <= |s| && s[..|prefix|] == prefix
  }

  /**
   * The code points for which `c.isspace()` holds, as inclusive ranges: the
   * ASCII controls 9-13 and 28-31, the space, and the Unicode space
   * separators and line/paragraph separators.
   */
  const SpaceRanges: seq<(int, int)> :=
    [(9, 13), (28, 32), (0x85, 0x85), (0xA0, 0xA0), (0x1680, 0x1680), (0x2000, 0x200A),
     (0x2028, 0x2029), (0x202F, 0x202F), (0x205F, 0x205F), (0x3000, 0x3000)]

  predicate InRanges(n: int, ranges: seq<(int, int)>) {
    ranges != [] && (ranges[0].0 <= n <= ranges[0].1 || InRanges(n, ranges[1..]))
  }

  /** `c.isspace()`: the characters `str.strip()` removes when called without arguments. */
  predicate IsSpace(c: char) {
    InRanges(c as int, SpaceRanges)
  }

  predicate AllSpace(s: string) {
    forall i :: 0 <= i < |s| ==> IsSpace(s[i])
  }

  /** `not s or not s.strip()` for a value that is `None` or a `str`: nothing but whitespace, if anything. */
  predicate Blank(s: Option<string>) {
    s.None? || AllSpace(s.value)
  }

  /** What `strip()` leaves: nothing, or text with no whitespace at either end. */
  predicate IsStripped(s: string) {
    s == [] || (!IsSpace(s[0]) && !IsSpace(s[|s| - 1]))
  }

  /** The first index at or after `i` holding no whitespace, or `|s|` when there is none. */
  function SkipSpace(s: string, i: nat): (j: nat)
    requires i <= |s|
    ensures i <= j <= |s|
    ensures forall k :: i <= k < j ==> IsSpace(s[k])
    ensures j < |s| ==> !IsSpace(s[j])
    decreases |s| - i
  {
    if i < |s| && IsSpace(s[i]) then SkipSpace(s, i + 1) else i
  }

  /**
   * Scanning back from `j` over whitespace, never below `lo`: the end of the
   * last character that is not whitespace, or `lo` when there is none.
   */
  function SkipSpaceBack(s: string, lo: nat, j: nat): (e: nat)
    requires lo <= j <= |s|
    ensures lo <= e <= j
    ensures forall k :: e <= k < j ==> IsSpace(s[k])
    ensures lo < e ==> !IsSpace(s[e - 1])
    decreases j
  {
    if lo < j && IsSpace(s[j - 1]) then SkipSpaceBack(s, lo, j - 1) else j
  }

  /** `s.strip()`: skip the leading whitespace, then scan back over the trailing whitespace. */
  function Strip(s: string): (r: string)
    ensures IsStripped(r)
    ensures |r| <= |s|
  {
    var i := SkipSpace(s, 0);
    s[i..SkipSpaceBack(s, i, |s|)]
  }

  /** `s.strip()` is empty exactly when `s` is empty or whitespace only. */
  lemma StripEmptyIff(s: string)
    ensures Strip(s) == [] <==> AllSpace(s)
  {
    var i := SkipSpace(s, 0);
    var e := SkipSpaceBack(s, i, |s|);
    assert |Strip(s)| == e - i;
  }

  /** Whitespace only around already stripped text is exactly what `strip()` removes. */
  lemma StripPadded(pre: string, mid: string, post: string)
    requires AllSpace(pre) && AllSpace(post) && IsStripped(mid)
    ensures Strip(pre + mid + post) == mid
  {
    var s := pre + mid + post;
    assert forall k :: 0 <= k < |pre| ==> s[k] == pre[k];
    assert forall k :: |pre| + |mid| <= k < |s| ==> s[k] == post[k - |pre| - |mid|];
    if mid == [] {
      assert AllSpace(s);
      StripEmptyIff(s);
    } else {
      var i := SkipSpace(s, 0);
      assert s[|pre|] == mid[0];
      assert i == |pre|;
      var e := SkipSpaceBack(s, i, |s|);
      assert s[|pre| + |mid| - 1] == mid[|mid| - 1];
      assert e == |pre| + |mid|;
      assert s[i..e] == mid;
    }
  }

  /** Stripping twice is stripping once. */
  lemma StripIdempotent(s: string)
    ensures Strip(Strip(s)) == Strip(s)
  {
    var r := Strip(s);
    assert [] + r + [] == r;
    StripPadded([], r, []);
  }

  /** How many whitespace characters `strip()` cuts from the front of `s`. */
  function Lead(s: string): (n: nat)
    ensures n <= |s|
  {
    SkipSpace(s, 0)
  }

  /** `strip()` returns a contiguous slice of its input with only whitespace cut on either side. */
  lemma StripIsInfix(s: string)
    ensures Lead(s) + |Strip(s)| <= |s|
    ensures s == s[..Lead(s)] + Strip(s) + s[Lead(s) + |Strip(s)|..]
    ensures AllSpace(s[..Lead(s)]) && AllSpace(s[Lead(s) + |Strip(s)|..])
  {
    var i := SkipSpace(s, 0);
    var e := SkipSpaceBack(s, i, |s|);
    assert s == s[..i] + s[i..e] + s[e..];
  }

  function DigitChar(d: nat): (c: char)
    requires d < 10
    ensures '0' <= c <= '9' && c as int - '0' as int == d
  {
    ('0' as int + d) as char
  }

  predicate AllDigits(s: string) {
    forall i :: 0 <= i < |s| ==> '0' <= s[i] <= '9'
  }

  /** `str(n)` for a non-negative integer: its decimal digits, without leading zeros. */
  function NatToString(n: nat): (r: string)
    ensures r != [] && AllDigits(r)
    ensures r[0] == '0' ==> n == 0 && r == "0"
    decreases n
  {
    if n < 10 then [DigitChar(n)] else NatToString(n / 10) + [DigitChar(n % 10)]
  }

  /** `str(i)` for any integer, as an f-string renders it. */
  function IntToString(i: int): (r: string) {
    if i < 0 then "-" + NatToString(-i) else NatToString(i)
  }

  /** The number a string of decimal digits denotes. */
  function DecimalValue(s: string): nat
    requires AllDigits(s)
  {
    if s == [] then 0 else DecimalValue(s[..|s| - 1]) * 10 + (s[|s| - 1] as int - '0' as int)
  }

  lemma {:induction false} DecimalRoundTrip(n: nat)
    ensures DecimalValue(NatToString(n)) == n
    decreases n
  {
    if n >= 10 {
      var s := NatToString(n);
      assert s[..|s| - 1] == NatToString(n / 10);
      DecimalRoundTrip(n / 10);
    }
  }

  /** Distinct naturals render differently. */
  lemma NatToStringInjective(a: nat, b: nat)
    ensures NatToString(a) == NatToString(b) ==> a == b
  {
    DecimalRoundTrip(a);
    DecimalRoundTrip(b);
  }

  /** Distinct integers render differently: a message names the one id it was built from. */
  lemma IntToStringInjective(a: int, b: int)
    ensures IntToString(a) == IntToString(b) ==> a == b
  {
    if a < 0 && b < 0 {
      assert IntToString(a)[1..] == NatToString(-a);
      assert IntToString(b)[1..] == NatToString(-b);
      NatToStringInjective(-a, -b);
    } else if a >= 0 && b >= 0 {
      NatToStringInjective(a, b);
    } else {
      var neg := if a < 0 then a else b;
      var pos := if a < 0 then b else a;
      assert IntToString(neg)[0] == '-';
      assert '0' <= IntToString(pos)[0] <= '9';
    }
  }

}
