/** The JavaScript string built-ins the record service relies on: the white-space
    class shared by `String.prototype.trim` and the regular-expression escape `\s`,
    trimming, and lower-casing (ASCII letters only). */
module JsText {

  /** ECMAScript WhiteSpace and LineTerminator code points: the set `trim` removes
      and `\s` matches. */
  predicate IsSpace(c: char) {
    var n := c as int;
    n == 0x09 || n == 0x0A || n == 0x0B || n == 0x0C || n == 0x0D || n == 0x20 ||
    n == 0xA0 || n == 0x1680 || (0x2000 <= n <= 0x200A) || n == 0x2028 ||
    n == 0x2029 || n == 0x202F || n == 0x205F || n == 0x3000 || n == 0xFEFF
  }

  predicate NoSpace(s: string) {
    forall k :: 0 <= k < |s| ==> !IsSpace(s[k])
  }

  /** The first position at or after `i` that does not hold white space, or |s|. */
  function SkipSpaceFrom(s: string, i: nat): (r: nat)
    requires i <= |s|
    ensures i <= r <= |s|
    ensures forall k :: i <= k < r ==> IsSpace(s[k])
    ensures r < |s| ==> !IsSpace(s[r])
    decreases |s| - i
  {
    if i == |s| || !IsSpace(s[i]) then i else SkipSpaceFrom(s, i + 1)
  }

  /** The end of `s[..j]` once its trailing white space is dropped. */
  function SkipSpaceBefore(s: string, j: nat): (r: nat)
    requires j <= |s|
    ensures r <= j
    ensures forall k :: r <= k < j ==> IsSpace(s[k])
    ensures 0 < r ==> !IsSpace(s[r - 1])
  {
    if j == 0 || !IsSpace(s[j - 1]) then j else SkipSpaceBefore(s, j - 1)
  }

  /** `r` is the slice of `s` starting at `a`, and everything of `s` outside that
      slice is white space. */
  predicate SpaceAround(s: string, r: string, a: int) {
    0 <= a <= |s| - |r| && r == s[a..a + |r|] &&
    (forall k :: 0 <= k < a ==> IsSpace(s[k])) &&
    (forall k :: a + |r| <= k < |s| ==> IsSpace(s[k]))
  }

  /** `String.prototype.trim`: the slice of `s` left when white space is cut from
      both ends. */
  function Trim(s: string): (r: string)
    ensures exists a :: SpaceAround(s, r, a)
    ensures r == [] || (!IsSpace(r[0]) && !IsSpace(r[|r| - 1]))
    ensures NoSpace(s) ==> r == s
  {
    var a := SkipSpaceFrom(s, 0);
    var b := SkipSpaceBefore(s, |s|);
    if a == |s| then
      assert SpaceAround(s, [], a);
      []
    else
      assert a < b;
      assert SpaceAround(s, s[a..b], a);
      s[a..b]
  }

  predicate IsUpperAscii(c: char) {
    'A' <= c <= 'Z'
  }

  function LowerChar(c: char): char {
    if IsUpperAscii(c) then (c as int + 32) as char else c
  }

  /** `String.prototype.toLowerCase`, restricted to the ASCII letters. */
  function ToLowerAscii(s: string): (r: string)
    ensures |r| == |s|
    ensures forall k :: 0 <= k < |r| ==> !IsUpperAscii(r[k])
    ensures forall k :: 0 <= k < |s| && !IsUpperAscii(s[k]) ==> r[k] == s[k]
    ensures forall k :: 0 <= k < |s| && IsUpperAscii(s[k]) ==> r[k] as int == s[k] as int + 32
  {
    seq(|s|, k requires 0 <= k < |s| => LowerChar(s[k]))
  }

  /** `c` and `d` are the same character, or the same ASCII letter in upper and
      lower case. */
  predicate SameIgnoringAsciiCase(c: char, d: char) {
    c == d
    || (IsUpperAscii(c) && d as int == c as int + 32)
    || (IsUpperAscii(d) && c as int == d as int + 32)
  }
}
