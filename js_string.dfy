/**
 * The part of JavaScript's String.prototype.trim that the wardrobe list relies
 * on: strip leading and trailing white space, where white space is the
 * ECMAScript WhiteSpace and LineTerminator code points.
 */
module JsString {

  /** ECMAScript WhiteSpace (TAB, VT, FF, SP, NBSP, ZWNBSP and category Zs)
      and LineTerminator (LF, CR, LS, PS). */
  predicate IsWhitespace(c: char) {
    var n := c as int;
    n == 0x09 || n == 0x0A || n == 0x0B || n == 0x0C || n == 0x0D || n == 0x20
    || n == 0xA0 || n == 0x1680 || (0x2000 <= n <= 0x200A)
    || n == 0x2028 || n == 0x2029 || n == 0x202F || n == 0x205F
    || n == 0x3000 || n == 0xFEFF
  }

  /** Every character of s is white space. */
  predicate AllWhitespace(s: string) {
    forall j :: 0 <= j < |s| ==> IsWhitespace(s[j])
  }

  /** The first index at or after i that does not hold white space (|s| if
      there is none): the scan trim() makes from the left. */
  function SkipLeading(s: string, i: nat): (a: nat)
    requires i <= |s|
    ensures i <= a <= |s|
    ensures forall j :: i <= j < a ==> IsWhitespace(s[j])
    ensures a == |s| || !IsWhitespace(s[a])
    decreases |s| - i
  {
    if i < |s| && IsWhitespace(s[i]) then SkipLeading(s, i + 1) else i
  }

  /** The end of s[lo..k] once its trailing white space is dropped: the scan
      trim() makes from the right, never crossing lo. */
  function SkipTrailing(s: string, lo: nat, k: nat): (b: nat)
    requires lo <= k <= |s|
    ensures lo <= b <= k
    ensures forall j :: b <= j < k ==> IsWhitespace(s[j])
    ensures b == lo || !IsWhitespace(s[b - 1])
    decreases k
  {
    if k > lo && IsWhitespace(s[k - 1]) then SkipTrailing(s, lo, k - 1) else k
  }

  /** Where the trimmed string starts in s: the length of the leading white
      space. */
  function TrimOffset(s: string): (a: nat)
    ensures a <= |s|
  {
    SkipLeading(s, 0)
  }

  /** String.prototype.trim: the slice of s starting at TrimOffset(s), with
      only white space outside it, neither starting nor ending with white
      space. */
  function Trim(s: string): (r: string)
    ensures TrimOffset(s) + |r| <= |s|
    ensures r == s[TrimOffset(s)..TrimOffset(s) + |r|]
    ensures forall j :: 0 <= j < TrimOffset(s) ==> IsWhitespace(s[j])
    ensures forall j :: TrimOffset(s) + |r| <= j < |s| ==> IsWhitespace(s[j])
    ensures r == [] || (!IsWhitespace(r[0]) && !IsWhitespace(r[|r| - 1]))
  {
    var a := SkipLeading(s, 0);
    s[a..SkipTrailing(s, a, |s|)]
  }

  /** trim() yields the empty string exactly when the input is all white
      space (the empty string included). */
  lemma TrimEmptyIffAllWhitespace(s: string)
    ensures Trim(s) == [] <==> AllWhitespace(s)
  {
  }

  /** Trimming is idempotent: a trimmed string trims to itself. */
  lemma TrimIdempotent(s: string)
    ensures Trim(Trim(s)) == Trim(s)
  {
  }
}
