/**
 * The three string operations the hub and the agent rely on: case folding
 * (`str.lower`), trimming (`str.strip`) and substring search (`in` on strings).
 * Only the ASCII part of Python's Unicode behaviour is modelled.
 */
module Text {

  /** Python's `str.lower` on one ASCII character: 'A'..'Z' become 'a'..'z'. */
  function LowerChar(c: char): (d: char)
    ensures 'A' <= c <= 'Z' ==> d as int == c as int + 32
    ensures !('A' <= c <= 'Z') ==> d == c
  {
    if 'A' <= c <= 'Z' then (c as int + 32) as char else c
  }

  /** Python's `str.lower`, character by character: only ASCII 'A'..'Z' are folded. */
  function Lower(s: string): (r: string)
    ensures |r| == |s|
    ensures forall i :: 0 <= i < |s| && 'A' <= s[i] <= 'Z' ==> r[i] as int == s[i] as int + 32
    ensures forall i :: 0 <= i < |s| && !('A' <= s[i] <= 'Z') ==> r[i] == s[i]
  {
    seq(|s|, i requires 0 <= i < |s| => LowerChar(s[i]))
  }

  /** Two characters that are equal or are the same ASCII letter in different case. */
  predicate SameLetterIgnoringCase(a: char, b: char) {
    || a == b
    || ('A' <= a <= 'Z' && b as int == a as int + 32)
    || ('A' <= b <= 'Z' && a as int == b as int + 32)
  }

  /** Lower-cased strings are equal exactly when the strings differ only in the case of ASCII letters. */
  lemma LowerEqualIffCaseVariant(x: string, y: string)
    ensures Lower(x) == Lower(y) <==>
      |x| == |y| && forall i :: 0 <= i < |x| ==> SameLetterIgnoringCase(x[i], y[i])
  {
    if Lower(x) == Lower(y) {
      forall i | 0 <= i < |x| ensures SameLetterIgnoringCase(x[i], y[i]) {
        assert Lower(x)[i] == Lower(y)[i];
      }
    }
  }

  /** Lower-casing a lower-cased string changes nothing. */
  lemma LowerIdempotent(s: string)
    ensures Lower(Lower(s)) == Lower(s)
  {
  }

  /** The ASCII characters for which Python's `str.isspace` holds: \t \n \v \f \r, \x1c-\x1f and ' '. */
  predicate IsSpace(c: char) {
    9 <= c as int <= 13 || 28 <= c as int <= 32
  }

  /** Number of leading whitespace characters. */
  function LeadLen(s: string): (n: nat)
    ensures n <= |s|
    ensures forall k :: 0 <= k < n ==> IsSpace(s[k])
    ensures n < |s| ==> !IsSpace(s[n])
  {
    if |s| > 0 && IsSpace(s[0]) then 1 + LeadLen(s[1..]) else 0
  }

  /** Number of trailing whitespace characters. */
  function TrailLen(s: string): (n: nat)
    ensures n <= |s|
    ensures forall k :: |s| - n <= k < |s| ==> IsSpace(s[k])
    ensures n < |s| ==> !IsSpace(s[|s| - 1 - n])
  {
    if |s| > 0 && IsSpace(s[|s| - 1]) then 1 + TrailLen(s[..|s| - 1]) else 0
  }

  /**
   * Python's `str.strip()` with no argument: the longest slice of `s` that
   * neither starts nor ends with whitespace, obtained by removing only
   * whitespace from both ends.
   */
  function Strip(s: string): (r: string)
    ensures LeadLen(s) + |r| <= |s| && r == s[LeadLen(s)..LeadLen(s) + |r|]
    ensures forall k :: 0 <= k < |s| && !(LeadLen(s) <= k < LeadLen(s) + |r|) ==> IsSpace(s[k])
    ensures |r| > 0 ==> !IsSpace(r[0]) && !IsSpace(r[|r| - 1])
  {
    var t := s[LeadLen(s)..];
    t[..|t| - TrailLen(t)]
  }

  /** Stripping is empty exactly for all-whitespace input (Python: `if s.strip():`). */
  lemma StripEmptyIffAllSpace(s: string)
    ensures Strip(s) == [] <==> forall k :: 0 <= k < |s| ==> IsSpace(s[k])
  {
    var r := Strip(s);
    if r != [] {
      assert s[LeadLen(s)] == r[0];
    }
  }

  /** Stripping a stripped string changes nothing. */
  lemma StripIdempotent(s: string)
    ensures Strip(Strip(s)) == Strip(s)
  {
    var r := Strip(s);
    assert LeadLen(r) == 0;
    assert TrailLen(r) == 0;
  }

  /** `needle` occurs in `hay` starting at position `k`. */
  ghost predicate OccursAt(hay: string, needle: string, k: int) {
    0 <= k && k + |needle| <= |hay| && hay[k..k + |needle|] == needle
  }

  /** Python's `needle in hay` for strings: a contiguous occurrence; the empty needle occurs everywhere. */
  predicate Contains(hay: string, needle: string)
    ensures needle == [] ==> Contains(hay, needle)
    ensures Contains(hay, needle) ==> |needle| <= |hay|
    decreases |hay|
  {
    |needle| <= |hay| && (hay[..|needle|] == needle || Contains(hay[1..], needle))
  }

  /** A slice of the tail is the slice one position further on. */
  lemma TailSlice(hay: string, k: nat, n: nat)
    requires 0 < |hay| && k + n <= |hay| - 1
    ensures hay[1..][k..k + n] == hay[k + 1..k + 1 + n]
  {
    var a, b := hay[1..][k..k + n], hay[k + 1..k + 1 + n];
    assert |a| == |b|;
    forall i | 0 <= i < n ensures a[i] == b[i] {
      assert a[i] == hay[1..][k + i] == hay[k + 1 + i];
    }
  }

  /** `Contains` finds exactly the contiguous occurrences. */
  lemma {:induction false} ContainsIffOccurs(hay: string, needle: string)
    ensures Contains(hay, needle) <==> exists k :: OccursAt(hay, needle, k)
    decreases |hay|
  {
    if Contains(hay, needle) {
      if hay[..|needle|] == needle {
        assert OccursAt(hay, needle, 0);
      } else {
        ContainsIffOccurs(hay[1..], needle);
        var k :| OccursAt(hay[1..], needle, k);
        TailSlice(hay, k, |needle|);
        assert OccursAt(hay, needle, k + 1);
      }
    }
    if exists k :: OccursAt(hay, needle, k) {
      var k :| OccursAt(hay, needle, k);
      if k > 0 {
        ContainsIffOccurs(hay[1..], needle);
        TailSlice(hay, k - 1, |needle|);
        assert OccursAt(hay[1..], needle, k - 1);
      } else {
        assert hay[..|needle|] == needle;
      }
    }
  }
}
