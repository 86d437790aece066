/**
 * The JavaScript string operations the scripts rely on: `String.prototype.trim`,
 * `startsWith` and `replace` with a string pattern (which replaces the first
 * occurrence only). Strings are sequences of characters.
 */
module JsText {
  import opened Wrappers

  /** ECMAScript WhiteSpace and LineTerminator code points: what `trim` removes. */
  predicate IsWhiteSpace(c: char)
  {
    || c == '\t' || c == '\U{000B}' || c == '\U{000C}' || c == ' '
    || c == '\U{00A0}' || c == '\U{FEFF}' || c == '\U{1680}'
    || ('\U{2000}' <= c <= '\U{200A}')
    || c == '\U{202F}' || c == '\U{205F}' || c == '\U{3000}'
    || c == '\n' || c == '\r' || c == '\U{2028}' || c == '\U{2029}'
  }

  /** Neither the first nor the last character is white space. */
  predicate NoOuterWhiteSpace(s: string)
  {
    s == [] || (!IsWhiteSpace(s[0]) && !IsWhiteSpace(s[|s| - 1]))
  }

  /** The number of white-space characters at the start of `s`. */
  function LeadingSpaceCount(s: string): (n: nat)
    ensures n <= |s|
    ensures forall i :: 0 <= i < n ==> IsWhiteSpace(s[i])
    ensures n < |s| ==> !IsWhiteSpace(s[n])
  {
    if |s| > 0 && IsWhiteSpace(s[0]) then 1 + LeadingSpaceCount(s[1..]) else 0
  }

  /** The number of white-space characters at the end of `s`. */
  function TrailingSpaceCount(s: string): (n: nat)
    ensures n <= |s|
    ensures forall i :: |s| - n <= i < |s| ==> IsWhiteSpace(s[i])
    ensures n < |s| ==> !IsWhiteSpace(s[|s| - 1 - n])
  {
    if |s| > 0 && IsWhiteSpace(s[|s| - 1]) then 1 + TrailingSpaceCount(s[..|s| - 1]) else 0
  }

  /**
   * `String.prototype.trim`. The result is the slice of `s` that starts after
   * the leading white space, nothing but white space follows it, and it has
   * no white space at either end.
   */
  function Trim(s: string): (r: string)
    ensures LeadingSpaceCount(s) + |r| <= |s|
    ensures r == s[LeadingSpaceCount(s)..LeadingSpaceCount(s) + |r|]
    ensures forall i :: LeadingSpaceCount(s) + |r| <= i < |s| ==> IsWhiteSpace(s[i])
    ensures NoOuterWhiteSpace(r)
  {
    var lo := LeadingSpaceCount(s);
    var t := s[lo..];
    var n := TrailingSpaceCount(t);
    var r := t[..|t| - n];
    assert forall i :: lo + |r| <= i < |s| ==> s[i] == t[i - lo];
    r
  }

  /** A string without white space at either end is left unchanged by `trim`. */
  lemma {:induction false} TrimKeepsTrimmed(s: string)
    requires NoOuterWhiteSpace(s)
    ensures Trim(s) == s
  {
  }

  /** `trim` is idempotent. */
  lemma TrimIdempotent(s: string)
    ensures Trim(Trim(s)) == Trim(s)
  {
    TrimKeepsTrimmed(Trim(s));
  }

  /** `s.startsWith(p)`. */
  predicate StartsWith(s: string, p: string)
  {
    |p| <= |s| && s[..|p|] == p
  }

  /** `pat` occurs in `s` at position `k`. */
  predicate OccursAt(s: string, pat: string, k: int)
  {
    0 <= k && k + |pat| <= |s| && s[k..k + |pat|] == pat
  }

  /** `s.indexOf(pat, from)`, with `None` for JavaScript's -1. */
  function IndexOfFrom(s: string, pat: string, from: nat): (r: Option<nat>)
    ensures r.Some? ==> from <= r.value && OccursAt(s, pat, r.value)
    ensures r.Some? ==> forall j :: from <= j < r.value ==> !OccursAt(s, pat, j)
    ensures r.None? ==> forall j :: from <= j ==> !OccursAt(s, pat, j)
    decreases |s| - from
  {
    if from + |pat| > |s| then None
    else if s[from..from + |pat|] == pat then Some(from)
    else IndexOfFrom(s, pat, from + 1)
  }

  /** `s.replace(pat, rep)` with a string pattern: only the FIRST occurrence is replaced. */
  function ReplaceFirst(s: string, pat: string, rep: string): (r: string)
    ensures (forall k :: !OccursAt(s, pat, k)) ==> r == s
    ensures IndexOfFrom(s, pat, 0).Some? ==> |r| == |s| - |pat| + |rep|
  {
    match IndexOfFrom(s, pat, 0)
    case None => s
    case Some(k) => s[..k] + rep + s[k + |pat|..]
  }

  /**
   * What `replace` with a string pattern does: nothing when `pat` does not
   * occur, and otherwise the first occurrence, and only it, becomes `rep`.
   */
  lemma ReplaceFirstSpec(s: string, pat: string, rep: string)
    ensures (forall k :: !OccursAt(s, pat, k)) ==> ReplaceFirst(s, pat, rep) == s
    ensures forall k :: OccursAt(s, pat, k) && (forall j :: 0 <= j < k ==> !OccursAt(s, pat, j)) ==>
              ReplaceFirst(s, pat, rep) == s[..k] + rep + s[k + |pat|..]
  {
    var first := IndexOfFrom(s, pat, 0);
    if first.Some? {
      forall k | OccursAt(s, pat, k) && (forall j :: 0 <= j < k ==> !OccursAt(s, pat, j))
        ensures k == first.value
      {
      }
    }
  }
}
