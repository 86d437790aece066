/**
 * The reverser (revert.js): read a JSON file, check that it holds an array,
 * reverse that array in place with `reverse()`, and write it back.
 */
module Reverser {
  import opened Wrappers

  /** The elements of `s` from the last to the first. */
  function Reverse<T>(s: seq<T>): (r: seq<T>)
    ensures |r| == |s|
  {
    if s == [] then [] else [s[|s| - 1]] + Reverse(s[..|s| - 1])
  }

  /** Element k of the reversal is element n-1-k of the original. */
  lemma {:induction false} ReverseAt<T>(s: seq<T>, k: nat)
    requires k < |s|
    ensures Reverse(s)[k] == s[|s| - 1 - k]
  {
    if k > 0 {
      ReverseAt(s[..|s| - 1], k - 1);
    }
  }

  /** Reversing twice restores the original order. */
  lemma ReverseInvolution<T>(s: seq<T>)
    ensures Reverse(Reverse(s)) == s
  {
    forall k | 0 <= k < |s| ensures Reverse(Reverse(s))[k] == s[k] {
      ReverseAt(Reverse(s), k);
      ReverseAt(s, |s| - 1 - k);
    }
  }

  /** The reversal is a permutation: every element keeps its multiplicity. */
  lemma {:induction false} ReversePermutes<T>(s: seq<T>)
    ensures multiset(Reverse(s)) == multiset(s)
  {
    if s != [] {
      var init := s[..|s| - 1];
      ReversePermutes(init);
      assert s == init + [s[|s| - 1]];
    }
  }

  /** The worked example: [1, 2, 3] becomes [3, 2, 1]. */
  lemma ReverseExample()
    ensures Reverse([1, 2, 3]) == [3, 2, 1]
  {
    assert [1, 2, 3][..2] == [1, 2];
    assert [1, 2][..1] == [1];
  }

  /** `jsonArray.reverse()` (line 20): swaps from both ends towards the middle. */
  method ReverseInPlace<T>(a: array<T>)
    modifies a
    ensures a[..] == Reverse(old(a[..]))
    ensures multiset(a[..]) == multiset(old(a[..]))
  {
    ghost var original := a[..];
    var n := a.Length;
    var lo := 0;
    while lo < n / 2
      invariant 0 <= lo <= n / 2
      invariant forall k :: 0 <= k < lo ==> a[k] == original[n - 1 - k] && a[n - 1 - k] == original[k]
      invariant forall k :: lo <= k <= n - 1 - lo ==> a[k] == original[k]
    {
      assert lo < n - 1 - lo;
      a[lo], a[n - 1 - lo] := a[n - 1 - lo], a[lo];
      lo := lo + 1;
    }
    forall k | 0 <= k < n ensures a[..][k] == Reverse(original)[k] {
      ReverseAt(original, k);
    }
    assert a[..] == Reverse(original);
    ReversePermutes(original);
  }

  /**
   * What `JSON.parse` gave: the read or the parse failed, a value that is not
   * an array, or an array (held by reference, as JavaScript arrays are).
   */
  datatype Parsed<T> = Unreadable | NotAnArray | AnArray(elems: array<T>)

  /** The objects the script may change: the parsed array, when there is one. */
  function Footprint<T>(input: Parsed<T>): set<object>
  {
    if input.AnArray? then {input.elems} else {}
  }

  /**
   * The whole script. With an array, the array itself is reversed (so the
   * `reversedArray` of line 20 is the same object), the file is rewritten with
   * the reversed elements, and the two lengths logged at line 26 are both the
   * original length. Anything else writes nothing.
   */
  method RevertFile<T>(input: Parsed<T>) returns (written: Option<seq<T>>, lengths: Option<(int, int)>)
    modifies Footprint(input)
    ensures input.AnArray? ==> input.elems[..] == Reverse(old(input.elems[..]))
    ensures input.AnArray? ==> written == Some(input.elems[..])
    ensures input.AnArray? ==> lengths == Some((input.elems.Length, input.elems.Length))
    ensures !input.AnArray? ==> written.None? && lengths.None?
  {
    match input
    case AnArray(jsonArray) =>
      ReverseInPlace(jsonArray);
      var reversedArray := jsonArray;
      written := Some(reversedArray[..]);
      lengths := Some((jsonArray.Length, reversedArray.Length));
    case _ =>
      written, lengths := None, None;
  }
}
