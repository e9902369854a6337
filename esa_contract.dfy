/** What an enhanced suffix array over a symbol sequence is: a suffix array
    (a permutation of the offsets, sorted by suffix) and a list of nodes, each
    an interval of the suffix array whose suffixes share a prefix of a given
    depth. The builders themselves (modules `esa` and `sais`) are not part of
    this model; these predicates are the contract their output is held to. */
module EsaContract {

  /** Lexicographic order on sequences; a proper prefix comes first. */
  predicate LexLeq(a: seq<int>, b: seq<int>)
    decreases |a|
  {
    |a| == 0 || (|b| > 0 && (a[0] < b[0] || (a[0] == b[0] && LexLeq(a[1..], b[1..]))))
  }

  /** A prefix comes no later than the sequence it begins. */
  lemma {:induction false} PrefixLexLeq(a: seq<int>, b: seq<int>)
    requires a <= b
    ensures LexLeq(a, b)
    decreases |a|
  {
    if |a| > 0 {
      assert a[1..] <= b[1..];
      PrefixLexLeq(a[1..], b[1..]);
    }
  }

  /** `sa` holds each offset 0..n exactly once. */
  predicate IsPermutation(sa: seq<int>, n: nat) {
    |sa| == n &&
    (forall j :: 0 <= j < n ==> 0 <= sa[j] < n) &&
    (forall j, k :: 0 <= j < n && 0 <= k < n && j != k ==> sa[j] != sa[k])
  }

  /** `sa` is the suffix array of `s`: a permutation of its offsets listing
      the suffixes in non-decreasing lexicographic order. */
  predicate IsSuffixArray(s: seq<int>, sa: seq<int>) {
    IsPermutation(sa, |s|) &&
    forall j :: 0 <= j < |s| - 1 ==> LexLeq(s[sa[j]..], s[sa[j + 1]..])
  }

  /** The interval [left, right) of `sa` at string depth `depth` is a node:
      it is non-empty and every suffix it lists starts with the same
      `depth` symbols as the first one. */
  predicate IsNode(s: seq<int>, sa: seq<int>, left: int, right: int, depth: int) {
    0 <= left < right <= |sa| && 0 <= depth &&
    0 <= sa[left] && sa[left] + depth <= |s| &&
    forall j :: left <= j < right ==>
      0 <= sa[j] && sa[j] + depth <= |s| &&
      s[sa[j]..sa[j] + depth] == s[sa[left]..sa[left] + depth]
  }

  /** The first `nodeNum` entries of the three node arrays are nodes; the
      entries after them are left over and constrained by nothing. */
  predicate NodesValid(s: seq<int>, sa: seq<int>, left: seq<int>, right: seq<int>, depth: seq<int>, nodeNum: nat) {
    nodeNum <= |left| && nodeNum <= |right| && nodeNum <= |depth| &&
    forall k :: 0 <= k < nodeNum ==> IsNode(s, sa, left[k], right[k], depth[k])
  }

  /** The whole output of a successful build over a sequence of length n:
      four length-n arrays, a suffix array, at most n nodes, all valid. */
  predicate IsEnhancedSuffixArray(s: seq<int>, sa: seq<int>, left: seq<int>, right: seq<int>, depth: seq<int>, nodeNum: nat) {
    |left| == |s| && |right| == |s| && |depth| == |s| &&
    IsSuffixArray(s, sa) &&
    nodeNum <= |s| &&
    NodesValid(s, sa, left, right, depth, nodeNum)
  }

  /** The offsets an interval of the suffix array lists. */
  function IntervalOffsets(sa: seq<int>, left: int, right: int): set<int>
    requires 0 <= left <= right <= |sa|
  {
    set j | left <= j < right :: sa[j]
  }

  /** An interval of a permutation lists as many distinct offsets as it is long. */
  lemma {:induction false} IntervalOffsetsSize(sa: seq<int>, left: int, right: int)
    requires IsPermutation(sa, |sa|)
    requires 0 <= left <= right <= |sa|
    ensures |IntervalOffsets(sa, left, right)| == right - left
    decreases right - left
  {
    if left < right {
      IntervalOffsetsSize(sa, left, right - 1);
      var shorter := IntervalOffsets(sa, left, right - 1);
      assert forall j :: left <= j < right - 1 ==> sa[j] != sa[right - 1];
      assert sa[right - 1] !in shorter;
      assert IntervalOffsets(sa, left, right) == shorter + {sa[right - 1]};
    } else {
      assert IntervalOffsets(sa, left, right) == {};
    }
  }
}
