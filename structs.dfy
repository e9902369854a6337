/** The built structure and the iterator over its nodes. */
module Structs {
  import opened Types
  import opened EsaContract

  /** One yielded pair: a slice of the text and the number of suffixes
      in its node's interval. */
  datatype Item = Item(slice: seq<char>, freq: int)

  /** The owned structure: the text, the suffix array, the three node
      arrays and the node count. It has no mutation API, so it is a value.
      `width` records the element type it was built with. */
  datatype Suffix = Suffix(
    width: Width,
    chars: seq<char>,
    suffixArray: seq<int>,
    leftArray: seq<int>,
    rightArray: seq<int>,
    depthArray: seq<int>,
    nodeNum: nat)
  {
    /** Every stored element is a value of the element type. */
    predicate WellTyped() {
      (forall j :: 0 <= j < |suffixArray| ==> width.Holds(suffixArray[j])) &&
      (forall j :: 0 <= j < |leftArray| ==> width.Holds(leftArray[j])) &&
      (forall j :: 0 <= j < |rightArray| ==> width.Holds(rightArray[j])) &&
      (forall j :: 0 <= j < |depthArray| ==> width.Holds(depthArray[j]))
    }

    /** The arrays are an enhanced suffix array of the text. */
    predicate WellFormed() {
      IsEnhancedSuffixArray(Symbols(chars), suffixArray, leftArray, rightArray, depthArray, nodeNum)
    }
  }

  /** Node `k` can be turned into an item: its slice lies inside the text
      and its interval is not reversed. */
  predicate NodeInBounds(s: Suffix, k: nat) {
    k < |s.leftArray| && k < |s.rightArray| && k < |s.depthArray| &&
    0 <= s.leftArray[k] < |s.suffixArray| &&
    0 <= s.suffixArray[s.leftArray[k]] && 0 <= s.depthArray[k] &&
    s.suffixArray[s.leftArray[k]] + s.depthArray[k] <= |s.chars| &&
    s.leftArray[k] <= s.rightArray[k]
  }

  /** The item node `k` stands for. */
  function ItemAt(s: Suffix, k: nat): (r: Item)
    requires NodeInBounds(s, k)
    ensures |r.slice| == s.depthArray[k] && r.freq >= 0
  {
    var offset := s.suffixArray[s.leftArray[k]];
    Item(s.chars[offset..offset + s.depthArray[k]], s.rightArray[k] - s.leftArray[k])
  }

  /** The items a fresh iteration from cursor `from` yields, in order. */
  function Remaining(s: Suffix, from: nat): (r: seq<Item>)
    requires from <= s.nodeNum
    requires forall k :: from <= k < s.nodeNum ==> NodeInBounds(s, k)
    ensures |r| == s.nodeNum - from
    ensures forall j :: 0 <= j < |r| ==> r[j] == ItemAt(s, from + j)
    decreases s.nodeNum - from
  {
    if from == s.nodeNum then [] else [ItemAt(s, from)] + Remaining(s, from + 1)
  }

  /** The `usize` iterator reads node `k` without panicking: every index is
      in range, `right - left` does not underflow and fits in a u32. */
  predicate UsizeNodeReadable(s: Suffix, k: nat) {
    NodeInBounds(s, k) && s.rightArray[k] - s.leftArray[k] <= U32_MAX
  }

  /** The `i32` iterator reads node `k` without panicking. Each array access
      and the subtraction are only reached once the conversions before them
      succeeded, so each demand is guarded by those conversions. */
  predicate I32NodeSafe(s: Suffix, k: nat) {
    k < |s.leftArray| &&
    (0 <= s.leftArray[k] ==>
      s.leftArray[k] < |s.suffixArray| &&
      (0 <= s.suffixArray[s.leftArray[k]] ==>
        k < |s.depthArray| &&
        (0 <= s.depthArray[k] ==>
          k < |s.rightArray| &&
          InI32(s.rightArray[k] - s.leftArray[k]) &&
          (0 <= s.rightArray[k] - s.leftArray[k] ==>
            s.suffixArray[s.leftArray[k]] + s.depthArray[k] <= |s.chars|))))
  }

  /** What one `next` call on an `i32` structure returns with the cursor at
      `k`: nothing at the end, nothing when a value does not convert (a
      negative left, offset, depth or frequency), otherwise the item. */
  function StepI32(s: Suffix, k: nat): Option<Item>
    requires k <= s.nodeNum
    requires k < s.nodeNum ==> I32NodeSafe(s, k)
  {
    if k == s.nodeNum then None
    else
      var left := s.leftArray[k];
      if left < 0 then None
      else
        var offset := s.suffixArray[left];
        if offset < 0 then None
        else
          var len := s.depthArray[k];
          if len < 0 then None
          else
            var freq := s.rightArray[k] - left;
            if freq < 0 then None
            else Some(Item(s.chars[offset..offset + len], freq))
  }

  /** The cursor over a borrowed structure. */
  class SuffixIterator {
    var i: nat
    const suffix: Suffix

    ghost predicate Valid()
      reads this
    {
      suffix.WellTyped() && i <= suffix.nodeNum
    }

    /** `Suffix::iter`: a cursor at the first node over the unchanged structure. */
    constructor (suffix: Suffix)
      requires suffix.WellTyped()
      ensures Valid()
      ensures this.suffix == suffix && i == 0
    {
      this.suffix := suffix;
      i := 0;
    }

    /** `next` on a `usize` structure. Every failure here is a panic, so
        the node under the cursor has to be readable. */
    method NextUsize() returns (r: Option<Item>)
      requires Valid() && suffix.width == Usize
      requires i < suffix.nodeNum ==> UsizeNodeReadable(suffix, i)
      modifies this
      ensures Valid()
      ensures r.None? <==> old(i) == suffix.nodeNum
      ensures r.Some? ==> r.value == ItemAt(suffix, old(i)) && r.value.freq <= U32_MAX
      ensures i == if r.Some? then old(i) + 1 else old(i)
      ensures (forall k :: old(i) <= k < suffix.nodeNum ==> NodeInBounds(suffix, k)) ==>
        Remaining(suffix, old(i)) == (if r.Some? then [r.value] else []) + Remaining(suffix, i)
    {
      var index := i;
      if index == suffix.nodeNum {
        r := None;
      } else {
        var left := suffix.leftArray[index];
        var offset := suffix.suffixArray[left];
        var len := suffix.depthArray[index];
        var freq := suffix.rightArray[index] - suffix.leftArray[index];
        i := i + 1;
        r := Some(Item(suffix.chars[offset..offset + len], freq));
      }
    }

    /** `next` on an `i32` structure. A value that does not convert ends the
        call with `None` and leaves the cursor where it was, so every later
        call returns `None` as well. */
    method NextI32() returns (r: Option<Item>)
      requires Valid() && suffix.width == I32
      requires i < suffix.nodeNum ==> I32NodeSafe(suffix, i)
      modifies this
      ensures Valid()
      ensures r == StepI32(suffix, old(i))
      ensures old(i) == suffix.nodeNum ==> r.None?
      ensures i == if r.Some? then old(i) + 1 else old(i)
      ensures r.None? ==> StepI32(suffix, i).None?
      ensures r.Some? ==> 0 <= r.value.freq <= U32_MAX
    {
      var index := i;
      if index == suffix.nodeNum {
        return None;
      }
      var left := suffix.leftArray[index];
      if left < 0 {
        return None;
      }
      var offset := suffix.suffixArray[left];
      if offset < 0 {
        return None;
      }
      var len := suffix.depthArray[index];
      if len < 0 {
        return None;
      }
      var freq := suffix.rightArray[index] - suffix.leftArray[index];
      if freq < 0 {
        return None;
      }
      i := i + 1;
      r := Some(Item(suffix.chars[offset..offset + len], freq));
    }
  }

  /** On a well-formed structure every node is in bounds, the whole
      iteration yields exactly `nodeNum` items, and if the text is no longer
      than u32::MAX no `usize` read panics. */
  lemma WellFormedIterates(s: Suffix)
    requires s.WellFormed()
    ensures forall k :: 0 <= k < s.nodeNum ==> NodeInBounds(s, k)
    ensures |s.chars| <= U32_MAX ==> forall k :: 0 <= k < s.nodeNum ==> UsizeNodeReadable(s, k)
    ensures |Remaining(s, 0)| == s.nodeNum
  {
    forall k | 0 <= k < s.nodeNum
      ensures NodeInBounds(s, k) && s.rightArray[k] - s.leftArray[k] <= |s.chars|
    {
      assert IsNode(Symbols(s.chars), s.suffixArray, s.leftArray[k], s.rightArray[k], s.depthArray[k]);
    }
  }

  /** Distinct texts have distinct symbol sequences. */
  lemma SymbolsInjective(u: seq<char>, v: seq<char>)
    requires Symbols(u) == Symbols(v)
    ensures u == v
  {
    forall j | 0 <= j < |u| ensures u[j] == v[j] {
      assert Symbols(u)[j] == Symbols(v)[j];
    }
  }

  /** Equal symbol slices are equal text slices. */
  lemma SymbolSlicesEqual(chars: seq<char>, a: nat, b: nat, len: nat)
    requires a + len <= |chars| && b + len <= |chars|
    requires Symbols(chars)[a..a + len] == Symbols(chars)[b..b + len]
    ensures chars[a..a + len] == chars[b..b + len]
  {
    assert Symbols(chars)[a..a + len] == Symbols(chars[a..a + len]);
    assert Symbols(chars)[b..b + len] == Symbols(chars[b..b + len]);
    SymbolsInjective(chars[a..a + len], chars[b..b + len]);
  }

  /** The substring a node yields is found at `freq` distinct offsets of the
      text, namely the offsets its interval of the suffix array lists. */
  lemma {:induction false} ItemOccurrences(s: Suffix, k: nat)
    requires s.WellFormed() && k < s.nodeNum
    ensures NodeInBounds(s, k)
    ensures var item := ItemAt(s, k);
      var offsets := IntervalOffsets(s.suffixArray, s.leftArray[k], s.rightArray[k]);
      |offsets| == item.freq &&
      forall p :: p in offsets ==>
        0 <= p && p + |item.slice| <= |s.chars| && s.chars[p..p + |item.slice|] == item.slice
  {
    var sym := Symbols(s.chars);
    var sa := s.suffixArray;
    var left, right, depth := s.leftArray[k], s.rightArray[k], s.depthArray[k];
    assert IsNode(sym, sa, left, right, depth);
    assert NodeInBounds(s, k);
    IntervalOffsetsSize(sa, left, right);
    var offset := sa[left];
    var item := ItemAt(s, k);
    assert item.slice == s.chars[offset..offset + depth];
    forall p | p in IntervalOffsets(sa, left, right)
      ensures 0 <= p && p + depth <= |s.chars| && s.chars[p..p + depth] == item.slice
    {
      var j :| left <= j < right && sa[j] == p;
      assert sym[sa[j]..sa[j] + depth] == sym[offset..offset + depth];
      SymbolSlicesEqual(s.chars, p, offset, depth);
    }
  }

  /** The two `next` variants agree on a well-formed `i32` structure: no
      conversion fails, so each node yields its item. */
  lemma I32AgreesWithUsize(s: Suffix, k: nat)
    requires s.WellFormed() && s.WellTyped() && s.width == I32
    requires k < s.nodeNum
    ensures I32NodeSafe(s, k) && NodeInBounds(s, k)
    ensures StepI32(s, k) == Some(ItemAt(s, k))
  {
    WellFormedIterates(s);
    assert InI32(s.rightArray[k]) && InI32(s.leftArray[k]);
  }
}
