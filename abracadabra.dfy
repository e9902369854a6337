/** The documented example: the structure for "abracadabra", its arrays,
    and the pairs iterating over it yields. Both builders are given the
    outcome the library's tests record for this text. */
module Abracadabra {
  import opened Types
  import opened EsaContract
  import opened Structs
  import Lib
  import CVer

  const TEXT: seq<char> := "abracadabra"
  const SYMBOLS: seq<int> := [97, 98, 114, 97, 99, 97, 100, 97, 98, 114, 97]
  const SA: seq<nat> := [10, 7, 0, 3, 5, 8, 1, 4, 6, 9, 2]
  const LEFT: seq<nat> := [1, 0, 5, 9, 0, 0, 3, 0, 0, 0, 2]
  const RIGHT: seq<nat> := [3, 5, 7, 11, 11, 1, 0, 1, 0, 0, 0]
  const DEPTH: seq<nat> := [4, 1, 3, 2, 0, 0, 0, 0, 0, 0, 0]
  const NODE_NUM: nat := 5

  /** The pairs the iteration yields, in order. */
  const ITEMS: seq<Item> := [Item("abra", 2), Item("a", 5), Item("bra", 2), Item("ra", 2), Item("", 11)]

  /** The structure `suffix_rs("abracadabra")` returns. */
  const BUILT: Suffix := Suffix(Usize, TEXT, SA, LEFT, RIGHT, DEPTH, NODE_NUM)

  lemma SymbolsOfText()
    ensures Symbols(TEXT) == SYMBOLS
  {
    var sym := Symbols(TEXT);
    assert |sym| == |SYMBOLS|;
    forall j | 0 <= j < |sym| ensures sym[j] == SYMBOLS[j] {
      assert sym[j] == TEXT[j] as int;
    }
  }

  /** SA lists each of the offsets 0..11 once. */
  lemma SuffixArrayIsPermutation()
    ensures IsPermutation(SA, 11)
  {
    forall j, k | 0 <= j < 11 && 0 <= k < 11 && j != k ensures SA[j] != SA[k] {
      assert SA[j] == [10, 7, 0, 3, 5, 8, 1, 4, 6, 9, 2][j];
    }
  }

  /** SA lists the suffixes in non-decreasing order:
      a < abra < abracadabra < acadabra < adabra < bra < bracadabra
      < cadabra < dabra < ra < racadabra. */
  lemma SuffixArrayIsSorted()
    ensures IsSuffixArray(SYMBOLS, SA)
  {
    SuffixArrayIsPermutation();
    var s := SYMBOLS;
    assert LexLeq(s[10..], s[7..]);
    assert LexLeq(s[7..], s[0..]) by {
      assert s[7..] <= s[0..];
      PrefixLexLeq(s[7..], s[0..]);
    }
    assert LexLeq(s[0..], s[3..]);
    assert LexLeq(s[3..], s[5..]);
    assert LexLeq(s[5..], s[8..]);
    assert LexLeq(s[8..], s[1..]) by {
      assert s[8..] <= s[1..];
      PrefixLexLeq(s[8..], s[1..]);
    }
    assert LexLeq(s[1..], s[4..]);
    assert LexLeq(s[4..], s[6..]);
    assert LexLeq(s[6..], s[9..]);
    assert LexLeq(s[9..], s[2..]) by {
      assert s[9..] <= s[2..];
      PrefixLexLeq(s[9..], s[2..]);
    }
    forall j | 0 <= j < 10 ensures LexLeq(s[SA[j]..], s[SA[j + 1]..]) {
      if j == 0 {} else if j == 1 {} else if j == 2 {} else if j == 3 {} else if j == 4 {}
      else if j == 5 {} else if j == 6 {} else if j == 7 {} else if j == 8 {} else {}
    }
  }

  /** The first five entries are nodes, node 4 is the root (the whole
      array at depth 0), and no more than n nodes were reported. */
  lemma NodesCoverTheirIntervals()
    ensures NodesValid(SYMBOLS, SA, LEFT, RIGHT, DEPTH, NODE_NUM)
    ensures LEFT[4] == 0 && RIGHT[4] == |TEXT| && DEPTH[4] == 0
  {
    var s := SYMBOLS;
    assert IsNode(s, SA, 1, 3, 4) by {
      assert s[7..11] == s[0..4];
    }
    assert IsNode(s, SA, 0, 5, 1) by {
      forall j | 0 <= j < 5 ensures s[SA[j]..SA[j] + 1] == s[10..11] {
        assert s[SA[j]..SA[j] + 1] == [s[SA[j]]];
      }
    }
    assert IsNode(s, SA, 5, 7, 3) by {
      assert s[1..4] == s[8..11];
    }
    assert IsNode(s, SA, 9, 11, 2) by {
      assert s[2..4] == s[9..11];
    }
    assert IsNode(s, SA, 0, 11, 0);
    forall k | 0 <= k < NODE_NUM ensures IsNode(s, SA, LEFT[k], RIGHT[k], DEPTH[k]) {
      if k == 0 {} else if k == 1 {} else if k == 2 {} else if k == 3 {} else {}
    }
  }

  /** The recorded outcome meets the builder's contract. */
  lemma RecordedRunMeetsContract()
    ensures Lib.BuilderContract(Symbols(TEXT), Lib.Filled(SA, LEFT, RIGHT, DEPTH, NODE_NUM))
    ensures BUILT.WellFormed()
  {
    SymbolsOfText();
    SuffixArrayIsSorted();
    NodesCoverTheirIntervals();
  }

  /** Entries past `nodeNum` are leftovers, not nodes: entry 6 has its
      right bound before its left one, so the node invariant only holds
      below `nodeNum`. */
  lemma LeftoverEntriesAreNotNodes()
    ensures !IsNode(SYMBOLS, SA, LEFT[6], RIGHT[6], DEPTH[6])
    ensures !NodesValid(SYMBOLS, SA, LEFT, RIGHT, DEPTH, |LEFT|)
  {
    assert LEFT[6] == 3 && RIGHT[6] == 0;
  }

  /** Each of the five nodes yields its documented pair. */
  lemma NodeItems()
    ensures forall k :: 0 <= k < BUILT.nodeNum ==> UsizeNodeReadable(BUILT, k)
    ensures forall k :: 0 <= k < BUILT.nodeNum ==> ItemAt(BUILT, k) == ITEMS[k]
  {
    assert UsizeNodeReadable(BUILT, 0) && ItemAt(BUILT, 0) == Item(TEXT[7..11], 2);
    assert TEXT[7..11] == "abra";
    assert UsizeNodeReadable(BUILT, 1) && ItemAt(BUILT, 1) == Item(TEXT[10..11], 5);
    assert TEXT[10..11] == "a";
    assert UsizeNodeReadable(BUILT, 2) && ItemAt(BUILT, 2) == Item(TEXT[8..11], 2);
    assert TEXT[8..11] == "bra";
    assert UsizeNodeReadable(BUILT, 3) && ItemAt(BUILT, 3) == Item(TEXT[9..11], 2);
    assert TEXT[9..11] == "ra";
    assert UsizeNodeReadable(BUILT, 4) && ItemAt(BUILT, 4) == Item(TEXT[10..10], 11);
    forall k | 0 <= k < BUILT.nodeNum
      ensures UsizeNodeReadable(BUILT, k) && ItemAt(BUILT, k) == ITEMS[k]
    {
      if k == 0 {} else if k == 1 {} else if k == 2 {} else if k == 3 {} else {}
    }
  }

  /** Iterating over the structure yields the documented pairs, then ends. */
  lemma IterationYieldsDocumentedPairs()
    ensures forall k :: 0 <= k < BUILT.nodeNum ==> UsizeNodeReadable(BUILT, k)
    ensures Remaining(BUILT, 0) == ITEMS
  {
    NodeItems();
    var items := Remaining(BUILT, 0);
    assert |items| == |ITEMS|;
    forall j | 0 <= j < |items| ensures items[j] == ITEMS[j] {
      assert items[j] == ItemAt(BUILT, j);
    }
  }

  /** The library test of `esaxx_rs` on "abracadabra": five nodes and the
      recorded arrays land in the caller's buffers. */
  method TestEsaxxRs() returns (nodeNum: nat, sa: seq<int>, l: seq<int>, r: seq<int>, d: seq<int>)
    ensures nodeNum == 5 && sa == SA && l == LEFT && r == RIGHT && d == DEPTH
  {
    RecordedRunMeetsContract();
    var chars := Symbols(TEXT);
    var n := |chars|;
    var saBuf := new int[n](_ => 0);
    var lBuf := new int[n](_ => 0);
    var rBuf := new int[n](_ => 0);
    var dBuf := new int[n](_ => 0);
    var built := Lib.EsaxxRs(chars, saBuf, lBuf, rBuf, dBuf, ALPHABET_SIZE, Lib.Filled(SA, LEFT, RIGHT, DEPTH, NODE_NUM));
    nodeNum := built.value;
    sa, l, r, d := saBuf[..], lBuf[..], rBuf[..], dBuf[..];
  }

  /** The library test of `suffix_rs` on "abracadabra": the arrays, then
      the five documented pairs, then `None`. */
  method TestSuffixRs() returns (items: seq<Option<Item>>)
    ensures items == [Some(ITEMS[0]), Some(ITEMS[1]), Some(ITEMS[2]), Some(ITEMS[3]), Some(ITEMS[4]), None]
  {
    RecordedRunMeetsContract();
    var built := Lib.SuffixRs(TEXT, Lib.Filled(SA, LEFT, RIGHT, DEPTH, NODE_NUM));
    var suffix := built.value;
    assert suffix == BUILT;
    items := IterateBuilt(suffix);
  }

  /** Six `next` calls over the `usize` structure for "abracadabra". */
  method IterateBuilt(suffix: Suffix) returns (items: seq<Option<Item>>)
    requires suffix == BUILT && suffix.WellTyped()
    ensures items == [Some(ITEMS[0]), Some(ITEMS[1]), Some(ITEMS[2]), Some(ITEMS[3]), Some(ITEMS[4]), None]
  {
    NodeItems();
    var iter := new SuffixIterator(suffix);
    var a := iter.NextUsize();
    assert a == Some(ITEMS[0]) && iter.i == 1;
    var b := iter.NextUsize();
    assert b == Some(ITEMS[1]) && iter.i == 2;
    var c := iter.NextUsize();
    assert c == Some(ITEMS[2]) && iter.i == 3;
    var d := iter.NextUsize();
    assert d == Some(ITEMS[3]) && iter.i == 4;
    var e := iter.NextUsize();
    assert e == Some(ITEMS[4]) && iter.i == 5;
    var f := iter.NextUsize();
    items := [a, b, c, d, e, f];
  }

  /** The recorded outcome of the foreign routine for "abracadabra". */
  const NATIVE_RUN: CVer.NativeRun := CVer.NativeRun(0, SA, LEFT, RIGHT, DEPTH, NODE_NUM)

  /** The structure `c_ver::suffix("abracadabra")` returns. */
  const NATIVE_BUILT: Suffix := Suffix(I32, TEXT, SA, LEFT, RIGHT, DEPTH, NODE_NUM)

  /** On the `i32` structure no conversion fails: each node yields its pair. */
  lemma NativeNodeItems()
    ensures NATIVE_BUILT.WellTyped()
    ensures forall k :: 0 <= k < NODE_NUM ==> I32NodeSafe(NATIVE_BUILT, k)
    ensures forall k :: 0 <= k < NODE_NUM ==> StepI32(NATIVE_BUILT, k) == Some(ITEMS[k])
  {
    NodeItems();
    forall k | 0 <= k < NODE_NUM
      ensures I32NodeSafe(NATIVE_BUILT, k) && StepI32(NATIVE_BUILT, k) == Some(ITEMS[k])
    {
      assert UsizeNodeReadable(BUILT, k) && ItemAt(BUILT, k) == ITEMS[k];
    }
  }

  /** The library test of `c_ver::suffix` on "abracadabra": the same arrays
      and the same pairs through the `i32` iterator. */
  method TestSuffix() returns (items: seq<Option<Item>>)
    ensures items == [Some(ITEMS[0]), Some(ITEMS[1]), Some(ITEMS[2]), Some(ITEMS[3]), Some(ITEMS[4]), None]
  {
    var built := CVer.Suffix(TEXT, NATIVE_RUN);
    var suffix := built.value;
    assert suffix.suffixArray == SA && suffix.leftArray == LEFT;
    assert suffix.rightArray == RIGHT && suffix.depthArray == DEPTH;
    assert suffix == NATIVE_BUILT;
    items := IterateNative(suffix);
  }

  /** Six `next` calls over the `i32` structure for "abracadabra". */
  method IterateNative(suffix: Suffix) returns (items: seq<Option<Item>>)
    requires suffix == NATIVE_BUILT
    ensures items == [Some(ITEMS[0]), Some(ITEMS[1]), Some(ITEMS[2]), Some(ITEMS[3]), Some(ITEMS[4]), None]
  {
    NativeNodeItems();
    var iter := new SuffixIterator(suffix);
    var a := iter.NextI32();
    assert a == Some(ITEMS[0]) && iter.i == 1;
    var b := iter.NextI32();
    assert b == Some(ITEMS[1]) && iter.i == 2;
    var c := iter.NextI32();
    assert c == Some(ITEMS[2]) && iter.i == 3;
    var d := iter.NextI32();
    assert d == Some(ITEMS[3]) && iter.i == 4;
    var e := iter.NextI32();
    assert e == Some(ITEMS[4]) && iter.i == 5;
    var f := iter.NextI32();
    items := [a, b, c, d, e, f];
  }

  /** The library test of `c_ver::esaxx` on "abracadabra": buffers of the
      right length pass the guard and receive the recorded arrays. */
  method TestEsaxx() returns (nodeNum: int, sa: seq<int>, l: seq<int>, r: seq<int>, d: seq<int>)
    ensures nodeNum == 5 && sa == SA && l == LEFT && r == RIGHT && d == DEPTH
  {
    var n := |TEXT|;
    var saBuf := new int[n](_ => 0);
    var lBuf := new int[n](_ => 0);
    var rBuf := new int[n](_ => 0);
    var dBuf := new int[n](_ => 0);
    var res;
    res, nodeNum := CVer.Esaxx(TEXT, saBuf, lBuf, rBuf, dBuf, ALPHABET_SIZE, 0, NATIVE_RUN);
    sa, l, r, d := saBuf[..], lBuf[..], rBuf[..], dBuf[..];
  }
}
