/** The self-contained constructor: text to symbols, four zeroed buffers of
    length n, the builder, and the packaged structure or the builder's error. */
module Lib {
  import opened Types
  import opened EsaContract
  import opened Structs

  /** What one run of the in-crate builder `esaxx_rs` does: either it fills
      the four buffers with these values and returns the node count, or it
      returns an error. The builder's algorithm (modules `esa` and `sais`) is
      not part of this model; its outcome is this parameter. */
  datatype BuildRun =
    | Filled(suffixArray: seq<nat>, leftArray: seq<nat>, rightArray: seq<nat>, depthArray: seq<nat>, nodeNum: nat)
    | Failed(error: SuffixError)

  /** The contract the builder is held to: a successful run produces an
      enhanced suffix array of the symbols it was given. */
  predicate BuilderContract(symbols: seq<int>, run: BuildRun) {
    run.Filled? ==>
      IsEnhancedSuffixArray(symbols, run.suffixArray, run.leftArray, run.rightArray, run.depthArray, run.nodeNum)
  }

  /** The builder call: it writes the run's values into the caller's
      buffers, which the caller lends exclusively and sizes to n. */
  method EsaxxRs(symbols: seq<int>, sa: array<int>, l: array<int>, r: array<int>, d: array<int>,
                 alphabetSize: int, run: BuildRun) returns (res: Result<nat, SuffixError>)
    requires sa.Length == |symbols| && l.Length == |symbols| && r.Length == |symbols| && d.Length == |symbols|
    requires sa != l && sa != r && sa != d && l != r && l != d && r != d
    requires forall j :: 0 <= j < |symbols| ==> 0 <= symbols[j] < alphabetSize
    requires BuilderContract(symbols, run)
    modifies sa, l, r, d
    ensures run.Failed? ==> res == Err(run.error)
    ensures run.Filled? ==>
              && res == Ok(run.nodeNum)
              && sa[..] == run.suffixArray && l[..] == run.leftArray
              && r[..] == run.rightArray && d[..] == run.depthArray
  {
    if run.Failed? {
      return Err(run.error);
    }
    forall j | 0 <= j < sa.Length { sa[j] := run.suffixArray[j]; }
    forall j | 0 <= j < l.Length { l[j] := run.leftArray[j]; }
    forall j | 0 <= j < r.Length { r[j] := run.rightArray[j]; }
    forall j | 0 <= j < d.Length { d[j] := run.depthArray[j]; }
    res := Ok(run.nodeNum);
  }

  /** `suffix_rs`: builds the `usize` structure for `text`. The builder's
      error comes back unchanged; on success the structure owns the text and
      exactly what the builder wrote, and is an enhanced suffix array. */
  method SuffixRs(text: seq<char>, run: BuildRun) returns (res: Result<Suffix, SuffixError>)
    requires BuilderContract(Symbols(text), run)
    ensures run.Failed? ==> res == Err(run.error)
    ensures run.Filled? ==> res == Ok(Suffix(Usize, text, run.suffixArray, run.leftArray,
                                             run.rightArray, run.depthArray, run.nodeNum))
    ensures res.Ok? ==>
      var s := res.value;
      s.WellTyped() && s.WellFormed() && s.chars == text &&
      |s.suffixArray| == |text| && |s.leftArray| == |text| &&
      |s.rightArray| == |text| && |s.depthArray| == |text|
  {
    var chars := text;
    var n := |chars|;
    var u32Chars := Symbols(chars);
    var suffixArray := new int[n](_ => 0);
    var leftArray := new int[n](_ => 0);
    var rightArray := new int[n](_ => 0);
    var depthArray := new int[n](_ => 0);
    var alphabetSize := ALPHABET_SIZE;
    var built := EsaxxRs(u32Chars, suffixArray, leftArray, rightArray, depthArray, alphabetSize, run);
    if built.Err? {
      return Err(built.error);
    }
    res := Ok(Suffix(Usize, chars, suffixArray[..], leftArray[..], rightArray[..], depthArray[..], built.value));
  }
}
