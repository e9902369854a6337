/** The native backend: a length guard in front of a foreign routine that
    fills four `i32` buffers and a `u32` node count, and the constructor that
    allocates those buffers. The foreign routine `esaxx_int32` is not part of
    this model; what it writes and the status it returns are the parameter
    `NativeRun`. */
module CVer {
  import opened Types
  import S = Structs

  /** What one call of the foreign routine writes, from index 0 on, into each
      buffer, what it stores as the node count and the status it returns. */
  datatype NativeRun = NativeRun(
    status: int,
    suffixArray: seq<int>,
    leftArray: seq<int>,
    rightArray: seq<int>,
    depthArray: seq<int>,
    nodeNum: int)
  {
    /** The values fit the foreign signature: `i32` elements and status, a `u32` count. */
    predicate WellTyped() {
      InI32(status) && InU32(nodeNum) &&
      (forall j :: 0 <= j < |suffixArray| ==> InI32(suffixArray[j])) &&
      (forall j :: 0 <= j < |leftArray| ==> InI32(leftArray[j])) &&
      (forall j :: 0 <= j < |rightArray| ==> InI32(rightArray[j])) &&
      (forall j :: 0 <= j < |depthArray| ==> InI32(depthArray[j]))
    }
  }

  /** A buffer after the foreign routine wrote `vals` into its first
      `count` entries. */
  function Overwrite(buf: seq<int>, vals: seq<int>, count: int): (r: seq<int>)
    ensures |r| == |buf|
    ensures forall j :: 0 <= j < |buf| ==> r[j] == if j < count && j < |vals| then vals[j] else buf[j]
  {
    seq(|buf|, j requires 0 <= j < |buf| => if j < count && j < |vals| then vals[j] else buf[j])
  }

  function Zeros(n: nat): (r: seq<int>)
    ensures |r| == n && forall j :: 0 <= j < n ==> r[j] == 0
  {
    seq(n, _ => 0)
  }

  /** The foreign call. Through raw pointers it reads `n` symbols, which
      must lie below the alphabet bound `k`, and writes `n` entries of each
      buffer, so each buffer must hold at least `n`. */
  method EsaxxInt32(t: seq<int>, sa: array<int>, l: array<int>, r: array<int>, d: array<int>,
                    n: int, k: int, run: NativeRun) returns (status: int, nodeNum: int)
    requires 0 <= n <= |t| && n <= sa.Length && n <= l.Length && n <= r.Length && n <= d.Length
    requires sa != l && sa != r && sa != d && l != r && l != d && r != d
    requires forall j :: 0 <= j < n ==> 0 <= t[j] < k
    modifies sa, l, r, d
    ensures sa[..] == Overwrite(old(sa[..]), run.suffixArray, n)
    ensures l[..] == Overwrite(old(l[..]), run.leftArray, n)
    ensures r[..] == Overwrite(old(r[..]), run.rightArray, n)
    ensures d[..] == Overwrite(old(d[..]), run.depthArray, n)
    ensures status == run.status && nodeNum == run.nodeNum
  {
    forall j | 0 <= j < n && j < |run.suffixArray| { sa[j] := run.suffixArray[j]; }
    forall j | 0 <= j < n && j < |run.leftArray| { l[j] := run.leftArray[j]; }
    forall j | 0 <= j < n && j < |run.rightArray| { r[j] := run.rightArray[j]; }
    forall j | 0 <= j < n && j < |run.depthArray| { d[j] := run.depthArray[j]; }
    status, nodeNum := run.status, run.nodeNum;
  }

  /** `esaxx`: refuses buffers whose length is not the text's before touching
      anything, otherwise calls the foreign routine with `n as u32` and maps
      a non-zero status to `Internal`. `nodeNum` is the `&mut u32` argument:
      its value before the call comes in, its value after goes out. */
  method Esaxx(chars: seq<char>, sa: array<int>, l: array<int>, r: array<int>, d: array<int>,
               alphabetSize: int, nodeNum: int, run: NativeRun) returns (res: Result<(), SuffixError>, nodeNumOut: int)
    requires sa != l && sa != r && sa != d && l != r && l != d && r != d
    requires forall j :: 0 <= j < |chars| ==> chars[j] as int < alphabetSize
    modifies sa, l, r, d
    ensures res == Err(InvalidLength) <==>
              (sa.Length != |chars| || l.Length != |chars| || r.Length != |chars| || d.Length != |chars|)
    ensures res == Err(InvalidLength) ==>
              && unchanged(sa) && unchanged(l) && unchanged(r) && unchanged(d)
              && nodeNumOut == nodeNum
    ensures res != Err(InvalidLength) ==>
              && (res.Ok? <==> run.status == 0)
              && (res.Err? ==> res.error == Internal)
              && sa[..] == Overwrite(old(sa[..]), run.suffixArray, |chars| % U32_MODULUS)
              && l[..] == Overwrite(old(l[..]), run.leftArray, |chars| % U32_MODULUS)
              && r[..] == Overwrite(old(r[..]), run.rightArray, |chars| % U32_MODULUS)
              && d[..] == Overwrite(old(d[..]), run.depthArray, |chars| % U32_MODULUS)
              && nodeNumOut == run.nodeNum
  {
    var n := |chars|;
    if sa.Length != n || l.Length != n || r.Length != n || d.Length != n {
      return Err(InvalidLength), nodeNum;
    }
    var err;
    err, nodeNumOut := EsaxxInt32(Symbols(chars), sa, l, r, d, n % U32_MODULUS, alphabetSize, run);
    if err != 0 {
      return Err(Internal), nodeNumOut;
    }
    res := Ok(());
  }

  /** `c_ver::suffix`: builds the `i32` structure for `text` through the
      foreign routine. Its buffers are sized to the text, so the length guard
      never fires; a failing status becomes `Internal`; on success the
      structure owns the text, what the routine wrote over the zeroed
      buffers, and the node count widened to `usize` unchanged. */
  method Suffix(text: seq<char>, run: NativeRun) returns (res: Result<S.Suffix, SuffixError>)
    requires run.WellTyped()
    ensures res != Err(InvalidLength)
    ensures run.status != 0 ==> res == Err(Internal)
    ensures run.status == 0 ==>
              var n := |text|;
              var written := n % U32_MODULUS;
              res == Ok(S.Suffix(I32, text,
                                 Overwrite(Zeros(n), run.suffixArray, written),
                                 Overwrite(Zeros(n), run.leftArray, written),
                                 Overwrite(Zeros(n), run.rightArray, written),
                                 Overwrite(Zeros(n), run.depthArray, written),
                                 run.nodeNum))
    ensures res.Ok? ==> res.value.WellTyped() && res.value.chars == text
  {
    var chars := text;
    var n := |chars|;
    var sa := new int[n](_ => 0);
    var l := new int[n](_ => 0);
    var r := new int[n](_ => 0);
    var d := new int[n](_ => 0);
    var nodeNum := 0;
    var alphabetSize := ALPHABET_SIZE;
    assert sa[..] == Zeros(n) && l[..] == Zeros(n) && r[..] == Zeros(n) && d[..] == Zeros(n);
    var status;
    status, nodeNum := Esaxx(chars, sa, l, r, d, alphabetSize, nodeNum, run);
    if status.Err? {
      return Err(status.error);
    }
    res := Ok(S.Suffix(I32, chars, sa[..], l[..], r[..], d[..], nodeNum));
  }
}
