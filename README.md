# esaxx-rs, output side, in Dafny

This project models the output side of the esaxx-rs enhanced-suffix-array library. An enhanced suffix array has two parts:

- a suffix array, which lists every offset of the text with the suffixes in lexicographic order;
- a list of nodes. Each node is an interval `[left, right)` of the suffix array at a string depth `depth`. Every suffix the interval lists starts with the same `depth` symbols.

The library hands this structure to its callers as a `Suffix` value. The `SuffixIterator` over it yields, for each node, the substring the node stands for and its frequency `right - left`.

The model covers four things:

- `Suffix` and `SuffixIterator`, in both element widths: `i32` and `usize` (`structs.dfy`);
- the contract the unseen builder's output is held to (`esa_contract.dfy`);
- the self-contained constructor `suffix_rs` (`lib.dfy`);
- the native backend's `esaxx` length guard and its constructor `suffix` (`c_ver.dfy`).

`abracadabra.dfy` replays the library's "abracadabra" tests against the model.

Modules:

- `Types`: the two errors `InvalidLength` and `Internal`, `Option`, `Result`, the integer ranges, the alphabet bound `0x110000`, and the char-to-code-point mapping.
- `EsaContract`: lexicographic order, permutation, suffix array, node and "enhanced suffix array" predicates.
- `Structs`: the `Suffix` datatype, the `SuffixIterator` class with its cursor `i`, and the lemmas about iteration.
- `Lib`: `EsaxxRs`, a stand-in for the in-crate builder, and `SuffixRs`.
- `CVer`: `EsaxxInt32`, a stand-in for the foreign routine, plus `Esaxx` and `Suffix`.
- `Abracadabra`: the recorded vectors and the tests.

The builders' algorithms are not in the source files this model covers. These are the suffix sorter and interval sweep in modules `esa` and `sais`, and the C++ routine `esaxx_int32`. Each builder's outcome is therefore a parameter:

- `Lib.BuildRun` for the in-crate builder: the arrays it writes and the node count it returns, or its error. `SuffixRs` requires this outcome to meet `Lib.BuilderContract`. Under that contract the suffix array is a sorted permutation of `0..n`, `node_num <= n`, and every entry below `node_num` is a node.
- `CVer.NativeRun` for the foreign routine: the values it writes, the node count it stores and the status it returns. Nothing is assumed about the values beyond their `i32`/`u32` types.

## Model

| member | source | states |
|---|---|---|
| `Types.Symbols` | src/lib.rs:67-69 | The symbol sequence has one entry per char. Each entry is that char's code point, which lies below the alphabet bound 0x110000. |
| `Structs.SuffixIterator.constructor` | src/structs.rs:17-20 | `iter()` gives a cursor at 0 over the same, unchanged structure. |
| `Structs.SuffixIterator.NextUsize` | src/structs.rs:43-60 | `next` returns `None` exactly when the cursor equals `node_num`, and then leaves the cursor alone. Otherwise it returns node i's slice `chars[SA[left[i]]..SA[left[i]]+depth[i]]` with frequency `right[i]-left[i]` (at most u32::MAX) and advances the cursor by exactly 1. The remaining items before the call are the returned one followed by the remaining items after it. Reading the node must not panic (a requires). |
| `Structs.SuffixIterator.NextI32` | src/structs.rs:23-40 | `next` returns `StepI32` of the old cursor: `None` at `node_num`, and `None` when left, offset, depth or frequency does not convert. In both cases the cursor stays put, so the following call returns `None` again. Otherwise it returns the item and advances by 1. |
| `Structs.ItemAt` | src/structs.rs:51-58 | The slice yielded for node k has length `depth[k]`, and the frequency is non-negative. |
| `Structs.Remaining` | src/structs.rs:46-60 | From cursor `from`, iteration yields exactly `node_num - from` items. The j-th one is node `from + j`'s item, so no node is visited twice. |
| `Structs.WellFormedIterates` | src/structs.rs:51-56 | On a structure meeting the builder contract, every node below `node_num` is in bounds. The full iteration yields `node_num` items. If n fits in u32, no `usize` read panics. |
| `Structs.ItemOccurrences` | src/structs.rs:51-58 | On a structure meeting the builder contract, node k's interval lists `freq` distinct offsets. The yielded slice occurs in the text at each of them. |
| `Structs.I32AgreesWithUsize` | src/structs.rs:23-60 | On a well-formed, well-typed `i32` structure, the `i32` `next` never fails a conversion. It yields the same item as the `usize` variant. |
| `EsaContract.PrefixLexLeq` | src/lib.rs:115 | A prefix of a suffix sorts no later than that suffix. This is the step that orders "abra" before "abracadabra". |
| `EsaContract.IntervalOffsetsSize` | src/structs.rs:54 | An interval `[left, right)` of a permutation lists `right - left` distinct offsets, so the frequency counts distinct occurrences. |
| `Lib.EsaxxRs` | src/lib.rs:75-82 | The builder call writes exactly its outcome into the four caller buffers and returns the node count, or returns its error. |
| `Lib.SuffixRs` | src/lib.rs:66-91 | A builder error comes back unchanged. On success the `usize` structure holds the original text and exactly the builder-filled arrays and node count. Each array has length n, and the structure is well typed and well formed. The alphabet bound 0x110000 is above every symbol. |
| `CVer.EsaxxInt32` | src/c_ver.rs:5-16 | The foreign routine needs n readable symbols below k and n writable entries per buffer. It overwrites the first `n` entries with its outcome and returns its status and node count. |
| `CVer.Esaxx` | src/c_ver.rs:20-49 | `InvalidLength` is returned exactly when some buffer's length differs from n. In that case no buffer and no node count is written. Otherwise status 0 gives `Ok(())` and any other status gives `Internal`. The buffers then hold what the routine wrote for `n as u32` entries, and the node count is the routine's. |
| `CVer.Suffix` | src/c_ver.rs:68-94 | The buffers are sized to n, so the result is never `InvalidLength`. A non-zero status gives `Internal`. On success the `i32` structure holds the text, the routine's values over zeroed buffers, and the u32 node count unchanged. |
| `Abracadabra.SymbolsOfText` | src/lib.rs:100 | "abracadabra" maps to the code points 97, 98, 114, ... |
| `Abracadabra.SuffixArrayIsPermutation` | src/lib.rs:115 | `[10,7,0,3,5,8,1,4,6,9,2]` is a permutation of 0..11. |
| `Abracadabra.SuffixArrayIsSorted` | src/lib.rs:115 | The recorded suffix array lists the suffixes of "abracadabra" in non-decreasing lexicographic order. |
| `Abracadabra.NodesCoverTheirIntervals` | src/lib.rs:114-118 | Each of the 5 recorded nodes' suffixes share a prefix of its depth. Node 4 is the root: left 0, right 11, depth 0. |
| `Abracadabra.RecordedRunMeetsContract` | src/lib.rs:108-118 | The recorded arrays and `node_num = 5` meet the builder contract. |
| `Abracadabra.LeftoverEntriesAreNotNodes` | src/lib.rs:116-117 | Entry 6 (`left = 3`, `right = 0`) is not a node, so the node invariant holds only below `node_num`. |
| `Abracadabra.NodeItems` | src/lib.rs:152-156 | Nodes 0..4 yield ("abra",2), ("a",5), ("bra",2), ("ra",2), ("",11). |
| `Abracadabra.IterationYieldsDocumentedPairs` | src/lib.rs:150-157 | The iteration over the recorded structure is exactly those five pairs. |
| `Abracadabra.TestEsaxxRs` | src/lib.rs:98-119 | Calling the builder on length-11 buffers returns 5 and leaves the recorded arrays in the buffers. |
| `Abracadabra.TestSuffixRs` | src/lib.rs:142-158 | `suffix_rs("abracadabra")` followed by six `next` calls yields the five pairs and then `None`. |
| `Abracadabra.IterateBuilt` | src/lib.rs:150-157 | Six `next` calls on the `usize` structure yield the five pairs and then `None`. |
| `Abracadabra.NativeNodeItems` | src/c_ver.rs:169-176 | On the `i32` structure every node converts and yields the same five pairs. |
| `Abracadabra.TestEsaxx` | src/c_ver.rs:102-128 | `esaxx` on length-11 buffers passes the guard and leaves the recorded arrays and node count. |
| `Abracadabra.TestSuffix` | src/c_ver.rs:161-177 | `c_ver::suffix("abracadabra")` has the recorded arrays and iterates to the five pairs and then `None`. |
| `Abracadabra.IterateNative` | src/c_ver.rs:169-176 | Six `next` calls on the `i32` structure yield the five pairs and then `None`. |

## Left out

- The suffix sorter and the LCP/interval sweep (modules `esa` and `sais`) are not part of this model. Their output enters as `Lib.BuildRun`, held to `Lib.BuilderContract`. The contract does not require nodes to be maximal or the root to be present, and the 574-character regression test (`node_num = 260`) needs the real algorithm, so neither is modelled.
- The foreign routine `esaxx_int32` and its pointer casts are not part of this model. Its outcome enters as `CVer.NativeRun`, with arbitrary values of the right types.
- UTF-8 decoding in `str::chars`: the text is taken as a sequence of Unicode scalar values (Dafny `char`).
- Generic element width: elements are `int`. The `i32` and `usize` ranges are the predicate `Suffix.WellTyped`, `usize` is unbounded above, and the `u32` frequency bound is explicit.
- `Structs.SuffixIterator.NextI32`: an `i32` subtraction `right - left` that overflows is treated as a panic and excluded by the requires. Debug builds panic there; release builds wrap, and the wrap is not modelled.
- `Structs.SuffixIterator.NextUsize`: `offset + len` is not checked for usize overflow, because both values are bounded by the text length.
- Panics (out-of-range index, usize underflow, a failed `unwrap`) are preconditions, not modelled outcomes.
- Feature flags (`cc`, `cpp`), `println!` in tests, and the module documentation's performance remarks are left out.
- Rust's lifetimes are not modelled. `Suffix` is an immutable value, so the iterator holds a copy, which is indistinguishable from a borrow.
