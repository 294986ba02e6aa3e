# Sparse Merkle sum tree: sum proofs and the sum codec

This project models the core of a sparse Merkle sum tree library. The model covers:

- **Sum proofs** (`sum_proofs.dfy`, module `SumProofs`):
  - the structural sanity checks on untrusted proofs and compact proofs;
  - the verifier, which folds the sidenodes from the leaf up to the root along the key's path bits and records every recomputed node;
  - the compaction of a proof into surviving sidenodes plus a placeholder bitmask, and its decompaction.
- **The sum wrapper** (`smst.dfy`, module `Smst`). It stores each value in an inner sparse Merkle tree as `digest ‖ 8-byte big-endian sum`. It decodes that layout in `Get`, and reads the tree's total from the trailing 8 bytes of the root.
- **Shared vocabulary** (`utils.dfy`, module `Utils`):
  - bytes, `uint64`, results and errors;
  - the most-significant-bit-first path bit helpers and the set-bit count;
  - the fixed-width big-endian codec.

The hash primitives are fields of a `TreeSpec` value, and nothing is assumed about what they compute. The one exception is the width of the path hash (`TreeSpec.Valid`). So every property below holds whichever hash functions are plugged in.

The fold, compaction and decompaction loops are methods with `while` loops. The sanity check's loop over sidenode sizes is a quantifier in the predicate. Each loop method is proved equal to a function that specifies it:

- `VerifySumProofWithUpdates` and `RecomputeRoot` are proved equal to `Verified` and `Climb`;
- `CompactSumProof` and `CompactSideNodes` equal `Compacted`, `PlaceholderMask` and `Survivors`;
- `DecompactSumProof` and `ExpandSideNodes` equal `Decompacted` and `Expand`.

The lemmas are proved about those functions:

- the verifier's accept/reject characterisation;
- the bitmask and survivor properties of compaction;
- `Decompact(Compact(p)) == p`;
- the compact verifier agreeing with the plain one.

The wrapper's inner tree is a class field holding its key → stored-bytes map. `Update` and `Delete` reassign that field.

Sizes follow the code:

- a sidenode is `hashSize + 16` bytes;
- the verifier's sum argument is a 16-byte field (8 zero bytes, then the big-endian `uint64`);
- the wrapper's sum suffix is `sumSize` = 8 bytes.

## Model

| member | source | states |
|---|---|---|
| Utils.GetPathBit | sum_proofs.go:156 | bit `position` of `data` (also read at sum_proofs.go line 221), with the most significant bit of byte 0 first; it is 0 (`left`) or 1 (`right`) |
| Utils.GetPathBitMeans | sum_proofs.go:221 | path bit `position` is `(data[position/8] >> (7 - position%8)) & 1`, the most significant bit of each byte first |
| Utils.BitIsShiftedRemainder | sum_proofs.go:156 | bit `e` of a byte is the remainder of the byte shifted right by `e`, taken modulo 2 |
| Utils.CountSetBits | sum_proofs.go:94 | the number of set bits among all `8*len(data)` bits, never more than `8*len(data)` |
| Utils.CountSetBitsMeans | sum_proofs.go:94 | the count is 0 exactly when no bit of `data` is set, and a set bit anywhere, padding included, is counted |
| Utils.SetBitsBeforeMonotone | sum_proofs.go:94 | counting more bits never gives a smaller count |
| Utils.SetPathBit | sum_proofs.go:197 | setting bit `i` of the mask leaves the length unchanged, makes bit `i` a 1 and leaves every other bit as it was (bits counted MSB-first) |
| Utils.SetPathBitInPlace | sum_proofs.go:197 | the in-place update of the mask buffer leaves it equal to `SetPathBit` of its old contents |
| Utils.PutUint64 | smst.go:69-70 | the encoding of a `uint64` is 8 bytes whose big-endian value is that number |
| Utils.Uint64 | smst.go:60-62 | decoding 8 bytes gives the number whose encoding is exactly those bytes |
| Utils.Uint64RoundTrip | smst.go:60-70 | big-endian encoding and decoding of a `uint64` are mutual inverses, in both directions |
| Utils.FromBigEndianOfBigEndian | smst.go:69-70 | decoding a `width`-byte big-endian encoding gives back every value below `256^width` |
| Utils.BigEndianOfFromBigEndian | smst.go:60-62 | re-encoding the value of any byte string at its own width gives back that string |
| SumProofs.SanityCheck | sum_proofs.go:25-52 | a proof that passes has at most `8*PathSize` sidenodes, each of `hashSize+16` bytes. It has leaf data of at least `len(leafPrefix)+PathSize` bytes, or none. If it has sibling data and sidenodes, the first sidenode equals the serialized sibling |
| SumProofs.CompactSanityCheckAsWritten | sum_proofs.go:78-99 | the compact check as the code writes it, comparing the supplied-sidenode count with the set bits of the whole mask. A compact proof that passes has `0 <= NumSideNodes <= 8*PathSize`, and its mask has a bit for every sidenode position |
| SumProofs.CompactSanityCheck | sum_proofs.go:78-99 | the corrected compact check: the as-written check plus a guard that the clear bits among the first `NumSideNodes` do not outnumber the supplied sidenodes. A proof that passes also passes the as-written check, has `NumSideNodes` in range, a bit for every position, and a supplied sidenode for every clear bit that decompaction reads |
| SumProofs.GuardMeansCleanPadding | sum_proofs.go:90-94 | on a proof the as-written check accepts, the corrected check accepts it exactly when the whole-mask count equals the count over the first `NumSideNodes` bits, that is, when no padding bit is set |
| SumProofs.GuardFailureOverruns | sum_proofs.go:218-226 | a proof the as-written check accepts but the corrected check rejects does overrun: the loop reaches a clear bit `i` whose `position`, the clear bits before `i`, is at least `len(SideNodes)` |
| SumProofs.ClearBitPastSupply | sum_proofs.go:218-226 | more clear bits among the first `k` than `m` means some clear bit `i < k` has at least `m` clear bits before it |
| SumProofs.SourceRejectionsKept | sum_proofs.go:94 | proofs the as-written check rejects stay rejected: `BitMask = [0x81]` with no sidenodes, and `BitMask = [0x01]` with one sidenode |
| SumProofs.CompactChecksAgreeOnCleanMasks | sum_proofs.go:90-94 | on a mask whose padding bits are clear, the as-written and the corrected compact checks give the same answer |
| SumProofs.AsWrittenCompactCheckAdmitsOverrun | sum_proofs.go:94 | `NumSideNodes = 1`, `BitMask = [0x01]`, no sidenodes passes the as-written check. Bit 0 is clear, so decompaction would read a missing sidenode. The corrected check rejects it |
| SumProofs.CopyInto | sum_proofs.go:153-154 | `copy(make([]byte, n), src)` yields `n` bytes: `src` cut to length, or padded with zeros |
| SumProofs.LeafStart | sum_proofs.go:123-148 | see the notes below the table |
| SumProofs.Climb | sum_proofs.go:151-171 | a successful fold of `k` steps records exactly `k` updates and holds the hash of the last one (the start if `k = 0`) |
| SumProofs.ClimbIsChain | sum_proofs.go:151-171 | the fold yields `(h, ups)` exactly when each update combines, with `digestSumNode`, the node before it and sidenode `i`. The orientation is taken from path bit `len-1-i`, `left` meaning the accumulator is the left argument. `h` is the node reached |
| SumProofs.Verified | sum_proofs.go:116-174 | a proof failing the sanity check gives `ErrBadProof` |
| SumProofs.VerifiedMeans | sum_proofs.go:116-174 | see the notes below the table |
| SumProofs.VerifiedUpdateCount | sum_proofs.go:123-171 | a successful verification returns one update per sidenode. It returns one more, except for a non-membership proof without leaf data |
| SumProofs.NonMembershipOnOccupiedPath | sum_proofs.go:127-135 | a non-membership claim whose leaf data parses to the key's own path is rejected with `ErrBadProof` |
| SumProofs.TooManySideNodes | sum_proofs.go:117-121 | a proof with `8*PathSize+1` sidenodes is rejected with `ErrBadProof`, whatever the hash primitives compute |
| SumProofs.VerifySumProofWithUpdates | sum_proofs.go:116-174 | the method returns exactly `Verified`: the sanity check first, then the starting leaf, then the fold loop (in `RecomputeRoot`), and finally whether the node reached equals `root` |
| SumProofs.RecomputeRoot | sum_proofs.go:150-171 | the fold loop returns exactly `Climb` over all sidenodes. A failing `digestSumNode` stops it with that error |
| SumProofs.ClimbFailureStays | sum_proofs.go:156-164 | once a fold step fails, the whole fold fails with the same error |
| SumProofs.SumField | sum_proofs.go:103-108 | the sum field is 16 bytes: 8 zero bytes followed by the big-endian `uint64`. Its big-endian value is the sum |
| SumProofs.Verdict | sum_proofs.go:102-114 | a proof failing the sanity check gives `ErrBadProof` |
| SumProofs.VerifySumProof | sum_proofs.go:102-114 | the method returns the verdict of `verifySumProofWithUpdates` on the 16-byte sum field, dropping the updates |
| SumProofs.PlaceholderMask | sum_proofs.go:191-197 | the compaction mask has `ceil(n/8)` bytes, enough bits for every sidenode |
| SumProofs.PlaceholderMaskBits | sum_proofs.go:193-197 | bit `q` of the mask after `k` steps is set exactly when `q < k` and sidenode `q` is the placeholder |
| SumProofs.Survivors | sum_proofs.go:192-200 | the kept sidenodes are never the placeholder and are at most as many as the sidenodes |
| SumProofs.SurvivorsOfPrefix | sum_proofs.go:193-200 | the sidenodes kept from a prefix are a prefix of the sidenodes kept from the whole list |
| SumProofs.MaskCountsPlaceholders | sum_proofs.go:193-200 | among the first `k` sidenodes, the set mask bits plus the kept sidenodes number exactly `k` |
| SumProofs.Compacted | sum_proofs.go:186-210 | a compact proof records `NumSideNodes = len(SideNodes)` and a mask of `ceil(n/8)` bytes. Its leaf data and sibling data are unchanged |
| SumProofs.MaskCountsAllPlaceholders | sum_proofs.go:191-200 | over the whole compaction mask, padding included, the set bits plus the kept sidenodes number exactly the sidenodes |
| SumProofs.CompactedIsSane | sum_proofs.go:186-210 | the compacted mask has bit `i` set exactly when sidenode `i` is the placeholder, and clear padding bits. The result passes both compact sanity checks |
| SumProofs.CompactStep | sum_proofs.go:194-200 | one compaction step sets bit `i` for a placeholder and keeps any other sidenode |
| SumProofs.CompactSumProof | sum_proofs.go:186-210 | the method rejects a proof failing the sanity check with `ErrBadProof`. Otherwise it returns exactly `Compacted` |
| SumProofs.CompactSideNodes | sum_proofs.go:191-200 | the compaction loop fills a fresh mask buffer equal to `PlaceholderMask` over all sidenodes, and keeps exactly `Survivors`, in order |
| SumProofs.Expand | sum_proofs.go:218-227 | the first `k` decompacted sidenodes are `k` entries |
| SumProofs.Decompacted | sum_proofs.go:213-234 | the decompacted proof has exactly `NumSideNodes` sidenodes and keeps leaf data and sibling data |
| SumProofs.ExpandAt | sum_proofs.go:220-226 | entry `i` of a decompaction is the placeholder at a set bit; at a clear bit it is supplied sidenode `i - SetBitsBefore(mask, i)`, which exists |
| SumProofs.DecompactStep | sum_proofs.go:220-226 | see the notes below the table |
| SumProofs.SetBitsBeforeGrowth | sum_proofs.go:220-226 | between positions `j` and `k` at most `k - j` bits are set |
| SumProofs.ExpandSideNodes | sum_proofs.go:218-227 | the decompaction loop fills the fresh array with exactly `Expand` of the mask and the supplied sidenodes |
| SumProofs.DecompactSumProof | sum_proofs.go:213-234 | the method rejects a proof failing the compact check with `ErrBadProof`. Otherwise it returns exactly `Decompacted` |
| SumProofs.SurvivorAt | sum_proofs.go:199-222 | a non-placeholder sidenode `k` is the kept sidenode numbered by the kept sidenodes before it |
| SumProofs.DecompactedEntry | sum_proofs.go:196-224 | in a compacted list, bit `j` is set exactly when sidenode `j` is the placeholder. At a clear bit, the kept sidenode that decompaction reads is sidenode `j` |
| SumProofs.ClearBitsBound | sum_proofs.go:191-200 | the clear bits among the first `k` of the compaction mask never outnumber the kept sidenodes |
| SumProofs.ExpandRebuilds | sum_proofs.go:218-227 | decompaction rebuilds any sidenode list from a mask and a kept list that agree with it entry by entry |
| SumProofs.ExpandSurvivors | sum_proofs.go:186-227 | decompacting the compaction of a sidenode list gives back the list |
| SumProofs.DecompactAfterCompact | sum_proofs.go:186-234 | for every proof that passes the sanity check, its compaction passes the compact check and decompacts back to the same proof |
| SumProofs.CompactVerdict | sum_proofs.go:177-183 | a compact proof failing the compact check gives `ErrBadProof` |
| SumProofs.VerifyCompactSumProof | sum_proofs.go:177-183 | the method decompacts and then verifies: it returns exactly `CompactVerdict` |
| SumProofs.CompactVerdictAgrees | sum_proofs.go:177-210 | verifying the compaction of a sane proof gives the same verdict as verifying the proof itself |
| Smst.StoredValue | smst.go:67-73 | the stored value is the digest length plus `sumSize` bytes, and never the default value |
| Smst.TrailingSum | smst.go:60-62 | the sum read is the number whose 8-byte big-endian encoding is the trailing `sumSize` bytes |
| Smst.SplitStored | smst.go:60-63 | splitting a stored value into its leading bytes and trailing sum is undone by `StoredValue`: re-encoding the parts gives the stored bytes |
| Smst.SplitStoredValue | smst.go:60-73 | splitting what `Update` stores gives back the digest and the sum |
| Smst.TrailingSumOfStored | smst.go:91-101 | a root laid out as `digest ‖ sum` yields that sum |
| Smst.DecodeGet | smst.go:52-64 | an inner error propagates unchanged with nothing decoded. The default value decodes to `(defaultValue, 0)`. Any other value decodes to a digest and sum whose encoding is that value |
| Smst.SMST.Get | smst.go:52-64 | an inner failure is returned unchanged. An absent key gives `(defaultValue, 0)`. A present key gives the digest and sum whose encoding is the stored value |
| Smst.SMST.Update | smst.go:67-73 | see the notes below the table |
| Smst.SMST.Delete | smst.go:76-78 | see the notes below the table |
| Smst.SMST.Root | smst.go:91-93 | the inner tree's root for the current map, unchanged |
| Smst.SMST.Sum | smst.go:96-101 | the total is the number whose big-endian encoding is the root's trailing `sumSize` bytes |
| Smst.GetAfterStore | smst.go:52-73 | reading a key after storing `digest ‖ sum` there gives back `(digest, sum)` |

Notes on the longer rows:

- **SumProofs.LeafStart**:
  - the starting leaf fails exactly when a non-membership claim carries leaf data whose parsed path is the key's own path, and that failure is `ErrBadProof`;
  - without leaf data the start is `sumPlaceholder` with no update;
  - otherwise there is exactly one update, whose hash is the start.
- **SumProofs.VerifiedMeans**: verification returns `(ok, ups)` exactly when all of these hold:
  - the proof is sane;
  - the start is admissible;
  - `ups` is the start's update followed by a chain of one fold step per sidenode;
  - `ok` says whether the fold ends at `root`.
- **SumProofs.DecompactStep**:
  - at a set bit, entry `i` of the decompacted list is the placeholder;
  - at a clear bit, the `position` counter is below the number of supplied sidenodes, and entry `i` is that sidenode;
  - `position` always counts the clear bits so far.
- **Smst.SMST.Update**:
  - it stores `digestValue(value) ‖ BE8(sum)` at the key and changes nothing else;
  - `Get` then returns `(digestValue(value), sum)`;
  - an inner failure is returned unchanged and leaves the map as it was.
- **Smst.SMST.Delete**:
  - it removes the key from the map and changes nothing else;
  - `Get` then returns `(defaultValue, 0)`;
  - an inner failure is returned unchanged and leaves the map as it was.

## Left out

- Tree primitives are fields of `TreeSpec`, defined outside the files modelled here:
  - the hashers `digestValue`, `digestSumLeaf`, `digestSumNode` and the path hasher;
  - the serializer `hashSumSerialization`;
  - the leaf-data parser `parseSumLeaf`;
  - the placeholder constant `sumPlaceholder`.

  Their definitions are not modelled. The only property assumed is that the path hash is `PathSize` bytes long.
- `parseSumLeaf`, `hashSumSerialization`: both are total functions in the model. Both run on data an untrusted proof supplies: `parseSumLeaf` on `NonMembershipLeafData` and `hashSumSerialization` on `SiblingData`.
  - The sanity check bounds leaf data only from below, at `len(leafPrefix)+PathSize` bytes, which leaves no room for the sum the parser returns. It does not bound sibling data at all.
  - What the code does on such short data that the sanity check admits is therefore not captured. The model's in-range guarantee covers only the indexing inside the proof verifier, compaction and decompaction.
- The definitions of `getPathBit`, `setPathBit`, `countSetBits` and `defaultValue` sit in a file that is not part of this model. `Utils.GetPathBit`, `Utils.SetPathBit`, `Utils.CountSetBits` and `Utils.DefaultValue` are modelled from how the code uses them.
  - The bit helpers follow the convention implied by their use: bit `i` of a byte string is `data[i/8] & (1 << (7 - i%8))`, most significant bit first. `setPathBit` ORs that mask into the byte, modelled as adding `2^e` when bit `e` is clear.
  - `countSetBits` counts all `8*len` bits of the mask.
  - `defaultValue` is the empty byte string (Go's nil slice, which `bytes.Equal` treats as empty).
- A byte is an integer in `0..255`, so the bitwise operations are written arithmetically, with the same result.
- `math.Ceil(float64(n)/8)` is the integer `(n+7)/8`, which agrees on every value `NumSideNodes` can take after the range check.
- SumProofs.VerifySumProof: the `hex.DecodeString` error branch is not modelled. `%016x` always yields 16 hex digits, so it cannot be taken, and only the net effect (the 16-byte field) is kept.
- The `bool` and `updates` returned alongside an error are not modelled; an error is a `Failure`.
- SumProofs.DecompactSumProof: it uses the corrected compact check, which rejects every proof the as-written check rejects. It also rejects, with `ErrBadProof`, the proofs the as-written check accepts whose clear bits outnumber the supplied sidenodes, where the code would index `SideNodes` out of range (see Findings). On every other input it agrees with the code: `GuardFailureOverruns` proves that every proof it additionally rejects makes the loop read past `SideNodes`.
- SumProofs.VerifyCompactSumProof: it decompacts with the corrected check, so it differs from the code only on those same overrun inputs.
- The inner sparse Merkle tree engine is abstracted to the key → stored-bytes map it maintains. Its root is `rootOf(values)`. Its internals are not in the files modelled here. Any failure the inner tree could report is an explicit `fault` parameter of `Get`, `Update` and `Delete`, returned unchanged: storage errors, or a missing key on delete.
- Smst.SMST.Sum: the `|Root()| >= 8` precondition stands for the slice expression that would panic on a shorter root.
- Smst.SMST.Get: the class invariant that every stored value has at least 8 bytes stands for the same panic in `Get`. Every value `Update` stores satisfies it.
- `SMST.Prove` and `SMST.Commit` are left out: they only forward to the inner tree.
- `Spec` and the constructors `NewSparseMerkleSumTree` and `ImportSparseMerkleSumTree`, with their option wiring, are left out. The class constructor only sets up a tree over an existing store.
- Concurrency, persistence and the key-value store backends are left out.

## Findings

| source | as written | input that shows it | evidently intended | confidence | as-written member | corrected member |
|---|---|---|---|---|---|---|
| sum_proofs.go:94 | the compact check compares the number of supplied sidenodes with `countSetBits` over all `8*len(BitMask)` bits, including the padding bits past `NumSideNodes` | `NumSideNodes = 1`, `BitMask = [0x01]`, `SideNodes = []` passes (1 - 1 = 0). `DecompactSumProof` then reads `SideNodes[0]` at the clear bit 0, out of range | also reject a proof whose clear bits among the first `NumSideNodes`, the positions decompaction reads, outnumber the supplied sidenodes; given the as-written check, that is a proof with a set padding bit | not executed; depends on `countSetBits` counting every bit of its argument | SumProofs.AsWrittenCompactCheckAdmitsOverrun | SumProofs.CompactSanityCheck |
