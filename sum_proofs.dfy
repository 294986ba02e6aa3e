/** Sum proofs of the sparse Merkle sum tree: the structural sanity checks on
    untrusted proofs, the verifier that folds sidenodes from the leaf up to the
    root, and the lossless compaction and decompaction of proofs. */
module SumProofs {
  import opened Utils

  /** The tree's hashing parameters. The hash primitives are given, not
      defined: every property below holds whichever functions they are. The only
      width assumed is that of the path hasher (see `Valid`). */
  datatype TreeSpec = TreeSpec(
    hashSize: nat,
    pathSize: nat,
    leafPrefixLen: nat,
    path: seq<byte> -> seq<byte>,
    digestValue: seq<byte> -> seq<byte>,
    digestSumLeaf: (seq<byte>, seq<byte>, seq<byte>) -> (seq<byte>, seq<byte>),
    digestSumNode: (seq<byte>, seq<byte>) -> Result<(seq<byte>, seq<byte>), Error>,
    sumPlaceholder: seq<byte>,
    hashSumSerialization: seq<byte> -> seq<byte>,
    parseSumLeaf: seq<byte> -> (seq<byte>, seq<byte>, seq<byte>))
  {
    /** The path hasher yields `pathSize` bytes for every key. */
    ghost predicate Valid() {
      forall key :: |path(key)| == pathSize
    }

    /** The length every sidenode must have: a digest followed by a 16-byte sum field. */
    function SideNodeSize(): nat {
      hashSize + 16
    }
  }

  /** A proof for one key. `None` is Go's nil slice, which the sanity checks tell apart
      from an empty one. */
  datatype SparseMerkleSumProof = SparseMerkleSumProof(
    sideNodes: seq<seq<byte>>,
    nonMembershipLeafData: Option<seq<byte>>,
    siblingData: Option<seq<byte>>)

  /** A proof whose placeholder sidenodes are dropped; bit `i` of `bitMask`
      (most significant bit first) marks sidenode `i` as a placeholder. */
  datatype SparseCompactMerkleSumProof = SparseCompactMerkleSumProof(
    sideNodes: seq<seq<byte>>,
    nonMembershipLeafData: Option<seq<byte>>,
    bitMask: seq<byte>,
    numSideNodes: int,
    siblingData: Option<seq<byte>>)

  /** One recomputed node on the path: its hash and its serialized data. */
  datatype Update = Update(hash: seq<byte>, data: seq<byte>)

  /* ---------------------------------------------------------------- sanity checks */

  /** `SparseMerkleSumProof.sanityCheck`: a proof that passes it cannot make the
      verifier index out of range. */
  predicate SanityCheck(spec: TreeSpec, proof: SparseMerkleSumProof)
    ensures SanityCheck(spec, proof) ==> |proof.sideNodes| <= 8 * spec.pathSize
    ensures SanityCheck(spec, proof) ==>
      forall i :: 0 <= i < |proof.sideNodes| ==> |proof.sideNodes[i]| == spec.SideNodeSize()
  {
    && |proof.sideNodes| <= spec.pathSize * 8
    && !(proof.nonMembershipLeafData.Some?
         && |proof.nonMembershipLeafData.value| < spec.leafPrefixLen + spec.pathSize)
    && (forall i :: 0 <= i < |proof.sideNodes| ==> |proof.sideNodes[i]| == spec.SideNodeSize())
    && (|| proof.siblingData.None?
        || |proof.sideNodes| == 0
        || proof.sideNodes[0] == spec.hashSumSerialization(proof.siblingData.value))
  }

  /** `SparseCompactMerkleSumProof.sanityCheck` as the source writes it: the
      surviving-sidenode count is compared with the set bits of the WHOLE mask,
      padding bits included. Decompaction does not use it (see `CompactSanityCheck`). */
  predicate CompactSanityCheckAsWritten(spec: TreeSpec, proof: SparseCompactMerkleSumProof)
    ensures CompactSanityCheckAsWritten(spec, proof) ==>
      0 <= proof.numSideNodes <= 8 * spec.pathSize && proof.numSideNodes <= 8 * |proof.bitMask|
  {
    && 0 <= proof.numSideNodes <= spec.pathSize * 8
    && |proof.bitMask| == (proof.numSideNodes + 7) / 8
    && (proof.numSideNodes > 0 ==>
          |proof.sideNodes| == proof.numSideNodes - CountSetBits(proof.bitMask))
  }

  /** The compact sanity check as written, guarded against the overrun it lets
      through: the clear bits among the first `numSideNodes` (the positions
      decompaction reads a supplied sidenode for) must not outnumber the supplied
      sidenodes. It rejects everything the as-written check rejects, and on top of
      that only the proofs that would make decompaction read past `sideNodes`. */
  predicate CompactSanityCheck(spec: TreeSpec, proof: SparseCompactMerkleSumProof)
    ensures CompactSanityCheck(spec, proof) ==> CompactSanityCheckAsWritten(spec, proof)
    ensures CompactSanityCheck(spec, proof) ==>
      && 0 <= proof.numSideNodes <= 8 * spec.pathSize
      && proof.numSideNodes <= 8 * |proof.bitMask|
      && proof.numSideNodes - SetBitsBefore(proof.bitMask, proof.numSideNodes) <= |proof.sideNodes|
  {
    && CompactSanityCheckAsWritten(spec, proof)
    && proof.numSideNodes - SetBitsBefore(proof.bitMask, proof.numSideNodes) <= |proof.sideNodes|
  }

  /** On a proof the as-written check accepts, the guard holds exactly when no
      padding bit past `numSideNodes` is set: a set padding bit is what lets the
      whole-mask count come out right with too few sidenodes. */
  lemma GuardMeansCleanPadding(spec: TreeSpec, proof: SparseCompactMerkleSumProof)
    requires CompactSanityCheckAsWritten(spec, proof)
    ensures CompactSanityCheck(spec, proof) <==>
      CountSetBits(proof.bitMask) == SetBitsBefore(proof.bitMask, proof.numSideNodes)
  {
    SetBitsBeforeMonotone(proof.bitMask, proof.numSideNodes, 8 * |proof.bitMask|);
  }

  /** A proof the as-written check accepts but the guard rejects does overrun:
      the decompaction loop reaches a clear bit `i` while its `position` counter,
      the clear bits before `i`, is already past the supplied sidenodes. */
  lemma GuardFailureOverruns(spec: TreeSpec, proof: SparseCompactMerkleSumProof)
    requires CompactSanityCheckAsWritten(spec, proof) && !CompactSanityCheck(spec, proof)
    ensures exists i ::
      && 0 <= i < proof.numSideNodes
      && GetPathBit(proof.bitMask, i) == Left
      && i - SetBitsBefore(proof.bitMask, i) >= |proof.sideNodes|
  {
    ClearBitPastSupply(proof.bitMask, |proof.sideNodes|, proof.numSideNodes);
  }

  /** More clear bits among the first `k` than `m` means some clear bit `i < k`
      has at least `m` clear bits before it. */
  lemma {:induction false} ClearBitPastSupply(mask: seq<byte>, m: nat, k: nat)
    requires k <= 8 * |mask| && k - SetBitsBefore(mask, k) > m
    ensures exists i :: 0 <= i < k && GetPathBit(mask, i) == Left && i - SetBitsBefore(mask, i) >= m
  {
    if GetPathBit(mask, k - 1) == Right {
      ClearBitPastSupply(mask, m, k - 1);
    } else {
      assert GetPathBit(mask, k - 1) == Left && (k - 1) - SetBitsBefore(mask, k - 1) >= m;
    }
  }

  /** Proofs the as-written check rejects stay rejected, whether or not their
      padding bits are set: `BitMask = [0x81]` with no sidenodes (whole-mask count
      2) and `BitMask = [0x01]` with one sidenode (one set bit, one sidenode). */
  lemma SourceRejectionsKept(spec: TreeSpec, x: seq<byte>)
    ensures !CompactSanityCheck(spec, SparseCompactMerkleSumProof([], None, [0x81], 1, None))
    ensures !CompactSanityCheck(spec, SparseCompactMerkleSumProof([x], None, [0x01], 1, None))
  {
    var dirty: seq<byte> := [0x81];
    assert GetPathBit(dirty, 0) == Right;
    assert GetPathBit(dirty, 7) == Right;
    assert CountSetBits(dirty) >= 2 by {
      SetBitsBeforeMonotone(dirty, 1, 7);
    }
    var mask: seq<byte> := [0x01];
    assert GetPathBit(mask, 7) == Right;
    assert CountSetBits(mask) >= 1 by {
      SetBitsBeforeMonotone(mask, 0, 7);
    }
  }

  /** The two compact checks agree on every mask whose padding bits are clear. */
  lemma CompactChecksAgreeOnCleanMasks(spec: TreeSpec, proof: SparseCompactMerkleSumProof)
    requires 0 <= proof.numSideNodes <= 8 * |proof.bitMask|
    requires forall q :: proof.numSideNodes <= q < 8 * |proof.bitMask| ==> GetPathBit(proof.bitMask, q) == Left
    ensures CompactSanityCheck(spec, proof) <==> CompactSanityCheckAsWritten(spec, proof)
  {
    SetBitsBeforeClearTail(proof.bitMask, proof.numSideNodes, 8 * |proof.bitMask|);
  }

  /** The as-written compact check admits a proof that decompaction cannot
      read: one sidenode position, bit 0 clear (so decompaction reads
      `SideNodes[0]`), no sidenodes supplied, and a set padding bit that makes the
      count come out right. The corrected check rejects it. */
  lemma AsWrittenCompactCheckAdmitsOverrun(spec: TreeSpec)
    requires spec.pathSize >= 1
    ensures var proof := SparseCompactMerkleSumProof([], None, [1], 1, None);
      && CompactSanityCheckAsWritten(spec, proof)
      && GetPathBit(proof.bitMask, 0) == Left
      && |proof.sideNodes| == 0
      && !CompactSanityCheck(spec, proof)
  {
    var mask: seq<byte> := [1];
    forall q | 0 <= q < 7
      ensures GetPathBit(mask, q) == Left
    {
      BitOfZero(6 - q);
    }
    assert GetPathBit(mask, 7) == Right;
    SetBitsBeforeClearTail(mask, 0, 7);
    assert SetBitsBefore(mask, 1) == 0;
    assert CountSetBits(mask) == 1;
  }

  /* ---------------------------------------------------------------- verification */

  /** Go's `copy(make([]byte, n), src)`: `src` cut or zero-padded to `n` bytes. */
  function CopyInto(n: nat, src: seq<byte>): (r: seq<byte>)
    ensures |r| == n
    ensures forall i :: 0 <= i < n ==> r[i] == (if i < |src| then src[i] else 0)
  {
    if |src| >= n then src[..n] else src + Zeros(n - |src|)
  }

  /** The leaf the fold starts from, with the updates it contributes. A
      non-membership claim (`value` is the default value) starts from the
      placeholder when no leaf data is attached, and otherwise from the attached
      leaf, which must lie on a different path; a membership claim starts from
      the leaf of `path`, the value's digest and `sum`. */
  function LeafStart(spec: TreeSpec, proof: SparseMerkleSumProof, path: seq<byte>, value: seq<byte>, sum: seq<byte>)
    : (r: Result<(seq<byte>, seq<Update>), Error>)
    ensures r.Failure? <==>
      && value == DefaultValue
      && proof.nonMembershipLeafData.Some?
      && spec.parseSumLeaf(proof.nonMembershipLeafData.value).0 == path
    ensures r.Failure? ==> r.error == ErrBadProof
    ensures r.Success? && value == DefaultValue && proof.nonMembershipLeafData.None? ==>
      r.value == (spec.sumPlaceholder, [])
    ensures r.Success? && !(value == DefaultValue && proof.nonMembershipLeafData.None?) ==>
      |r.value.1| == 1 && r.value.1[0].hash == r.value.0
  {
    if value == DefaultValue then
      if proof.nonMembershipLeafData.None? then
        Success((spec.sumPlaceholder, []))
      else
        var parsed := spec.parseSumLeaf(proof.nonMembershipLeafData.value);
        if parsed.0 == path then
          Failure(ErrBadProof)
        else
          var leaf := spec.digestSumLeaf(parsed.0, parsed.1, parsed.2);
          Success((leaf.0, [Update(leaf.0, leaf.1)]))
    else
      var leaf := spec.digestSumLeaf(path, spec.digestValue(value), sum);
      Success((leaf.0, [Update(leaf.0, leaf.1)]))
  }

  /** One fold step: the path bit `bit` says on which side the accumulated
      node `acc` sits; `Left` makes it the left argument. */
  function Combine(spec: TreeSpec, bit: nat, acc: seq<byte>, node: seq<byte>)
    : Result<(seq<byte>, seq<byte>), Error>
  {
    if bit == Left then spec.digestSumNode(acc, node)
    else spec.digestSumNode(node, acc)
  }

  /** Fold step `i` of `n`, oriented by path bit `n - 1 - i`. */
  function Step(spec: TreeSpec, path: seq<byte>, n: nat, i: nat, acc: seq<byte>, node: seq<byte>)
    : Result<(seq<byte>, seq<byte>), Error>
    requires i < n <= 8 * |path|
  {
    Combine(spec, GetPathBit(path, n - 1 - i), acc, node)
  }

  /** The first `k` fold steps over `sides` from `start`: the node reached and
      one update per step. */
  function Climb(spec: TreeSpec, path: seq<byte>, sides: seq<seq<byte>>, k: nat, start: seq<byte>)
    : (r: Result<(seq<byte>, seq<Update>), Error>)
    requires k <= |sides| <= 8 * |path|
    ensures r.Success? ==> |r.value.1| == k
    ensures r.Success? ==> r.value.0 == Reached(start, r.value.1, k)
  {
    if k == 0 then Success((start, []))
    else
      match Climb(spec, path, sides, k - 1, start)
      case Failure(e) => Failure(e)
      case Success(prev) =>
        match Step(spec, path, |sides|, k - 1, prev.0, sides[k - 1])
        case Failure(e) => Failure(e)
        case Success(node) => Success((node.0, prev.1 + [Update(node.0, node.1)]))
  }

  /** The node the fold holds after `j` steps whose updates are `ups`. */
  function Reached(start: seq<byte>, ups: seq<Update>, j: nat): seq<byte>
    requires j <= |ups|
  {
    if j == 0 then start else ups[j - 1].hash
  }

  /** `ups` records a run of `k` fold steps from `start`: each update is the
      node combined from the one before it and the matching sidenode. */
  ghost predicate IsChain(spec: TreeSpec, path: seq<byte>, sides: seq<seq<byte>>, k: nat, start: seq<byte>, ups: seq<Update>)
    requires k <= |sides| <= 8 * |path|
  {
    && |ups| == k
    && forall j {:trigger Reached(start, ups, j)} :: 0 <= j < k ==>
         Step(spec, path, |sides|, j, Reached(start, ups, j), sides[j]) == Success((ups[j].hash, ups[j].data))
  }

  /** A successful fold leaves a chain of fold steps ending at the node it returns. */
  lemma {:induction false} ClimbYieldsChain(spec: TreeSpec, path: seq<byte>, sides: seq<seq<byte>>, k: nat, start: seq<byte>)
    requires k <= |sides| <= 8 * |path|
    requires Climb(spec, path, sides, k, start).Success?
    ensures var r := Climb(spec, path, sides, k, start).value;
      IsChain(spec, path, sides, k, start, r.1) && r.0 == Reached(start, r.1, k)
  {
    if k > 0 {
      var prev := Climb(spec, path, sides, k - 1, start).value;
      var ups := Climb(spec, path, sides, k, start).value.1;
      ClimbYieldsChain(spec, path, sides, k - 1, start);
      assert ups[..k - 1] == prev.1;
      forall j | 0 <= j < k
        ensures Step(spec, path, |sides|, j, Reached(start, ups, j), sides[j]) == Success((ups[j].hash, ups[j].data))
      {
        if j < k - 1 {
          assert ups[j] == prev.1[j];
          assert Reached(start, ups, j) == Reached(start, prev.1, j);
        }
      }
    }
  }

  /** The first `k - 1` updates of a chain of `k` fold steps are a chain. */
  lemma ChainPrefix(spec: TreeSpec, path: seq<byte>, sides: seq<seq<byte>>, k: nat, start: seq<byte>, ups: seq<Update>)
    requires 0 < k <= |sides| <= 8 * |path|
    requires IsChain(spec, path, sides, k, start, ups)
    ensures IsChain(spec, path, sides, k - 1, start, ups[..k - 1])
  {
    var front := ups[..k - 1];
    forall j | 0 <= j < k - 1
      ensures Step(spec, path, |sides|, j, Reached(start, front, j), sides[j]) == Success((front[j].hash, front[j].data))
    {
      assert Reached(start, front, j) == Reached(start, ups, j);
    }
  }

  /** A chain of fold steps is what the fold computes. */
  lemma {:induction false} ChainIsClimb(spec: TreeSpec, path: seq<byte>, sides: seq<seq<byte>>, k: nat, start: seq<byte>, ups: seq<Update>)
    requires k <= |sides| <= 8 * |path|
    requires IsChain(spec, path, sides, k, start, ups)
    ensures Climb(spec, path, sides, k, start) == Success((Reached(start, ups, k), ups))
  {
    if k > 0 {
      var front := ups[..k - 1];
      ChainPrefix(spec, path, sides, k, start, ups);
      ChainIsClimb(spec, path, sides, k - 1, start, front);
      var h := Reached(start, front, k - 1);
      assert h == Reached(start, ups, k - 1);
      var last := ups[k - 1];
      assert Step(spec, path, |sides|, k - 1, h, sides[k - 1]) == Success((last.hash, last.data));
      ClimbNext(spec, path, sides, k - 1, start, h, front, (last.hash, last.data));
      PrefixSnoc(ups, k - 1);
      assert ups[..k] == ups;
    }
  }

  /** The fold succeeds with `(h, ups)` exactly when `ups` is a chain of fold
      steps and `h` is the node it ends at. */
  lemma ClimbIsChain(spec: TreeSpec, path: seq<byte>, sides: seq<seq<byte>>, k: nat, start: seq<byte>, h: seq<byte>, ups: seq<Update>)
    requires k <= |sides| <= 8 * |path|
    ensures Climb(spec, path, sides, k, start) == Success((h, ups)) <==>
      IsChain(spec, path, sides, k, start, ups) && h == Reached(start, ups, k)
  {
    if Climb(spec, path, sides, k, start) == Success((h, ups)) {
      ClimbYieldsChain(spec, path, sides, k, start);
    }
    if IsChain(spec, path, sides, k, start, ups) && h == Reached(start, ups, k) {
      ChainIsClimb(spec, path, sides, k, start, ups);
    }
  }

  /** `verifySumProofWithUpdates`, stated on values: a proof failing the sanity
      check is rejected before any hashing; otherwise the fold runs over every
      sidenode from the starting leaf. The verdict is whether the node reached
      equals `root`. */
  function Verified(spec: TreeSpec, proof: SparseMerkleSumProof, root: seq<byte>, key: seq<byte>, value: seq<byte>, sum: seq<byte>)
    : (r: Result<(bool, seq<Update>), Error>)
    requires spec.Valid()
    ensures !SanityCheck(spec, proof) ==> r == Failure(ErrBadProof)
  {
    var path := spec.path(key);
    if !SanityCheck(spec, proof) then Failure(ErrBadProof)
    else
      var start :- LeafStart(spec, proof, path, value, sum);
      var climbed :- Climb(spec, path, proof.sideNodes, |proof.sideNodes|, start.0);
      Success((climbed.0 == root, start.1 + climbed.1))
  }

  /** What an accepted or rejected verdict means: the verifier returns
      `(ok, ups)` exactly when the proof is sane, the starting leaf is admissible,
      `ups` is the start's update (if any) followed by one update per sidenode
      chaining the fold, and `ok` says whether the fold ends at `root`. */
  lemma VerifiedMeans(spec: TreeSpec, proof: SparseMerkleSumProof, root: seq<byte>, key: seq<byte>, value: seq<byte>, sum: seq<byte>, ok: bool, ups: seq<Update>)
    requires spec.Valid()
    ensures Verified(spec, proof, root, key, value, sum) == Success((ok, ups)) <==>
      && SanityCheck(spec, proof)
      && LeafStart(spec, proof, spec.path(key), value, sum).Success?
      && var start := LeafStart(spec, proof, spec.path(key), value, sum).value;
         var n := |proof.sideNodes|;
         && |ups| == |start.1| + n
         && ups[..|start.1|] == start.1
         && IsChain(spec, spec.path(key), proof.sideNodes, n, start.0, ups[|start.1|..])
         && ok == (Reached(start.0, ups[|start.1|..], n) == root)
  {
    var path := spec.path(key);
    var n := |proof.sideNodes|;
    if SanityCheck(spec, proof) && LeafStart(spec, proof, path, value, sum).Success? {
      var start := LeafStart(spec, proof, path, value, sum).value;
      if Verified(spec, proof, root, key, value, sum) == Success((ok, ups)) {
        var climbed := Climb(spec, path, proof.sideNodes, n, start.0).value;
        assert ups == start.1 + climbed.1;
        assert ups[|start.1|..] == climbed.1;
        ClimbIsChain(spec, path, proof.sideNodes, n, start.0, climbed.0, climbed.1);
      }
      if |ups| == |start.1| + n && ups[..|start.1|] == start.1 {
        var tail := ups[|start.1|..];
        ClimbIsChain(spec, path, proof.sideNodes, n, start.0, Reached(start.0, tail, n), tail);
        assert ups == start.1 + tail;
      }
    }
  }

  /** A successful verification records one update per sidenode, plus one for
      the starting leaf unless the start is the placeholder. */
  lemma VerifiedUpdateCount(spec: TreeSpec, proof: SparseMerkleSumProof, root: seq<byte>, key: seq<byte>, value: seq<byte>, sum: seq<byte>)
    requires spec.Valid()
    requires Verified(spec, proof, root, key, value, sum).Success?
    ensures |Verified(spec, proof, root, key, value, sum).value.1| ==
      |proof.sideNodes| + (if value == DefaultValue && proof.nonMembershipLeafData.None? then 0 else 1)
  {
  }

  /** A non-membership claim backed by leaf data whose path is the key's own
      path is a bad proof. */
  lemma NonMembershipOnOccupiedPath(spec: TreeSpec, proof: SparseMerkleSumProof, root: seq<byte>, key: seq<byte>, sum: seq<byte>)
    requires spec.Valid()
    requires proof.nonMembershipLeafData.Some?
    requires spec.parseSumLeaf(proof.nonMembershipLeafData.value).0 == spec.path(key)
    ensures Verified(spec, proof, root, key, DefaultValue, sum) == Failure(ErrBadProof)
  {
  }

  /** A proof with more sidenodes than the path has bits is a bad proof,
      whatever the hash primitives compute. */
  lemma TooManySideNodes(spec: TreeSpec, proof: SparseMerkleSumProof, root: seq<byte>, key: seq<byte>, value: seq<byte>, sum: seq<byte>)
    requires spec.Valid()
    requires |proof.sideNodes| == 8 * spec.pathSize + 1
    ensures Verified(spec, proof, root, key, value, sum) == Failure(ErrBadProof)
  {
  }

  /** One more successful fold step. */
  lemma ClimbNext(spec: TreeSpec, path: seq<byte>, sides: seq<seq<byte>>, i: nat, start: seq<byte>, h: seq<byte>, ups: seq<Update>, node: (seq<byte>, seq<byte>))
    requires i < |sides| <= 8 * |path|
    requires Climb(spec, path, sides, i, start) == Success((h, ups))
    requires Step(spec, path, |sides|, i, h, sides[i]) == Success(node)
    ensures Climb(spec, path, sides, i + 1, start) == Success((node.0, ups + [Update(node.0, node.1)]))
  {
  }

  /** A failing fold step makes the fold fail with its error. */
  lemma ClimbStepFails(spec: TreeSpec, path: seq<byte>, sides: seq<seq<byte>>, i: nat, start: seq<byte>, h: seq<byte>, ups: seq<Update>, e: Error)
    requires i < |sides| <= 8 * |path|
    requires Climb(spec, path, sides, i, start) == Success((h, ups))
    requires Step(spec, path, |sides|, i, h, sides[i]) == Failure(e)
    ensures Climb(spec, path, sides, i + 1, start) == Failure(e)
  {
  }

  /** Once a fold step fails, the rest of the fold fails with the same error. */
  lemma {:induction false} ClimbFailureStays(spec: TreeSpec, path: seq<byte>, sides: seq<seq<byte>>, j: nat, k: nat, start: seq<byte>)
    requires j <= k <= |sides| <= 8 * |path|
    requires Climb(spec, path, sides, j, start).Failure?
    ensures Climb(spec, path, sides, k, start) == Climb(spec, path, sides, j, start)
  {
    if j < k {
      ClimbFailureStays(spec, path, sides, j, k - 1, start);
    }
  }

  /** `verifySumProofWithUpdates`. */
  method VerifySumProofWithUpdates(proof: SparseMerkleSumProof, root: seq<byte>, key: seq<byte>, value: seq<byte>, sum: seq<byte>, spec: TreeSpec)
    returns (r: Result<(bool, seq<Update>), Error>)
    requires spec.Valid()
    ensures r == Verified(spec, proof, root, key, value, sum)
  {
    var path := spec.path(key);
    if !SanityCheck(spec, proof) {
      return Failure(ErrBadProof);
    }
    var updates: seq<Update> := [];
    var currentHash, currentData: seq<byte>;
    if value == DefaultValue {
      if proof.nonMembershipLeafData.None? {
        currentHash := spec.sumPlaceholder;
      } else {
        var parsed := spec.parseSumLeaf(proof.nonMembershipLeafData.value);
        if parsed.0 == path {
          return Failure(ErrBadProof);
        }
        var leaf := spec.digestSumLeaf(parsed.0, parsed.1, parsed.2);
        currentHash, currentData := leaf.0, leaf.1;
        updates := [Update(currentHash, currentData)];
      }
    } else {
      var valueHash := spec.digestValue(value);
      var leaf := spec.digestSumLeaf(path, valueHash, sum);
      currentHash, currentData := leaf.0, leaf.1;
      updates := [Update(currentHash, currentData)];
    }
    assert LeafStart(spec, proof, path, value, sum) == Success((currentHash, updates));
    var climbed := RecomputeRoot(spec, path, proof.sideNodes, currentHash);
    if climbed.Failure? {
      return Failure(climbed.error);
    }
    return Success((climbed.value.0 == root, updates + climbed.value.1));
  }

  /** The "recompute root" loop of `verifySumProofWithUpdates`: one fold step
      per sidenode, each copied into a buffer of the sidenode size first. */
  method RecomputeRoot(spec: TreeSpec, path: seq<byte>, sides: seq<seq<byte>>, start: seq<byte>)
    returns (r: Result<(seq<byte>, seq<Update>), Error>)
    requires |sides| <= 8 * |path|
    requires forall i :: 0 <= i < |sides| ==> |sides[i]| == spec.SideNodeSize()
    ensures r == Climb(spec, path, sides, |sides|, start)
  {
    var currentHash, currentData := start, [];
    var updates: seq<Update> := [];
    var n := |sides|;
    var i := 0;
    while i < n
      invariant 0 <= i <= n
      invariant Climb(spec, path, sides, i, start) == Success((currentHash, updates))
    {
      var node := CopyInto(spec.SideNodeSize(), sides[i]);
      assert node == sides[i];
      var bit := GetPathBit(path, n - 1 - i);
      var step;
      if bit == Left {
        step := spec.digestSumNode(currentHash, node);
      } else {
        step := spec.digestSumNode(node, currentHash);
      }
      assert step == Step(spec, path, n, i, currentHash, sides[i]);
      if step.Failure? {
        ClimbStepFails(spec, path, sides, i, start, currentHash, updates, step.error);
        ClimbFailureStays(spec, path, sides, i + 1, n, start);
        return Failure(step.error);
      }
      ClimbNext(spec, path, sides, i, start, currentHash, updates, step.value);
      currentHash, currentData := step.value.0, step.value.1;
      updates := updates + [Update(currentHash, currentData)];
      i := i + 1;
    }
    return Success((currentHash, updates));
  }

  /** The 16-byte sum field `VerifySumProof` builds from a uint64: eight zero
      bytes, then the 8-byte big-endian encoding. */
  function SumField(sum: uint64): (r: seq<byte>)
    ensures |r| == 16
    ensures r[..8] == Zeros(8) && r[8..] == PutUint64(sum)
    ensures FromBigEndian(r) == sum
  {
    var r := Zeros(8) + PutUint64(sum);
    FromBigEndianLeadingZeros(8, PutUint64(sum));
    r
  }

  /** The verdict `VerifySumProof` returns. */
  function Verdict(spec: TreeSpec, proof: SparseMerkleSumProof, root: seq<byte>, key: seq<byte>, value: seq<byte>, sum: uint64)
    : (r: Result<bool, Error>)
    requires spec.Valid()
    ensures !SanityCheck(spec, proof) ==> r == Failure(ErrBadProof)
  {
    match Verified(spec, proof, root, key, value, SumField(sum))
    case Success(v) => Success(v.0)
    case Failure(e) => Failure(e)
  }

  /** `VerifySumProof`. */
  method VerifySumProof(proof: SparseMerkleSumProof, root: seq<byte>, key: seq<byte>, value: seq<byte>, sum: uint64, spec: TreeSpec)
    returns (r: Result<bool, Error>)
    requires spec.Valid()
    ensures r == Verdict(spec, proof, root, key, value, sum)
  {
    var hexSum := SumField(sum);
    var result := VerifySumProofWithUpdates(proof, root, key, value, hexSum, spec);
    if result.Failure? {
      return Failure(result.error);
    }
    return Success(result.value.0);
  }

  /* ---------------------------------------------------------------- compaction */

  lemma MaskBytesCover(n: nat)
    ensures n <= 8 * ((n + 7) / 8)
  {
  }

  /** The bit mask the first `k` compaction steps leave: a zero mask of
      `ceil(|sides| / 8)` bytes with bit `i` set for each placeholder `sides[i]`, `i < k`. */
  function PlaceholderMask(spec: TreeSpec, sides: seq<seq<byte>>, k: nat): (m: seq<byte>)
    requires k <= |sides|
    ensures |m| == (|sides| + 7) / 8 && |sides| <= 8 * |m|
  {
    MaskBytesCover(|sides|);
    if k == 0 then Zeros((|sides| + 7) / 8)
    else
      var m := PlaceholderMask(spec, sides, k - 1);
      if sides[k - 1] == spec.sumPlaceholder then SetPathBit(m, k - 1) else m
  }

  /** Bit `q` of the mask is set exactly when `q < k` and `sides[q]` is the placeholder. */
  lemma {:induction false} PlaceholderMaskBits(spec: TreeSpec, sides: seq<seq<byte>>, k: nat, q: nat)
    requires k <= |sides| && q < 8 * ((|sides| + 7) / 8)
    ensures GetPathBit(PlaceholderMask(spec, sides, k), q) ==
      if q < k && sides[q] == spec.sumPlaceholder then Right else Left
  {
    if k > 0 {
      PlaceholderMaskBits(spec, sides, k - 1, q);
    } else {
      BitOfZero(7 - q % 8);
    }
  }

  /** The sidenodes of `sides` that are not the placeholder, in their order. */
  function Survivors(sides: seq<seq<byte>>, placeholder: seq<byte>): (r: seq<seq<byte>>)
    ensures |r| <= |sides|
    ensures forall i :: 0 <= i < |r| ==> r[i] != placeholder
  {
    if |sides| == 0 then []
    else
      var front := Survivors(sides[..|sides| - 1], placeholder);
      if sides[|sides| - 1] == placeholder then front else front + [sides[|sides| - 1]]
  }

  /** The survivors of a prefix are a prefix of the survivors. */
  lemma {:induction false} SurvivorsOfPrefix(sides: seq<seq<byte>>, placeholder: seq<byte>, k: nat)
    requires k <= |sides|
    ensures var p := Survivors(sides[..k], placeholder);
      |p| <= |Survivors(sides, placeholder)| && p == Survivors(sides, placeholder)[..|p|]
  {
    if k < |sides| {
      var front := sides[..|sides| - 1];
      assert sides[..k] == front[..k];
      SurvivorsOfPrefix(front, placeholder, k);
    } else {
      assert sides[..k] == sides;
    }
  }

  /** `CompactSumProof`, stated on values. */
  function Compacted(spec: TreeSpec, proof: SparseMerkleSumProof): (c: SparseCompactMerkleSumProof)
    ensures c.numSideNodes == |proof.sideNodes| && |c.bitMask| == (|proof.sideNodes| + 7) / 8
    ensures c.nonMembershipLeafData == proof.nonMembershipLeafData && c.siblingData == proof.siblingData
  {
    SparseCompactMerkleSumProof(
      Survivors(proof.sideNodes, spec.sumPlaceholder),
      proof.nonMembershipLeafData,
      PlaceholderMask(spec, proof.sideNodes, |proof.sideNodes|),
      |proof.sideNodes|,
      proof.siblingData)
  }

  /** Among the first `k` sidenodes, set bits and survivors add up to `k`. */
  lemma {:induction false} MaskCountsPlaceholders(spec: TreeSpec, sides: seq<seq<byte>>, k: nat)
    requires k <= |sides|
    ensures SetBitsBefore(PlaceholderMask(spec, sides, |sides|), k) +
      |Survivors(sides[..k], spec.sumPlaceholder)| == k
  {
    MaskBytesCover(|sides|);
    if k > 0 {
      MaskCountsPlaceholders(spec, sides, k - 1);
      PlaceholderMaskBits(spec, sides, |sides|, k - 1);
      assert sides[..k][..k - 1] == sides[..k - 1];
    }
  }

  /** Over the whole compaction mask, padding included, the set bits plus the
      kept sidenodes number exactly the sidenodes. */
  lemma MaskCountsAllPlaceholders(spec: TreeSpec, sides: seq<seq<byte>>)
    ensures var mask := PlaceholderMask(spec, sides, |sides|);
      && CountSetBits(mask) == SetBitsBefore(mask, |sides|)
      && |Survivors(sides, spec.sumPlaceholder)| == |sides| - CountSetBits(mask)
  {
    var mask := PlaceholderMask(spec, sides, |sides|);
    forall q | |sides| <= q < 8 * |mask|
      ensures GetPathBit(mask, q) == Left
    {
      PlaceholderMaskBits(spec, sides, |sides|, q);
    }
    SetBitsBeforeClearTail(mask, |sides|, 8 * |mask|);
    MaskCountsPlaceholders(spec, sides, |sides|);
    assert sides[..|sides|] == sides;
  }

  /** A compacted sane proof: bit `i` of the mask, for `i` below the sidenode
      count, is set exactly when sidenode `i` is the placeholder; padding bits are
      clear; the survivors are the non-placeholder sidenodes in order; and the
      result passes both compact sanity checks. */
  lemma CompactedIsSane(spec: TreeSpec, proof: SparseMerkleSumProof)
    requires SanityCheck(spec, proof)
    ensures var c := Compacted(spec, proof);
      && (forall i :: 0 <= i < 8 * |c.bitMask| ==>
            GetPathBit(c.bitMask, i) == if i < |proof.sideNodes| && proof.sideNodes[i] == spec.sumPlaceholder then Right else Left)
      && CompactSanityCheck(spec, c)
      && CompactSanityCheckAsWritten(spec, c)
  {
    var c := Compacted(spec, proof);
    var n := |proof.sideNodes|;
    forall i | 0 <= i < 8 * |c.bitMask|
      ensures GetPathBit(c.bitMask, i) == if i < n && proof.sideNodes[i] == spec.sumPlaceholder then Right else Left
    {
      PlaceholderMaskBits(spec, proof.sideNodes, n, i);
    }
    MaskCountsAllPlaceholders(spec, proof.sideNodes);
  }

  /** One compaction step: sidenode `i` sets its mask bit if it is the
      placeholder, and joins the survivors otherwise. */
  lemma CompactStep(spec: TreeSpec, sides: seq<seq<byte>>, i: nat)
    requires i < |sides|
    ensures PlaceholderMask(spec, sides, i + 1) ==
      if sides[i] == spec.sumPlaceholder then SetPathBit(PlaceholderMask(spec, sides, i), i)
      else PlaceholderMask(spec, sides, i)
    ensures Survivors(sides[..i + 1], spec.sumPlaceholder) ==
      if sides[i] == spec.sumPlaceholder then Survivors(sides[..i], spec.sumPlaceholder)
      else Survivors(sides[..i], spec.sumPlaceholder) + [sides[i]]
  {
    assert sides[..i + 1][..i] == sides[..i];
  }

  /** `CompactSumProof`. */
  method CompactSumProof(proof: SparseMerkleSumProof, spec: TreeSpec) returns (r: Result<SparseCompactMerkleSumProof, Error>)
    ensures !SanityCheck(spec, proof) ==> r == Failure(ErrBadProof)
    ensures SanityCheck(spec, proof) ==> r == Success(Compacted(spec, proof))
  {
    if !SanityCheck(spec, proof) {
      return Failure(ErrBadProof);
    }
    var bitMask, compactedSideNodes := CompactSideNodes(spec, proof.sideNodes);
    return Success(SparseCompactMerkleSumProof(
      compactedSideNodes, proof.nonMembershipLeafData, bitMask, |proof.sideNodes|, proof.siblingData));
  }

  /** The compaction loop of `CompactSumProof`: it marks each placeholder
      sidenode in a fresh bitmask and keeps every other sidenode, in order. */
  method CompactSideNodes(spec: TreeSpec, sides: seq<seq<byte>>) returns (mask: seq<byte>, kept: seq<seq<byte>>)
    requires forall i :: 0 <= i < |sides| ==> |sides[i]| == spec.SideNodeSize()
    ensures mask == PlaceholderMask(spec, sides, |sides|)
    ensures kept == Survivors(sides, spec.sumPlaceholder)
  {
    var n := |sides|;
    MaskBytesCover(n);
    var bitMask := new byte[(n + 7) / 8](_ => 0);
    var compactedSideNodes: seq<seq<byte>> := [];
    var i := 0;
    while i < n
      invariant 0 <= i <= n
      invariant bitMask[..] == PlaceholderMask(spec, sides, i)
      invariant compactedSideNodes == Survivors(sides[..i], spec.sumPlaceholder)
    {
      var node := CopyInto(spec.SideNodeSize(), sides[i]);
      assert node == sides[i];
      CompactStep(spec, sides, i);
      if node == spec.sumPlaceholder {
        SetPathBitInPlace(bitMask, i);
      } else {
        compactedSideNodes := compactedSideNodes + [node];
      }
      i := i + 1;
    }
    assert sides[..n] == sides;
    return bitMask[..], compactedSideNodes;
  }

  /* ---------------------------------------------------------------- decompaction */

  /** The first `k` decompacted sidenodes: the placeholder at every set bit, and
      the next surviving sidenode at every clear bit (the `position`-th, where
      `position` counts the clear bits before it). */
  function Expand<T>(mask: seq<byte>, sides: seq<T>, placeholder: T, k: nat): (r: seq<T>)
    requires k <= 8 * |mask| && k - SetBitsBefore(mask, k) <= |sides|
    ensures |r| == k
  {
    if k == 0 then []
    else
      Expand(mask, sides, placeholder, k - 1)
        + [if GetPathBit(mask, k - 1) == Right then placeholder else sides[k - 1 - SetBitsBefore(mask, k - 1)]]
  }

  /** `DecompactSumProof`, stated on values. */
  function Decompacted(spec: TreeSpec, proof: SparseCompactMerkleSumProof): (p: SparseMerkleSumProof)
    requires CompactSanityCheck(spec, proof)
    ensures |p.sideNodes| == proof.numSideNodes
    ensures p.nonMembershipLeafData == proof.nonMembershipLeafData && p.siblingData == proof.siblingData
  {
    SparseMerkleSumProof(
      Expand(proof.bitMask, proof.sideNodes, spec.sumPlaceholder, proof.numSideNodes),
      proof.nonMembershipLeafData,
      proof.siblingData)
  }

  /** `DecompactSumProof`. The `position` counter stays below the number of
      supplied sidenodes at every read. */
  method DecompactSumProof(proof: SparseCompactMerkleSumProof, spec: TreeSpec) returns (r: Result<SparseMerkleSumProof, Error>)
    ensures !CompactSanityCheck(spec, proof) ==> r == Failure(ErrBadProof)
    ensures CompactSanityCheck(spec, proof) ==> r == Success(Decompacted(spec, proof))
  {
    if !CompactSanityCheck(spec, proof) {
      return Failure(ErrBadProof);
    }
    var decompactedSideNodes := ExpandSideNodes(proof.bitMask, proof.sideNodes, spec.sumPlaceholder, proof.numSideNodes);
    return Success(SparseMerkleSumProof(decompactedSideNodes, proof.nonMembershipLeafData, proof.siblingData));
  }

  /** The decompaction loop of `DecompactSumProof`, filling a fresh array of
      `n` sidenodes. The `position` counter stays below `|sides|` at every read. */
  method ExpandSideNodes<T>(mask: seq<byte>, sides: seq<T>, placeholder: T, n: nat) returns (r: seq<T>)
    requires n <= 8 * |mask| && n - SetBitsBefore(mask, n) <= |sides|
    ensures r == Expand(mask, sides, placeholder, n)
  {
    var decompactedSideNodes := new T[n](_ => placeholder);
    ghost var full := Expand(mask, sides, placeholder, n);
    var position := 0;
    var i := 0;
    while i < n
      invariant 0 <= i <= n
      invariant position == i - SetBitsBefore(mask, i) <= |sides|
      invariant forall j :: 0 <= j < i ==> decompactedSideNodes[j] == full[j]
    {
      DecompactStep(mask, sides, placeholder, n, i, position);
      var node: T;
      if GetPathBit(mask, i) == Right {
        node := placeholder;
      } else {
        node := sides[position];
        position := position + 1;
      }
      decompactedSideNodes[i] := node;
      i := i + 1;
    }
    assert decompactedSideNodes[..] == full;
    return decompactedSideNodes[..];
  }

  /** Decompaction step `i`, with `position` survivors read so far: at a set
      bit entry `i` of the decompacted list is the placeholder; at a clear bit it
      is survivor `position`, which exists, and `position` moves on. */
  lemma DecompactStep<T>(mask: seq<byte>, sides: seq<T>, placeholder: T, n: nat, i: nat, position: nat)
    requires i < n <= 8 * |mask| && n - SetBitsBefore(mask, n) <= |sides|
    requires position == i - SetBitsBefore(mask, i) <= |sides|
    ensures GetPathBit(mask, i) == Left ==> position < |sides|
    ensures i + 1 - SetBitsBefore(mask, i + 1) <= |sides|
    ensures GetPathBit(mask, i) == Right ==>
      Expand(mask, sides, placeholder, n)[i] == placeholder && position == i + 1 - SetBitsBefore(mask, i + 1)
    ensures GetPathBit(mask, i) == Left ==>
      Expand(mask, sides, placeholder, n)[i] == sides[position] && position + 1 == i + 1 - SetBitsBefore(mask, i + 1)
  {
    SetBitsBeforeGrowth(mask, i + 1, n);
    ExpandAt(mask, sides, placeholder, n, i);
  }

  /** Entry `i` of a decompaction: the placeholder at a set bit, and at a clear
      bit survivor `i - SetBitsBefore(mask, i)`, which exists. */
  lemma {:induction false} ExpandAt<T>(mask: seq<byte>, sides: seq<T>, placeholder: T, k: nat, i: nat)
    requires i < k <= 8 * |mask| && k - SetBitsBefore(mask, k) <= |sides|
    ensures GetPathBit(mask, i) == Left ==> i - SetBitsBefore(mask, i) < |sides|
    ensures Expand(mask, sides, placeholder, k)[i] ==
      if GetPathBit(mask, i) == Right then placeholder else sides[i - SetBitsBefore(mask, i)]
  {
    if i < k - 1 {
      ExpandAt(mask, sides, placeholder, k - 1, i);
    }
  }

  /** Set bits grow no faster than positions. */
  lemma {:induction false} SetBitsBeforeGrowth(mask: seq<byte>, j: nat, k: nat)
    requires j <= k <= 8 * |mask|
    ensures SetBitsBefore(mask, k) - SetBitsBefore(mask, j) <= k - j
  {
    if j < k {
      SetBitsBeforeGrowth(mask, j, k - 1);
    }
  }

  /** A prefix extended by its next element. */
  lemma PrefixSnoc<T>(s: seq<T>, k: nat)
    requires k < |s|
    ensures s[..k + 1] == s[..k] + [s[k]]
  {
  }

  /** A non-placeholder sidenode `k` is the survivor numbered by the survivors before it. */
  lemma {:induction false} SurvivorAt(sides: seq<seq<byte>>, placeholder: seq<byte>, k: nat)
    requires k < |sides| && sides[k] != placeholder
    ensures var p := |Survivors(sides[..k], placeholder)|;
      p < |Survivors(sides, placeholder)| && Survivors(sides, placeholder)[p] == sides[k]
  {
    SurvivorsOfPrefix(sides, placeholder, k + 1);
    assert sides[..k + 1][..k] == sides[..k];
  }

  /** Entry `j` of a compacted list decompacts to `sides[j]`: a set bit marks a
      placeholder, and a clear bit points at the right survivor. */
  lemma DecompactedEntry(spec: TreeSpec, sides: seq<seq<byte>>, j: nat)
    requires j < |sides|
    ensures var mask := PlaceholderMask(spec, sides, |sides|);
      var kept := Survivors(sides, spec.sumPlaceholder);
      && (GetPathBit(mask, j) == Right <==> sides[j] == spec.sumPlaceholder)
      && (sides[j] != spec.sumPlaceholder ==>
            j - SetBitsBefore(mask, j) < |kept| && kept[j - SetBitsBefore(mask, j)] == sides[j])
  {
    MaskBytesCover(|sides|);
    PlaceholderMaskBits(spec, sides, |sides|, j);
    if sides[j] != spec.sumPlaceholder {
      MaskCountsPlaceholders(spec, sides, j);
      SurvivorAt(sides, spec.sumPlaceholder, j);
    }
  }

  /** The clear bits among the first `k` of the mask never outnumber the survivors. */
  lemma ClearBitsBound(spec: TreeSpec, sides: seq<seq<byte>>, k: nat)
    requires k <= |sides|
    ensures var mask := PlaceholderMask(spec, sides, |sides|);
      k <= 8 * |mask| && k - SetBitsBefore(mask, k) <= |Survivors(sides, spec.sumPlaceholder)|
  {
    MaskBytesCover(|sides|);
    MaskCountsPlaceholders(spec, sides, k);
    SurvivorsOfPrefix(sides, spec.sumPlaceholder, k);
  }

  /** Expansion rebuilds `sides` from any mask and survivor list that agree
      with it entry by entry. */
  lemma {:induction false} ExpandRebuilds<T>(mask: seq<byte>, kept: seq<T>, placeholder: T, sides: seq<T>, k: nat)
    requires k <= |sides| <= 8 * |mask|
    requires forall j :: 0 <= j <= |sides| ==> j - SetBitsBefore(mask, j) <= |kept|
    requires forall j :: 0 <= j < |sides| ==>
      && (GetPathBit(mask, j) == Right <==> sides[j] == placeholder)
      && (sides[j] != placeholder ==> j - SetBitsBefore(mask, j) < |kept| && kept[j - SetBitsBefore(mask, j)] == sides[j])
    ensures Expand(mask, kept, placeholder, k) == sides[..k]
  {
    if k > 0 {
      ExpandRebuilds(mask, kept, placeholder, sides, k - 1);
      PrefixSnoc(sides, k - 1);
    }
  }

  /** Decompacting a compacted sidenode list gives back the list. */
  lemma ExpandSurvivors(spec: TreeSpec, sides: seq<seq<byte>>)
    ensures var mask := PlaceholderMask(spec, sides, |sides|);
      var kept := Survivors(sides, spec.sumPlaceholder);
      |sides| <= 8 * |mask| &&
      |sides| - SetBitsBefore(mask, |sides|) <= |kept| &&
      Expand(mask, kept, spec.sumPlaceholder, |sides|) == sides
  {
    var mask := PlaceholderMask(spec, sides, |sides|);
    var kept := Survivors(sides, spec.sumPlaceholder);
    forall j | 0 <= j <= |sides|
      ensures j <= 8 * |mask| && j - SetBitsBefore(mask, j) <= |kept|
    {
      ClearBitsBound(spec, sides, j);
    }
    forall j | 0 <= j < |sides|
      ensures && (GetPathBit(mask, j) == Right <==> sides[j] == spec.sumPlaceholder)
              && (sides[j] != spec.sumPlaceholder ==> j - SetBitsBefore(mask, j) < |kept| && kept[j - SetBitsBefore(mask, j)] == sides[j])
    {
      DecompactedEntry(spec, sides, j);
    }
    ExpandRebuilds(mask, kept, spec.sumPlaceholder, sides, |sides|);
    assert sides[..|sides|] == sides;
  }

  /** `Decompact(Compact(p)) == p` for every proof that passes the sanity check. */
  lemma DecompactAfterCompact(spec: TreeSpec, proof: SparseMerkleSumProof)
    requires SanityCheck(spec, proof)
    ensures CompactSanityCheck(spec, Compacted(spec, proof))
    ensures Decompacted(spec, Compacted(spec, proof)) == proof
  {
    CompactedIsSane(spec, proof);
    ExpandSurvivors(spec, proof.sideNodes);
  }

  /** The verdict `VerifyCompactSumProof` returns. */
  function CompactVerdict(spec: TreeSpec, proof: SparseCompactMerkleSumProof, root: seq<byte>, key: seq<byte>, value: seq<byte>, sum: uint64)
    : (r: Result<bool, Error>)
    requires spec.Valid()
    ensures !CompactSanityCheck(spec, proof) ==> r == Failure(ErrBadProof)
  {
    if !CompactSanityCheck(spec, proof) then Failure(ErrBadProof)
    else Verdict(spec, Decompacted(spec, proof), root, key, value, sum)
  }

  /** `VerifyCompactSumProof`. */
  method VerifyCompactSumProof(proof: SparseCompactMerkleSumProof, root: seq<byte>, key: seq<byte>, value: seq<byte>, sum: uint64, spec: TreeSpec)
    returns (r: Result<bool, Error>)
    requires spec.Valid()
    ensures r == CompactVerdict(spec, proof, root, key, value, sum)
  {
    var decompactedProof := DecompactSumProof(proof, spec);
    if decompactedProof.Failure? {
      return Failure(decompactedProof.error);
    }
    r := VerifySumProof(decompactedProof.value, root, key, value, sum, spec);
  }

  /** Compaction does not change a sane proof's verdict. */
  lemma CompactVerdictAgrees(spec: TreeSpec, proof: SparseMerkleSumProof, root: seq<byte>, key: seq<byte>, value: seq<byte>, sum: uint64)
    requires spec.Valid() && SanityCheck(spec, proof)
    ensures CompactVerdict(spec, Compacted(spec, proof), root, key, value, sum) == Verdict(spec, proof, root, key, value, sum)
  {
    DecompactAfterCompact(spec, proof);
  }
}
