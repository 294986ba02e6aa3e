/** The sparse Merkle sum tree wrapper: a value is stored in the inner sparse
    Merkle tree as its digest followed by the 8-byte big-endian encoding of its
    sum, and the tree's root carries the total sum the same way. The inner tree
    is abstracted as the map from key to stored bytes it maintains. */
module Smst {
  import opened Utils

  /** Width of the sum suffix (`sumSize`). */
  const SumSize: nat := 8

  /** What `Update` hands to the inner tree: the value digest, then the sum. */
  function StoredValue(valueHash: seq<byte>, sum: uint64): (r: seq<byte>)
    ensures |r| == |valueHash| + SumSize
    ensures r != DefaultValue
  {
    valueHash + PutUint64(sum)
  }

  /** The sum in the trailing `sumSize` bytes of `b`, read big-endian. */
  function TrailingSum(b: seq<byte>): (s: uint64)
    requires |b| >= SumSize
    ensures PutUint64(s) == b[|b| - SumSize..]
  {
    Uint64(b[|b| - SumSize..])
  }

  /** `Get`'s split of a stored value into digest and sum; it undoes `StoredValue`. */
  function SplitStored(stored: seq<byte>): (r: (seq<byte>, uint64))
    requires |stored| >= SumSize
    ensures StoredValue(r.0, r.1) == stored
  {
    var n := |stored| - SumSize;
    assert stored == stored[..n] + stored[n..];
    (stored[..n], TrailingSum(stored))
  }

  /** Splitting what `StoredValue` built gives back its digest and sum. */
  lemma SplitStoredValue(valueHash: seq<byte>, sum: uint64)
    ensures SplitStored(StoredValue(valueHash, sum)) == (valueHash, sum)
  {
    var stored := StoredValue(valueHash, sum);
    assert stored[..|valueHash|] == valueHash;
    assert stored[|valueHash|..] == PutUint64(sum);
    Uint64RoundTrip(sum, PutUint64(sum));
  }

  /** A root laid out as `digest ‖ sum` yields that sum. */
  lemma TrailingSumOfStored(digest: seq<byte>, sum: uint64)
    ensures TrailingSum(StoredValue(digest, sum)) == sum
  {
    SplitStoredValue(digest, sum);
  }

  /** `Get`'s decoding of what the inner tree returned: its error unchanged, the
      default value with sum 0, or the split of a stored value. */
  function DecodeGet(inner: Result<seq<byte>, Error>): (r: Result<(seq<byte>, uint64), Error>)
    requires inner.Success? && inner.value != DefaultValue ==> |inner.value| >= SumSize
    ensures inner.Failure? ==> r == Failure(inner.error)
    ensures inner == Success(DefaultValue) ==> r == Success((DefaultValue, 0))
    ensures inner.Success? && inner.value != DefaultValue ==>
      r.Success? && StoredValue(r.value.0, r.value.1) == inner.value
  {
    if inner.Failure? then Failure(inner.error)
    else if inner.value == DefaultValue then Success((DefaultValue, 0))
    else Success(SplitStored(inner.value))
  }

  /** Every value stored is at least `sumSize` bytes long, as `Update` builds them. */
  ghost predicate WellStored(values: map<seq<byte>, seq<byte>>)
  {
    forall k :: k in values ==> |values[k]| >= SumSize
  }

  /** `SMST`: the wrapper over the inner tree. `values` is the inner tree's
      key-to-stored-bytes map, `digestValue` the value hasher and `rootOf` the
      root the inner tree has for a given map. A failure of the inner tree
      (storage, missing key) is given to each operation as `fault`. */
  class SMST {
    var values: map<seq<byte>, seq<byte>>
    const digestValue: seq<byte> -> seq<byte>
    const rootOf: map<seq<byte>, seq<byte>> -> seq<byte>

    ghost predicate Valid()
      reads this
    {
      WellStored(values)
    }

    /** A tree over an existing store whose values were all written by `Update`. */
    constructor (digestValue: seq<byte> -> seq<byte>, rootOf: map<seq<byte>, seq<byte>> -> seq<byte>, values: map<seq<byte>, seq<byte>>)
      requires WellStored(values)
      ensures Valid()
      ensures this.digestValue == digestValue && this.rootOf == rootOf && this.values == values
    {
      this.digestValue := digestValue;
      this.rootOf := rootOf;
      this.values := values;
    }

    /** The inner tree's `Get`: the stored bytes, or the default value for an absent key. */
    function InnerGet(key: seq<byte>, fault: Option<Error>): Result<seq<byte>, Error>
      reads this
    {
      if fault.Some? then Failure(fault.value)
      else if key in values then Success(values[key])
      else Success(DefaultValue)
    }

    /** `Get`: the digest and sum stored at `key`, `(defaultValue, 0)` for an
        absent key, and the inner error unchanged. */
    function Get(key: seq<byte>, fault: Option<Error>): (r: Result<(seq<byte>, uint64), Error>)
      reads this
      requires Valid()
      ensures fault.Some? ==> r == Failure(fault.value)
      ensures fault.None? && key !in values ==> r == Success((DefaultValue, 0))
      ensures fault.None? && key in values ==> r.Success? && StoredValue(r.value.0, r.value.1) == values[key]
    {
      DecodeGet(InnerGet(key, fault))
    }

    /** `Update`: stores `digestValue(value) ‖ BE8(sum)` at `key`; an inner
        failure is returned unchanged and leaves the tree as it was. */
    method Update(key: seq<byte>, value: seq<byte>, sum: uint64, fault: Option<Error>) returns (err: Option<Error>)
      requires Valid()
      modifies this
      ensures Valid()
      ensures err == fault
      ensures fault.Some? ==> values == old(values)
      ensures fault.None? ==> values == old(values)[key := StoredValue(digestValue(value), sum)]
      ensures fault.None? ==> Get(key, None) == Success((digestValue(value), sum))
    {
      var valueHash := digestValue(value);
      var sumBz := PutUint64(sum);
      valueHash := valueHash + sumBz;
      if fault.Some? {
        return fault;
      }
      values := values[key := valueHash];
      SplitStoredValue(digestValue(value), sum);
      return None;
    }

    /** `Delete`: removes `key` from the inner tree; an inner failure is
        returned unchanged and leaves the tree as it was. */
    method Delete(key: seq<byte>, fault: Option<Error>) returns (err: Option<Error>)
      requires Valid()
      modifies this
      ensures Valid()
      ensures err == fault
      ensures fault.Some? ==> values == old(values)
      ensures fault.None? ==> values == old(values) - {key}
      ensures fault.None? ==> Get(key, None) == Success((DefaultValue, 0))
    {
      if fault.Some? {
        return fault;
      }
      values := values - {key};
      return None;
    }

    /** `Root`: the inner tree's root, unchanged. */
    function Root(): (r: seq<byte>)
      reads this
      ensures r == rootOf(values)
    {
      rootOf(values)
    }

    /** `Sum`: the total read from the trailing `sumSize` bytes of the root. */
    function Sum(): (s: uint64)
      reads this
      requires |Root()| >= SumSize
      ensures PutUint64(s) == Root()[|Root()| - SumSize..]
    {
      TrailingSum(Root())
    }
  }

  /** Reading a key after storing `digest ‖ sum` there gives back the digest and sum. */
  lemma GetAfterStore(values: map<seq<byte>, seq<byte>>, key: seq<byte>, valueHash: seq<byte>, sum: uint64)
    requires WellStored(values)
    ensures var updated := values[key := StoredValue(valueHash, sum)];
      WellStored(updated) && DecodeGet(Success(updated[key])) == Success((valueHash, sum))
  {
    SplitStoredValue(valueHash, sum);
  }
}
