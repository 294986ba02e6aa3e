/** Shared vocabulary of the sum tree: bytes, error values, the default-value
    sentinel, the most-significant-bit-first path bit helpers and the fixed-width
    big-endian integer codec. */
module Utils {

  /** A byte, as Go's `byte`: an unsigned 8-bit value. */
  type byte = x: int | 0 <= x < 256

  /** Go's `uint64`. */
  type uint64 = x: int | 0 <= x < 0x1_0000_0000_0000_0000

  datatype Option<+T> = None | Some(value: T)

  datatype Result<+T, +E> = Success(value: T) | Failure(error: E) {
    predicate IsFailure() { Failure? }
    function PropagateFailure<U>(): Result<U, E>
      requires Failure?
    {
      Failure(error)
    }
    function Extract(): T
      requires Success?
    {
      value
    }
  }

  /** Errors the core can return: `ErrBadProof`, or an error handed up unchanged
      from a collaborator (the node hasher, the storage layer), identified by a code. */
  datatype Error = ErrBadProof | ErrCollaborator(code: nat)

  /** The value that stands for "no value": Go's nil byte slice, which
      `bytes.Equal` treats as equal to the empty slice. */
  const DefaultValue: seq<byte> := []

  /** Orientation of a path bit: 0 is `left`, 1 is `right`. */
  const Left: nat := 0
  const Right: nat := 1

  function Zeros(n: nat): (r: seq<byte>)
    ensures |r| == n
    ensures forall i :: 0 <= i < n ==> r[i] == 0
  {
    seq(n, _ => 0)
  }

  function Pow2(e: nat): (p: nat)
    ensures p >= 1
  {
    if e == 0 then 1 else 2 * Pow2(e - 1)
  }

  /** Bit `e` of `b`, the one worth `2^e` (Go's `b & (1 << e) != 0`). */
  function Bit(b: nat, e: nat): (r: nat)
    ensures r == 0 || r == 1
  {
    if e == 0 then b % 2 else Bit(b / 2, e - 1)
  }

  /** `Bit` is the remainder of `b` shifted right by `e`: `(b >> e) & 1`. */
  lemma {:induction false} BitIsShiftedRemainder(b: nat, e: nat)
    ensures Bit(b, e) == (b / Pow2(e)) % 2
  {
    if e > 0 {
      BitIsShiftedRemainder(b / 2, e - 1);
      DivTwice(b, Pow2(e - 1));
    }
  }

  /** Halving and then dividing by `p` is dividing by `2 * p`. */
  lemma DivTwice(b: nat, p: nat)
    requires p >= 1
    ensures b / 2 / p == b / (2 * p)
  {
    var h := b / 2;
    var q := h / p;
    var r := 2 * (h % p) + b % 2;
    assert b == 2 * p * q + r by {
      assert h == p * q + h % p;
      assert b == 2 * h + b % 2;
    }
    DivUnique(b, 2 * p, q, r);
  }

  /** Euclidean division is unique: `b = d*q + r` with `0 <= r < d` fixes `q`. */
  lemma DivUnique(b: nat, d: nat, q: nat, r: nat)
    requires d >= 1 && b == d * q + r && 0 <= r < d
    ensures b / d == q
  {
    var q0 := b / d;
    assert b == d * q0 + b % d;
    if q0 < q {
      assert d * q >= d * (q0 + 1) by {
        MulMonotone(d, q0 + 1, q);
      }
    } else if q0 > q {
      assert d * q0 >= d * (q + 1) by {
        MulMonotone(d, q + 1, q0);
      }
    }
  }

  lemma MulMonotone(d: nat, x: nat, y: nat)
    requires x <= y
    ensures d * x <= d * y
  {
    assert d * y == d * x + d * (y - x);
  }

  lemma {:induction false} BitOfZero(e: nat)
    ensures Bit(0, e) == 0
  {
    if e > 0 {
      BitOfZero(e - 1);
    }
  }

  /** Adding `2^e` to a number whose bit `e` is clear sets that bit and no other. */
  lemma {:induction false} AddClearBit(b: nat, e: nat, f: nat)
    requires Bit(b, e) == 0
    ensures Bit(b + Pow2(e), f) == if f == e then 1 else Bit(b, f)
  {
    if e == 0 {
      if f > 0 {
        assert (b + 1) / 2 == b / 2;
      }
    } else if f > 0 {
      assert (b + Pow2(e)) / 2 == b / 2 + Pow2(e - 1);
      AddClearBit(b / 2, e - 1, f - 1);
    }
  }

  /** ... and keeps the number below `2^n` when `e < n`. */
  lemma {:induction false} AddClearBitBound(b: nat, e: nat, n: nat)
    requires Bit(b, e) == 0 && b < Pow2(n) && e < n
    ensures b + Pow2(e) < Pow2(n)
  {
    assert Pow2(n) == 2 * Pow2(n - 1);
    if e == 0 {
      assert b % 2 == 0;
    } else {
      assert Bit(b / 2, e - 1) == 0;
      assert Pow2(e) == 2 * Pow2(e - 1);
      AddClearBitBound(b / 2, e - 1, n - 1);
      assert b <= 2 * (b / 2) + 1;
    }
  }

  /** `b | (1 << e)`: bit `e` of `b` set. */
  function SetBit(b: byte, e: nat): (r: byte)
    requires e < 8
    ensures Bit(r, e) == 1
    ensures forall f :: f != e ==> Bit(r, f) == Bit(b, f)
  {
    if Bit(b, e) == 1 then b
    else
      AddClearBitBound(b, e, 8);
      forall f | f != e
        ensures Bit(b + Pow2(e), f) == Bit(b, f)
      {
        AddClearBit(b, e, f);
      }
      AddClearBit(b, e, e);
      b + Pow2(e)
  }

  /** Bit `position` of `data`, most significant bit of byte 0 first (`getPathBit`). */
  function GetPathBit(data: seq<byte>, position: nat): (b: nat)
    requires position < 8 * |data|
    ensures b == Left || b == Right
  {
    Bit(data[position / 8], 7 - position % 8)
  }

  /** Path bit `position` is bit `7 - position % 8` of byte `position / 8`,
      the most significant bit of byte 0 coming first. */
  lemma GetPathBitMeans(data: seq<byte>, position: nat)
    requires position < 8 * |data|
    ensures GetPathBit(data, position) == (data[position / 8] / Pow2(7 - position % 8)) % 2
  {
    BitIsShiftedRemainder(data[position / 8], 7 - position % 8);
  }

  /** `data` with bit `position` set (`setPathBit`, which the source applies in place). */
  function SetPathBit(data: seq<byte>, position: nat): (r: seq<byte>)
    requires position < 8 * |data|
    ensures |r| == |data|
    ensures GetPathBit(r, position) == Right
    ensures forall q :: 0 <= q < 8 * |data| && q != position ==> GetPathBit(r, q) == GetPathBit(data, q)
  {
    data[position / 8 := SetBit(data[position / 8], 7 - position % 8)]
  }

  /** `setPathBit` on a buffer, in place. */
  method SetPathBitInPlace(data: array<byte>, position: nat)
    requires position < 8 * data.Length
    modifies data
    ensures data[..] == SetPathBit(old(data[..]), position)
  {
    data[position / 8] := SetBit(data[position / 8], 7 - position % 8);
  }

  /** The number of set bits among the first `n` bits of `data`. */
  function SetBitsBefore(data: seq<byte>, n: nat): (c: nat)
    requires n <= 8 * |data|
    ensures c <= n
  {
    if n == 0 then 0 else SetBitsBefore(data, n - 1) + GetPathBit(data, n - 1)
  }

  /** `countSetBits`: the number of set bits in all `8 * |data|` bits of `data`. */
  function CountSetBits(data: seq<byte>): (c: nat)
    ensures c <= 8 * |data|
  {
    SetBitsBefore(data, 8 * |data|)
  }

  /** The count of set bits never shrinks as more bits are counted. */
  lemma {:induction false} SetBitsBeforeMonotone(data: seq<byte>, j: nat, k: nat)
    requires j <= k <= 8 * |data|
    ensures SetBitsBefore(data, j) <= SetBitsBefore(data, k)
  {
    if j < k {
      SetBitsBeforeMonotone(data, j, k - 1);
    }
  }

  /** The first `n` bits hold no set bit exactly when their count is 0. */
  lemma {:induction false} SetBitsBeforeZero(data: seq<byte>, n: nat)
    requires n <= 8 * |data|
    ensures SetBitsBefore(data, n) == 0 <==> forall q :: 0 <= q < n ==> GetPathBit(data, q) == Left
  {
    if n > 0 {
      SetBitsBeforeZero(data, n - 1);
    }
  }

  /** `countSetBits` is 0 exactly when no bit of `data` is set, and a set bit
      anywhere, padding included, adds at least one. */
  lemma CountSetBitsMeans(data: seq<byte>, q: nat)
    requires q < 8 * |data|
    ensures CountSetBits(data) == 0 <==> forall p :: 0 <= p < 8 * |data| ==> GetPathBit(data, p) == Left
    ensures GetPathBit(data, q) == Right ==> CountSetBits(data) >= SetBitsBefore(data, q) + 1
  {
    SetBitsBeforeZero(data, 8 * |data|);
    SetBitsBeforeMonotone(data, q + 1, 8 * |data|);
  }

  /** Bits `from` to `n` clear means they add nothing to the count. */
  lemma {:induction false} SetBitsBeforeClearTail(data: seq<byte>, from: nat, n: nat)
    requires from <= n <= 8 * |data|
    requires forall q :: from <= q < n ==> GetPathBit(data, q) == Left
    ensures SetBitsBefore(data, n) == SetBitsBefore(data, from)
  {
    if n > from {
      SetBitsBeforeClearTail(data, from, n - 1);
    }
  }

  function Pow256(n: nat): (p: nat)
    ensures p >= 1
  {
    if n == 0 then 1 else 256 * Pow256(n - 1)
  }

  /** The `width`-byte big-endian encoding of `x` modulo 256^width
      (`binary.BigEndian.PutUint64` for width 8). */
  function BigEndian(width: nat, x: nat): (r: seq<byte>)
    ensures |r| == width
  {
    if width == 0 then [] else BigEndian(width - 1, x / 256) + [x % 256]
  }

  /** The number a big-endian byte string denotes (`binary.BigEndian.Uint64` for 8 bytes). */
  function FromBigEndian(b: seq<byte>): (x: nat)
    ensures x < Pow256(|b|)
  {
    if |b| == 0 then 0
    else
      var hi := FromBigEndian(b[..|b| - 1]);
      assert hi * 256 + 255 < Pow256(|b|) by {
        assert hi + 1 <= Pow256(|b| - 1);
        assert (hi + 1) * 256 <= Pow256(|b| - 1) * 256;
      }
      hi * 256 + b[|b| - 1] as nat
  }

  lemma DivBelow(x: nat, p: nat)
    requires x < 256 * p
    ensures x / 256 < p
  {
  }

  /** Decoding inverts encoding on every value that fits the width. */
  lemma {:induction false} FromBigEndianOfBigEndian(width: nat, x: nat)
    requires x < Pow256(width)
    ensures FromBigEndian(BigEndian(width, x)) == x
  {
    if width > 0 {
      var r := BigEndian(width, x);
      assert r[..width - 1] == BigEndian(width - 1, x / 256);
      assert x / 256 < Pow256(width - 1) by {
        DivBelow(x, Pow256(width - 1));
      }
      FromBigEndianOfBigEndian(width - 1, x / 256);
      assert r[width - 1] as nat == x % 256;
      assert FromBigEndian(r) == (x / 256) * 256 + x % 256;
    }
  }

  /** Encoding inverts decoding on every byte string. */
  lemma {:induction false} BigEndianOfFromBigEndian(b: seq<byte>)
    ensures BigEndian(|b|, FromBigEndian(b)) == b
  {
    if |b| > 0 {
      var n := |b|;
      var hi := FromBigEndian(b[..n - 1]);
      var x := FromBigEndian(b);
      assert x / 256 == hi && x % 256 == b[n - 1] as nat;
      BigEndianOfFromBigEndian(b[..n - 1]);
      assert b == b[..n - 1] + [b[n - 1]];
    }
  }

  /** Leading zero bytes do not change the value. */
  lemma {:induction false} FromBigEndianLeadingZeros(k: nat, b: seq<byte>)
    ensures FromBigEndian(Zeros(k) + b) == FromBigEndian(b)
  {
    if |b| == 0 {
      assert Zeros(k) + b == Zeros(k);
      FromBigEndianZeros(k);
    } else {
      var n := |b|;
      assert (Zeros(k) + b)[..k + n - 1] == Zeros(k) + b[..n - 1];
      FromBigEndianLeadingZeros(k, b[..n - 1]);
    }
  }

  lemma {:induction false} FromBigEndianZeros(n: nat)
    ensures FromBigEndian(Zeros(n)) == 0
  {
    if n > 0 {
      assert Zeros(n)[..n - 1] == Zeros(n - 1);
      FromBigEndianZeros(n - 1);
    }
  }

  /** `binary.BigEndian.PutUint64`. */
  function PutUint64(x: uint64): (r: seq<byte>)
    ensures |r| == 8
    ensures FromBigEndian(r) == x
  {
    FromBigEndianOfBigEndian(8, x);
    BigEndian(8, x)
  }

  /** `binary.BigEndian.Uint64` on an 8-byte string. */
  function Uint64(b: seq<byte>): (x: uint64)
    requires |b| == 8
    ensures PutUint64(x) == b
  {
    BigEndianOfFromBigEndian(b);
    FromBigEndian(b)
  }

  /** Big-endian encoding and decoding of a uint64 are mutual inverses. */
  lemma Uint64RoundTrip(x: uint64, b: seq<byte>)
    requires |b| == 8
    ensures Uint64(PutUint64(x)) == x
    ensures PutUint64(Uint64(b)) == b
  {
  }
}
