/** Bytes as numbers: the masks the kernel writes with shifts, said with division and remainder. */
module Bits {

  /** The value of 1 << k. */
  function Shl1(k: nat): (r: nat)
    ensures r > 0
  {
    if k == 0 then 1 else 2 * Shl1(k - 1)
  }

  /** Bit k of b, that is (b & (1 << k)) != 0. */
  predicate BitSet(b: nat, k: nat) {
    if k == 0 then b % 2 == 1 else BitSet(b / 2, k - 1)
  }

  /** Adding a mask to a byte whose bit is clear sets that bit and no other one. */
  lemma {:induction false} AddMask(b: nat, k: nat, j: nat)
    requires !BitSet(b, k)
    ensures BitSet(b + Shl1(k), j) == (j == k || BitSet(b, j))
  {
    if k == 0 {
      assert (b + 1) / 2 == b / 2;
    } else {
      assert (b + Shl1(k)) / 2 == b / 2 + Shl1(k - 1);
      if j > 0 {
        AddMask(b / 2, k - 1, j - 1);
      }
    }
  }

  /** A set bit contributes its mask to the byte. */
  lemma {:induction false} MaskBelow(b: nat, k: nat)
    requires BitSet(b, k)
    ensures Shl1(k) <= b && !BitSet(b - Shl1(k), k)
  {
    if k > 0 {
      MaskBelow(b / 2, k - 1);
      assert (b - Shl1(k)) / 2 == b / 2 - Shl1(k - 1);
    }
  }

  /** Subtracting a mask from a byte whose bit is set clears that bit and no other one. */
  lemma SubtractMask(b: nat, k: nat, j: nat)
    requires BitSet(b, k)
    ensures Shl1(k) <= b
    ensures BitSet(b - Shl1(k), j) == (j != k && BitSet(b, j))
  {
    MaskBelow(b, k);
    AddMask(b - Shl1(k), k, j);
  }

  /** An n-bit number has all of its bits set exactly when it is the largest one. */
  lemma {:induction false} AllBitsSet(b: nat, n: nat)
    requires b < Shl1(n)
    ensures (forall k :: 0 <= k < n ==> BitSet(b, k)) <==> b == Shl1(n) - 1
  {
    if b == Shl1(n) - 1 {
      forall k | 0 <= k < n ensures BitSet(b, k) {
        OnesBit(n, k);
      }
    } else {
      var k := SomeClearBit(b, n);
    }
  }

  lemma {:induction false} OnesBit(n: nat, k: nat)
    requires k < n
    ensures BitSet(Shl1(n) - 1, k)
  {
    assert (Shl1(n) - 1) / 2 == Shl1(n - 1) - 1;
    if k > 0 {
      OnesBit(n - 1, k - 1);
    }
  }

  lemma {:induction false} SomeClearBit(b: nat, n: nat) returns (k: nat)
    requires b < Shl1(n) - 1
    ensures k < n && !BitSet(b, k)
  {
    if b % 2 == 0 {
      k := 0;
    } else {
      var k' := SomeClearBit(b / 2, n - 1);
      k := k' + 1;
    }
  }

  /** The byte 0xFF is the one with no clear bit. */
  lemma FullByte(b: nat)
    requires b < 256
    ensures (forall k :: 0 <= k < 8 ==> BitSet(b, k)) <==> b == 0xFF
  {
    ByteRange();
    AllBitsSet(b, 8);
  }

  lemma FullByteBit(k: nat)
    requires k < 8
    ensures BitSet(0xFF, k)
  {
    ByteRange();
    OnesBit(8, k);
  }

  /** What `+= mask` does to the bits of an 8-bit variable. */
  ghost predicate SetsOnly(b: nat, b': nat, k: nat) {
    forall j :: 0 <= j < 8 ==> BitSet(b', j) == (j == k || BitSet(b, j))
  }

  /** What `-= mask` does to the bits of an 8-bit variable. */
  ghost predicate ClearsOnly(b: nat, b': nat, k: nat) {
    forall j :: 0 <= j < 8 ==> BitSet(b', j) == (j != k && BitSet(b, j))
  }

  /** In 8-bit arithmetic `+= mask` sets exactly bit k if and only if bit k was clear. */
  lemma ByteAddExact(b: nat, k: nat)
    requires b < 256 && k < 8
    ensures SetsOnly(b, (b + Shl1(k)) % 256, k) <==> !BitSet(b, k)
  {
    hide *;
    if BitSet(b, k) {
      CarryClearsBit(b, k);
      NotSetting(b, (b + Shl1(k)) % 256, k);
    } else {
      AddSets(b, k);
    }
  }

  lemma AddSets(b: nat, k: nat)
    requires b < 256 && k < 8 && !BitSet(b, k)
    ensures SetsOnly(b, (b + Shl1(k)) % 256, k)
  {
    forall j | 0 <= j < 8 ensures BitSet((b + Shl1(k)) % 256, j) == (j == k || BitSet(b, j)) {
      AddedBit(b, k, j);
    }
  }

  lemma NotSetting(b: nat, b': nat, k: nat)
    requires k < 8 && !BitSet(b', k)
    ensures !SetsOnly(b, b', k)
  {
    hide BitSet;
  }

  lemma AddedBit(b: nat, k: nat, j: nat)
    requires b < 256 && k < 8 && j < 8 && !BitSet(b, k)
    ensures BitSet((b + Shl1(k)) % 256, j) == (j == k || BitSet(b, j))
  {
    AddMask(b, k, j);
    LowBits8(b + Shl1(k), j);
  }

  /** Adding a mask whose bit is set carries, and leaves the bit clear. */
  lemma CarryClearsBit(b: nat, k: nat)
    requires b < 256 && k < 8 && BitSet(b, k)
    ensures !BitSet((b + Shl1(k)) % 256, k)
  {
    AddMaskFlipsBit(b, k);
    LowBits8(b + Shl1(k), k);
  }

  /** In 8-bit arithmetic `-= mask` clears exactly bit k if and only if bit k was set. */
  lemma ByteSubtractExact(b: nat, k: nat)
    requires b < 256 && k < 8
    ensures ClearsOnly(b, (b - Shl1(k)) % 256, k) <==> BitSet(b, k)
  {
    hide *;
    if BitSet(b, k) {
      SubtractClears(b, k);
    } else {
      BorrowSetsBit(b, k);
      NotClearing(b, (b - Shl1(k)) % 256, k);
    }
  }

  lemma SubtractClears(b: nat, k: nat)
    requires b < 256 && k < 8 && BitSet(b, k)
    ensures ClearsOnly(b, (b - Shl1(k)) % 256, k)
  {
    forall j | 0 <= j < 8 ensures BitSet((b - Shl1(k)) % 256, j) == (j != k && BitSet(b, j)) {
      SubtractedBit(b, k, j);
    }
  }

  lemma NotClearing(b: nat, b': nat, k: nat)
    requires k < 8 && BitSet(b', k)
    ensures !ClearsOnly(b, b', k)
  {
    hide BitSet;
  }

  lemma SubtractedBit(b: nat, k: nat, j: nat)
    requires b < 256 && k < 8 && j < 8 && BitSet(b, k)
    ensures BitSet((b - Shl1(k)) % 256, j) == (j != k && BitSet(b, j))
  {
    SubtractMask(b, k, j);
    LowBits8(b - Shl1(k), j);
  }

  /** Subtracting a mask whose bit is clear borrows, and leaves the bit set. */
  lemma BorrowSetsBit(b: nat, k: nat)
    requires b < 256 && k < 8 && !BitSet(b, k)
    ensures BitSet((b - Shl1(k)) % 256, k)
  {
    hide BitSet, Shl1;
    ByteMask(k);
    var c := b + 256 - Shl1(k);
    assert c + Shl1(k) == b + 256 && (b + 256) % 256 == b;
    LowBits8(b + 256, k);
    if !BitSet(c, k) {
      AddMask(c, k, k);
    }
    assert (b - Shl1(k)) % 256 == c % 256;
    LowBits8(c, k);
  }

  lemma LowBits8(x: nat, k: nat)
    requires k < 8
    ensures BitSet(x % 256, k) == BitSet(x, k)
  {
    ByteRange();
    LowBitsOfByte(x, 8, k);
  }

  lemma ByteMask(k: nat)
    requires k < 8
    ensures Shl1(k) <= 128
  {
    assert Shl1(7) == 128;
    ShlMonotone(k, 7);
  }

  lemma ByteRange()
    ensures Shl1(8) == 256
  {
    assert Shl1(4) == 16;
  }

  lemma {:induction false} ShlMonotone(k: nat, n: nat)
    requires k <= n
    ensures Shl1(k) <= Shl1(n)
  {
    if k < n {
      ShlMonotone(k, n - 1);
    }
  }

  lemma {:induction false} AddMaskFlipsBit(b: nat, k: nat)
    requires BitSet(b, k)
    ensures !BitSet(b + Shl1(k), k)
  {
    if k > 0 {
      AddMaskFlipsBit(b / 2, k - 1);
      assert (b + Shl1(k)) / 2 == b / 2 + Shl1(k - 1);
    }
  }

  /** Truncation to n bits keeps the bits below n. */
  lemma {:induction false} LowBitsOfByte(x: nat, n: nat, k: nat)
    requires k < n
    ensures BitSet(x % Shl1(n), k) == BitSet(x, k)
  {
    var p := Shl1(n - 1);
    HalveRemainder(x, p);
    if k > 0 {
      LowBitsOfByte(x / 2, n - 1, k - 1);
    }
  }

  lemma HalveRemainder(x: nat, p: nat)
    requires p > 0
    ensures (x % (2 * p)) / 2 == (x / 2) % p
    ensures (x % (2 * p)) % 2 == x % 2
  {
    var q, r := x / (2 * p), x % (2 * p);
    assert x == (2 * p) * q + r;
    assert (2 * p) * q == 2 * (p * q);
    assert x / 2 == p * q + r / 2;
    RemainderUnique(x / 2, p, q, r / 2);
  }

  lemma RemainderUnique(x: int, p: nat, q: int, r: int)
    requires p > 0 && 0 <= r < p && x == p * q + r
    ensures x / p == q && x % p == r
  {
    var d := x / p - q;
    assert p * d == p * (x / p) - p * q;
    if d >= 1 {
      MulAtLeast(p, d);
    } else if d <= -1 {
      MulAtLeast(p, -d);
    }
  }

  lemma MulAtLeast(p: nat, d: int)
    requires d >= 1
    ensures p * d >= p
  {
    assert p * d == p * (d - 1) + p;
  }

  /** The low n bits of a | b. */
  function BitOr(a: nat, b: nat, n: nat): (r: nat)
    ensures r < Shl1(n)
  {
    if n == 0 then 0 else 2 * BitOr(a / 2, b / 2, n - 1) + if a % 2 == 1 || b % 2 == 1 then 1 else 0
  }

  lemma OrParity(a: nat, b: nat, n: nat)
    requires n > 0
    ensures BitOr(a, b, n) % 2 == 1 <==> a % 2 == 1 || b % 2 == 1
  {
  }

  /** Below n a bit of a | b is set exactly when one of the two bits is. */
  lemma {:induction false} OrBit(a: nat, b: nat, n: nat, k: nat)
    requires k < n
    ensures BitSet(BitOr(a, b, n), k) <==> BitSet(a, k) || BitSet(b, k)
  {
    if k > 0 {
      OrBit(a / 2, b / 2, n - 1, k - 1);
    }
  }
}
