/** A bitmap block: bit `i` is bit `i % 8` of byte `i / 8`. */
module Bits {
  import opened Arith

  type BitBlock = seq<bv8>

  /** `1u << k`, for a bit of a byte. */
  function Mask(k: nat): bv8
    requires k < 8
  {
    if k == 0 then 1 else if k == 1 then 2 else if k == 2 then 4 else if k == 3 then 8
    else if k == 4 then 16 else if k == 5 then 32 else if k == 6 then 64 else 128
  }

  predicate Bit(b: bv8, k: nat)
    requires k < 8
  {
    b & Mask(k) != 0
  }

  /** Bit `k` is the one worth 2^k. */
  lemma BitIsShifted(b: bv8, k: nat)
    requires k < 8
    ensures Mask(k) == 1 << k
    ensures Bit(b, k) <==> (b >> k) & 1 == 1
    ensures Bit(b, k) <==> (b >> k) & 1 != 0
  {
  }

  lemma AddAndTake(b: bv8, m: bv8)
    ensures b & m == 0 ==> b | m == b + m
    ensures b & m == m ==> b & !m == b - m
  {
  }

  /** Setting a clear bit adds its worth to the byte, clearing one that is set takes it away. */
  lemma BitIsWorth(b: bv8, k: nat)
    requires k < 8
    ensures if Bit(b, k) then b & !Mask(k) == b - Mask(k) else b | Mask(k) == b + Mask(k)
  {
    hide *;
    var m := Mask(k);
    AllOrNone(b, k);
    AddAndTake(b, m);
  }

  lemma AllOrNone(b: bv8, k: nat)
    requires k < 8
    ensures b & Mask(k) == if Bit(b, k) then Mask(k) else 0
  {
  }

  lemma BitOfOr(b: bv8, k: nat, j: nat)
    requires k < 8 && j < 8
    ensures Bit(b | Mask(k), j) == (j == k || Bit(b, j))
  {
  }

  lemma BitOfAndNot(b: bv8, k: nat, j: nat)
    requires k < 8 && j < 8
    ensures Bit(b & !Mask(k), j) == (j != k && Bit(b, j))
  {
  }

  predicate BitAt(block: BitBlock, i: nat)
    requires i < 8 * |block|
  {
    Bit(block[Quot(i, 8)], Rem(i, 8))
  }

  function SetBit(block: BitBlock, i: nat): (block': BitBlock)
    requires i < 8 * |block|
    ensures |block'| == |block|
  {
    block[Quot(i, 8) := block[Quot(i, 8)] | Mask(Rem(i, 8))]
  }

  function ClearBit(block: BitBlock, i: nat): (block': BitBlock)
    requires i < 8 * |block|
    ensures |block'| == |block|
  {
    block[Quot(i, 8) := block[Quot(i, 8)] & !Mask(Rem(i, 8))]
  }

  /** Bit `i` of a bitmap block is the one worth 2^(i % 8) in byte `i / 8`. */
  lemma BitInByte(block: BitBlock, i: nat)
    requires i < 8 * |block|
    ensures BitAt(block, i) <==> (block[i / 8] >> (i % 8)) & 1 == 1
    ensures BitAt(block, i) <==> (block[i / 8] >> (i % 8)) & 1 != 0
  {
    hide *;
    PlaceInBlock(block, i);
    BitIsShifted(block[i / 8], i % 8);
  }

  /** `now` is `was` with bit `i`, which was clear, set: byte `i / 8` is worth 2^(i % 8) more. */
  predicate ByteTaken(was: BitBlock, now: BitBlock, i: nat) {
    && i < 8 * |was| && (was[i / 8] >> (i % 8)) & 1 == 0
    && now == was[i / 8 := was[i / 8] + (1 << (i % 8))]
  }

  lemma SetInByte(block: BitBlock, i: nat)
    requires i < 8 * |block| && !BitAt(block, i)
    ensures ByteTaken(block, SetBit(block, i), i)
  {
    hide Bit, BitAt, SetBit, ClearBit, Mask;
    PlaceInBlock(block, i);
    ByteSet(block[i / 8], i % 8);
  }

  lemma ClearInByte(block: BitBlock, i: nat)
    requires i < 8 * |block| && BitAt(block, i)
    ensures ByteTaken(ClearBit(block, i), block, i)
  {
    hide Bit, BitAt, SetBit, ClearBit, Mask;
    PlaceInBlock(block, i);
    ByteCleared(block[i / 8], i % 8);
  }

  lemma ByteSet(b: bv8, k: nat)
    requires k < 8 && !Bit(b, k)
    ensures (b >> k) & 1 == 0 && b | Mask(k) == b + (1 << k)
  {
    BitIsShifted(b, k);
    BitIsWorth(b, k);
  }

  lemma ByteCleared(b: bv8, k: nat)
    requires k < 8 && Bit(b, k)
    ensures ((b & !Mask(k)) >> k) & 1 == 0 && b == (b & !Mask(k)) + (1 << k)
  {
    BitIsShifted(b & !Mask(k), k);
    BitIsWorth(b & !Mask(k), k);
    BitOfAndNot(b, k, k);
    AllOrNone(b, k);
  }

  lemma PlaceInBlock(block: BitBlock, i: nat)
    requires i < 8 * |block|
    ensures BitAt(block, i) <==> Bit(block[i / 8], i % 8)
    ensures SetBit(block, i) == block[i / 8 := block[i / 8] | Mask(i % 8)]
    ensures ClearBit(block, i) == block[i / 8 := block[i / 8] & !Mask(i % 8)]
  {
    hide Bit, Mask;
  }

  /** The first `n` bits of a bitmap block. */
  function BitsOf(block: BitBlock, n: nat): (bits: seq<bool>)
    requires n <= 8 * |block|
    ensures |bits| == n
  {
    seq(n, i requires 0 <= i < n => BitAt(block, i))
  }

  lemma SamePlace(i: nat, j: nat)
    ensures Quot(i, 8) == Quot(j, 8) && Rem(i, 8) == Rem(j, 8) ==> i == j
  {
    hide Quot, Rem;
    DivMod(i, 8);
    DivMod(j, 8);
  }

  lemma OneBitChanged(block: BitBlock, i: nat, j: nat)
    requires i < 8 * |block| && j < 8 * |block|
    ensures BitAt(SetBit(block, i), j) == (j == i || BitAt(block, j))
    ensures BitAt(ClearBit(block, i), j) == (j != i && BitAt(block, j))
  {
    hide Quot, Rem, Bit, Mask;
    SamePlace(i, j);
    DivMod(i, 8);
    DivMod(j, 8);
    DivBound(i, 8, |block|);
    DivBound(j, 8, |block|);
    var b := block[Quot(i, 8)];
    BitOfOr(b, Rem(i, 8), Rem(j, 8));
    BitOfAndNot(b, Rem(i, 8), Rem(j, 8));
  }

  /** Setting or clearing a bit of the bytes does just that to the bits they spell. */
  lemma BitsChanged(block: BitBlock, i: nat, n: nat)
    requires i < n <= 8 * |block|
    ensures BitsOf(SetBit(block, i), n) == BitsOf(block, n)[i := true]
    ensures BitsOf(ClearBit(block, i), n) == BitsOf(block, n)[i := false]
  {
    hide Quot, Rem, Bit, Mask, BitAt, SetBit, ClearBit;
    forall j | 0 <= j < n
      ensures BitAt(SetBit(block, i), j) == (j == i || BitAt(block, j))
      ensures BitAt(ClearBit(block, i), j) == (j != i && BitAt(block, j))
    {
      OneBitChanged(block, i, j);
    }
  }

  // ---------- counting ----------

  /** How many bits are clear. */
  function Clear(bits: seq<bool>): nat {
    if bits == [] then 0 else (if bits[0] then 0 else 1) + Clear(bits[1..])
  }

  lemma {:induction false} ClearChanged(bits: seq<bool>, i: nat, v: bool)
    requires i < |bits| && bits[i] != v
    ensures Clear(bits[i := v]) == if v then Clear(bits) - 1 else Clear(bits) + 1
    ensures !bits[i] ==> Clear(bits) > 0
  {
    if i == 0 {
      assert bits[i := v][1..] == bits[1..];
    } else {
      assert bits[i := v][1..] == bits[1..][i - 1 := v];
      ClearChanged(bits[1..], i - 1, v);
    }
  }

  lemma {:induction false} ClearBound(bits: seq<bool>)
    ensures Clear(bits) <= |bits|
    ensures forall i :: 0 <= i < |bits| && bits[i] ==> Clear(bits) < |bits|
  {
    if bits != [] {
      ClearBound(bits[1..]);
      assert forall i :: 0 < i < |bits| ==> bits[i] == bits[1..][i - 1];
    }
  }

  /** How many bits are clear in all the groups. */
  function ClearIn(groups: seq<seq<bool>>): nat {
    if groups == [] then 0 else Clear(groups[0]) + ClearIn(groups[1..])
  }

  lemma {:induction false} ClearInChanged(groups: seq<seq<bool>>, g: nat, bits: seq<bool>)
    requires g < |groups|
    ensures ClearIn(groups[g := bits]) == ClearIn(groups) - Clear(groups[g]) + Clear(bits)
    ensures Clear(groups[g]) <= ClearIn(groups)
  {
    if g == 0 {
      assert groups[g := bits][1..] == groups[1..];
    } else {
      assert groups[g := bits][1..] == groups[1..][g - 1 := bits];
      ClearInChanged(groups[1..], g - 1, bits);
    }
  }
}
