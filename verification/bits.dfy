/** The bit operations behind the ready bitmap, on words seen as naturals. */
module Bits {

  /** Bit i of word w. */
  predicate Bit(w: nat, i: nat) {
    if i == 0 then w % 2 == 1 else Bit(w / 2, i - 1)
  }

  /** w | (1 << i). */
  function SetBit(w: nat, i: nat): nat {
    if i == 0 then w / 2 * 2 + 1 else SetBit(w / 2, i - 1) * 2 + w % 2
  }

  /** w & ~(1 << i). */
  function ClearBit(w: nat, i: nat): nat {
    if i == 0 then w / 2 * 2 else ClearBit(w / 2, i - 1) * 2 + w % 2
  }

  lemma {:induction false} SetBitIs(w: nat, i: nat, j: nat)
    ensures Bit(SetBit(w, i), j) <==> i == j || Bit(w, j)
  {
    if i != 0 && j != 0 {
      SetBitIs(w / 2, i - 1, j - 1);
      assert SetBit(w, i) / 2 == SetBit(w / 2, i - 1);
    } else if j != 0 {
      assert SetBit(w, i) / 2 == w / 2;
    }
  }

  lemma {:induction false} ClearBitIs(w: nat, i: nat, j: nat)
    ensures Bit(ClearBit(w, i), j) <==> i != j && Bit(w, j)
  {
    if i != 0 && j != 0 {
      ClearBitIs(w / 2, i - 1, j - 1);
      assert ClearBit(w, i) / 2 == ClearBit(w / 2, i - 1);
    } else if j != 0 {
      assert ClearBit(w, i) / 2 == w / 2;
    }
  }

  lemma {:induction false} ZeroHasNoBits(i: nat)
    ensures !Bit(0, i)
  {
    if i != 0 { ZeroHasNoBits(i - 1); }
  }

  /** The position of the lowest one bit. */
  function Lowest(w: nat): nat
    requires w != 0
  {
    if w % 2 == 1 then 0 else Lowest(w / 2) + 1
  }

  lemma {:induction false} LowestIs(w: nat)
    requires w != 0
    ensures Bit(w, Lowest(w)) && forall j :: 0 <= j < Lowest(w) ==> !Bit(w, j)
  {
    if w % 2 == 0 {
      LowestIs(w / 2);
      forall j | 0 <= j < Lowest(w) ensures !Bit(w, j) {
        if j != 0 { assert !Bit(w / 2, j - 1); }
      }
    }
  }

  /** The rows of __lowest_bit_bitmap differ in their first entry only. */
  const ROW_HEAD := [0, 4, 5, 4, 6, 4, 5, 4, 7, 4, 5, 4, 6, 4, 5, 4]
  const ROW := [0, 0, 1, 0, 2, 0, 1, 0, 3, 0, 1, 0, 2, 0, 1, 0]

  /** __lowest_bit_bitmap[b]. */
  function LowestBitmap(b: nat): nat
    requires b < 256
  {
    if b % 16 == 0 then ROW_HEAD[b / 16] else ROW[b % 16]
  }

  lemma LowestNibble(b: nat)
    requires 0 < b < 16
    ensures Lowest(b) == ROW[b] && Lowest(b) + 4 == ROW_HEAD[b]
  {
    assert Lowest(1) == 0 && Lowest(3) == 0 && Lowest(5) == 0 && Lowest(7) == 0;
    assert Lowest(9) == 0 && Lowest(11) == 0 && Lowest(13) == 0 && Lowest(15) == 0;
    assert Lowest(2) == 1 && Lowest(6) == 1 && Lowest(10) == 1 && Lowest(14) == 1;
    assert Lowest(4) == 2 && Lowest(12) == 2;
    assert Lowest(8) == 3;
  }

  /** Four even-valued steps: the low bits of a number divisible by 16 are in its upper part. */
  lemma LowestTimes16(n: nat)
    requires 0 < n
    ensures Lowest(n * 16) == Lowest(n) + 4
  {
    assert Lowest(n * 16) == Lowest(n * 8) + 1;
    assert Lowest(n * 8) == Lowest(n * 4) + 1;
    assert Lowest(n * 4) == Lowest(n * 2) + 1;
    assert (n * 2) / 2 == n;
  }

  function Pow2(k: nat): nat {
    if k == 0 then 1 else 2 * Pow2(k - 1)
  }

  /** Bits above a nonzero low part do not matter. */
  lemma {:induction false} LowestOfLowPart(q: nat, r: nat, k: nat)
    requires 0 < r < Pow2(k)
    ensures q * Pow2(k) + r != 0 && Lowest(q * Pow2(k) + r) == Lowest(r)
    decreases k
  {
    if k != 0 {
      var x := q * Pow2(k - 1);
      assert q * Pow2(k) == 2 * x;
      if r % 2 == 0 {
        assert (2 * x + r) / 2 == x + r / 2;
        LowestOfLowPart(q, r / 2, k - 1);
      }
    }
  }

  lemma LowestOfByte(w: nat)
    requires w != 0
    ensures if w % 256 != 0 then Lowest(w) == Lowest(w % 256)
            else w / 256 != 0 && Lowest(w) == Lowest(w / 256) + 8
  {
    if w % 256 != 0 {
      assert Pow2(8) == 256;
      LowestOfLowPart(w / 256, w % 256, 8);
    } else {
      LowestTimes16(w / 256);
      LowestTimes16(w / 256 * 16);
      assert w == w / 256 * 16 * 16;
    }
  }

  lemma BitmapIsLowest(b: nat)
    requires 0 < b < 256
    ensures LowestBitmap(b) == Lowest(b)
  {
    if b % 16 == 0 {
      LowestTimes16(b / 16);
      LowestNibble(b / 16);
      assert b == b / 16 * 16;
    } else {
      assert Pow2(4) == 16;
      LowestOfLowPart(b / 16, b % 16, 4);
      LowestNibble(b % 16);
    }
  }

  /** __rt_ffs on a 32-bit word: a lookup in the first byte that is not zero. */
  function Ffs(value: nat): nat
    requires value < 0x1_0000_0000
  {
    if value == 0 then 0
    else if value % 256 != 0 then LowestBitmap(value % 256) + 1
    else if value / 256 % 256 != 0 then LowestBitmap(value / 256 % 256) + 9
    else if value / 0x1_0000 % 256 != 0 then LowestBitmap(value / 0x1_0000 % 256) + 17
    else LowestBitmap(value / 0x100_0000 % 256) + 25
  }

  /** __rt_ffs numbers the lowest one bit from 1, and is 0 for the zero word. */
  lemma FfsIs(value: nat)
    requires value < 0x1_0000_0000
    ensures Ffs(value) == if value == 0 then 0 else Lowest(value) + 1
  {
    var v1, v2, v3 := value / 256, value / 256 / 256, value / 256 / 256 / 256;
    assert v2 == value / 0x1_0000 && v3 == value / 0x100_0000 && v3 < 256;
    if value != 0 {
      LowestOfByte(value);
      if value % 256 != 0 { BitmapIsLowest(value % 256); } else { FfsAbove(v1); }
    }
  }

  /** The lookup in the upper three bytes. */
  lemma FfsAbove(v1: nat)
    requires 0 < v1 < 0x100_0000
    ensures Lowest(v1) == if v1 % 256 != 0 then LowestBitmap(v1 % 256)
                          else if v1 / 256 % 256 != 0 then LowestBitmap(v1 / 256 % 256) + 8
                          else LowestBitmap(v1 / 256 / 256 % 256) + 16
  {
    LowestOfByte(v1);
    if v1 % 256 != 0 { BitmapIsLowest(v1 % 256); } else { FfsTop(v1 / 256); }
  }

  lemma FfsTop(v2: nat)
    requires 0 < v2 < 0x1_0000
    ensures Lowest(v2) == if v2 % 256 != 0 then LowestBitmap(v2 % 256) else LowestBitmap(v2 / 256 % 256) + 8
  {
    LowestOfByte(v2);
    var b := v2 / 256 % 256;
    SmallQuotient(v2);
    if v2 % 256 != 0 { BitmapIsLowest(v2 % 256); } else { BitmapIsLowest(b); }
  }

  lemma SmallQuotient(v: nat)
    requires v < 0x1_0000
    ensures v / 256 % 256 == v / 256 < 256
  {
  }
}
