/** The ready bitmap of scheduler.c: one 32-bit word for up to 32 priorities, or
    a word over 32 bytes for up to 256. */
module ReadyBitmap {
  import opened Bits
  import opened Words

  /** rt_thread_ready_priority_group and rt_thread_ready_table. */
  datatype Bitmap = Bitmap(group: nat, table: seq<nat>)

  /** The bit a priority has in the word, and in its byte of the table. */
  function Number(p: nat, max: nat): nat { if max > 32 then p / 8 else p }
  function High(p: nat): nat { p % 8 }

  function Empty(): Bitmap {
    Bitmap(0, seq(32, _ => 0))
  }

  /** rt_schedule_insert_thread: the table, then the word. */
  function Mark(b: Bitmap, max: nat, number: nat, high: nat): Bitmap
    requires |b.table| == 32 && number < 32
  {
    Bitmap(SetBit(b.group, number),
           if max > 32 then b.table[number := SetBit(b.table[number], high)] else b.table)
  }

  /** rt_schedule_remove_thread: with a table, the word only when the byte became zero. */
  function Unmark(b: Bitmap, max: nat, number: nat, high: nat): Bitmap
    requires |b.table| == 32 && number < 32
  {
    if max > 32 then
      var t := ClearBit(b.table[number], high);
      Bitmap(if t == 0 then ClearBit(b.group, number) else b.group, b.table[number := t])
    else Bitmap(ClearBit(b.group, number), b.table)
  }

  /** The bit recorded for priority p. */
  predicate On(b: Bitmap, max: nat, p: nat)
    requires |b.table| == 32 && p < max <= 256
  {
    if max > 32 then Bit(b.table[p / 8], p % 8) else Bit(b.group, p)
  }

  /** The word is small, and with a table its bit k says whether byte k is nonzero. */
  ghost predicate Sound(b: Bitmap, max: nat) {
    && 0 < max <= 256 && |b.table| == 32 && b.group < WORD
    && (if max > 32 then
          (forall k :: 0 <= k < 32 ==> b.table[k] < 256 && (Bit(b.group, k) <==> b.table[k] != 0)) &&
          (forall k, i :: 0 <= k < 32 && 0 <= i < 8 && Bit(b.table[k], i) ==> k * 8 + i < max)
        else forall i: nat :: Bit(b.group, i) ==> i < max)
  }

  // ------------------------------------------------------------ word bounds

  lemma {:induction false} SmallHighBits(w: nat, n: nat, i: nat)
    requires w < Pow2(n) && n <= i
    ensures !Bit(w, i)
    decreases n
  {
    if n == 0 { ZeroHasNoBits(i); } else { SmallHighBits(w / 2, n - 1, i - 1); }
  }

  lemma {:induction false} SetBitBound(w: nat, i: nat, n: nat)
    requires w < Pow2(n) && i < n
    ensures SetBit(w, i) < Pow2(n)
    decreases n
  {
    if i != 0 { SetBitBound(w / 2, i - 1, n - 1); }
  }

  lemma {:induction false} ClearBitBound(w: nat, i: nat)
    ensures ClearBit(w, i) <= w
  {
    if i != 0 { ClearBitBound(w / 2, i - 1); }
  }

  lemma Bounds()
    ensures Pow2(8) == 256 && Pow2(32) == WORD
  {
    assert Pow2(8) == 256 && Pow2(16) == 65536 && Pow2(24) == 0x100_0000;
  }

  lemma EmptySound(max: nat)
    requires 0 < max <= 256
    ensures Sound(Empty(), max) && forall p :: 0 <= p < max ==> !On(Empty(), max, p)
  {
    forall i: nat ensures !Bit(0, i) { ZeroHasNoBits(i); }
  }

  // ---------------------------------------------------- setting and clearing

  lemma MarkIs(b: Bitmap, max: nat, p: nat)
    requires Sound(b, max) && p < max
    ensures Sound(Mark(b, max, Number(p, max), High(p)), max)
    ensures forall q :: 0 <= q < max ==>
              (On(Mark(b, max, Number(p, max), High(p)), max, q) <==> q == p || On(b, max, q))
  {
    var n, h := Number(p, max), High(p);
    var c := Mark(b, max, n, h);
    Bounds();
    SetBitBound(b.group, n, 32);
    if max > 32 {
      SetBitBound(b.table[n], h, 8);
      SetBitIs(b.table[n], h, h);
      if c.table[n] == 0 { ZeroHasNoBits(h); }
      forall k | 0 <= k < 32 ensures c.table[k] < 256 && (Bit(c.group, k) <==> c.table[k] != 0) {
        SetBitIs(b.group, n, k);
      }
      forall k, i | 0 <= k < 32 && 0 <= i < 8 && Bit(c.table[k], i) ensures k * 8 + i < max {
        SetBitIs(b.table[n], h, i);
      }
      forall q | 0 <= q < max ensures On(c, max, q) <==> q == p || On(b, max, q) {
        SetBitIs(b.table[n], h, q % 8);
      }
    } else {
      forall i: nat ensures Bit(c.group, i) <==> i == p || Bit(b.group, i) { SetBitIs(b.group, n, i); }
    }
  }

  lemma UnmarkIs(b: Bitmap, max: nat, p: nat)
    requires Sound(b, max) && p < max
    ensures Sound(Unmark(b, max, Number(p, max), High(p)), max)
    ensures forall q :: 0 <= q < max ==>
              (On(Unmark(b, max, Number(p, max), High(p)), max, q) <==> q != p && On(b, max, q))
  {
    var n, h := Number(p, max), High(p);
    var c := Unmark(b, max, n, h);
    ClearBitBound(b.group, n);
    if max > 32 {
      ClearBitBound(b.table[n], h);
      forall k | 0 <= k < 32 ensures c.table[k] < 256 && (Bit(c.group, k) <==> c.table[k] != 0) {
        ClearBitIs(b.group, n, k);
        if k == n && c.table[n] != 0 && b.table[n] == 0 { assert false; }
      }
      forall k, i | 0 <= k < 32 && 0 <= i < 8 && Bit(c.table[k], i) ensures k * 8 + i < max {
        ClearBitIs(b.table[n], h, i);
      }
      forall q | 0 <= q < max ensures On(c, max, q) <==> q != p && On(b, max, q) {
        ClearBitIs(b.table[n], h, q % 8);
      }
    } else {
      forall i: nat ensures Bit(c.group, i) <==> i != p && Bit(b.group, i) { ClearBitIs(b.group, n, i); }
    }
  }

  // ---------------------------------------------------- the highest priority

  /** _get_highest_priority_thread: the priority it finds. */
  function Highest(b: Bitmap, max: nat): nat
    requires b.group < WORD && |b.table| == 32 && b.group != 0
    requires max > 32 ==> Ffs(b.group) >= 1 && Ffs(b.group) - 1 < 32 && b.table[Ffs(b.group) - 1] < WORD
    requires max > 32 ==> Ffs(b.table[Ffs(b.group) - 1]) >= 1
    requires Ffs(b.group) >= 1
  {
    if max > 32 then
      var number := Ffs(b.group) - 1;
      number * 8 + (Ffs(b.table[number]) - 1)
    else Ffs(b.group) - 1
  }

  ghost predicate Findable(b: Bitmap, max: nat) {
    && b.group < WORD && |b.table| == 32 && b.group != 0 && Ffs(b.group) >= 1
    && (max > 32 ==> Ffs(b.group) - 1 < 32 && b.table[Ffs(b.group) - 1] < WORD && Ffs(b.table[Ffs(b.group) - 1]) >= 1)
  }

  /** The word is zero exactly when no priority is marked, and otherwise the search
      finds the smallest marked priority. */
  lemma HighestIs(b: Bitmap, max: nat)
    requires Sound(b, max)
    ensures b.group == 0 <==> NoneOn(b, max)
    ensures b.group != 0 ==> Findable(b, max) && SmallestOn(b, max, Highest(b, max))
  {
    if b.group == 0 {
      forall p | 0 <= p < max ensures !On(b, max, p) {
        if max > 32 { ZeroHasNoBits(p / 8); ZeroHasNoBits(p % 8); } else { ZeroHasNoBits(p); }
      }
    } else {
      FfsIs(b.group);
      LowestIs(b.group);
      Bounds();
      if max > 32 {
        var k := Lowest(b.group);
        if k >= 32 { SmallHighBits(b.group, 32, k); }
        HighestInByte(b, max, k);
      }
      assert On(b, max, Highest(b, max));
    }
  }

  ghost predicate NoneOn(b: Bitmap, max: nat)
    requires |b.table| == 32 && max <= 256
  {
    forall p :: 0 <= p < max ==> !On(b, max, p)
  }

  ghost predicate SmallestOn(b: Bitmap, max: nat, p: nat)
    requires |b.table| == 32 && max <= 256
  {
    p < max && On(b, max, p) && forall q :: 0 <= q < p ==> !On(b, max, q)
  }

  lemma HighestInByte(b: Bitmap, max: nat, k: nat)
    requires Sound(b, max) && max > 32 && b.group != 0 && k < 32 && Ffs(b.group) == k + 1
    requires Bit(b.group, k) && forall j :: 0 <= j < k ==> !Bit(b.group, j)
    ensures Findable(b, max) && SmallestOn(b, max, Highest(b, max))
  {
    var t := b.table[k];
    FfsIs(t);
    LowestIs(t);
    Bounds();
    if Lowest(t) >= 8 { SmallHighBits(t, 8, Lowest(t)); }
    NoneBelow(b, max, k, Lowest(t));
  }

  lemma NoneBelow(b: Bitmap, max: nat, k: nat, i: nat)
    requires Sound(b, max) && max > 32 && k < 32 && i < 8 && k * 8 + i < max
    requires (forall j :: 0 <= j < k ==> !Bit(b.group, j)) && (forall j :: 0 <= j < i ==> !Bit(b.table[k], j))
    ensures forall q :: 0 <= q < k * 8 + i ==> !On(b, max, q)
  {
    forall q | 0 <= q < k * 8 + i ensures !On(b, max, q) {
      if q / 8 < k { assert b.table[q / 8] == 0; ZeroHasNoBits(q % 8); } else { assert q / 8 == k && q % 8 < i; }
    }
  }
}
