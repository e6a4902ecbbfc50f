/** 32-bit sizes and bytes, shared by the allocators. */
module Words {
  const WORD := 0x1_0000_0000

  newtype byte = x: int | 0 <= x < 256

  /** RT_ALIGN(n, 4) in 32-bit unsigned arithmetic. */
  function Align(n: nat): nat {
    (n + 3) % WORD / 4 * 4
  }

  lemma AlignTwice(n: nat)
    ensures Align(Align(n)) == Align(n)
  {
    var q := (n + 3) % WORD / 4;
    assert Align(n) == 4 * q && 4 * q + 3 < WORD;
    assert (4 * q + 3) / 4 == q;
  }

  function Max(a: int, b: int): int { if a < b then b else a }

  /** The first n bytes at p in the old memory are the first n bytes at q in the new one. */
  ghost predicate KeptData(m: seq<byte>, p: int, m': seq<byte>, q: int, n: int) {
    && 0 <= n && 0 <= p && p + n <= |m| && 0 <= q && q + n <= |m'|
    && m[p..p + n] == m'[q..q + n]
  }

  function Min(a: int, b: int): int { if a < b then a else b }
}
