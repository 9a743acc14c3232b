/** Physical memory protection entries: pmp_set, pmp_get and ctz (opensbi-1.2/lib/sbi/riscv_asm.c),
    and what the hardware makes of an entry (section 3.7.1 of the RISC-V Privileged Architecture). */
module Pmp {
  import opened Common
  import opened Bits

  const PMP_COUNT: nat := 64
  // ---------------------------------------------------------------- addresses

  /** The address register pmp_set writes: for a range of 2^(k + 2) bytes the block number over k
      low bits that are 0 followed by ones. */
  function Encode(a: Word, log2len: nat): nat
    requires 2 <= log2len <= 64
  {
    if log2len == 2 then a / 4
    else if log2len == 64 then WORD_END - 1
    else NapotAddress(a / 4, Pow2(log2len - 2))
  }

  function NapotAddress(x: nat, p: nat): nat
    requires p > 0
  {
    p * (x / p) + (p - 1) / 2
  }

  lemma EncodeFits(a: Word, log2len: nat)
    requires 2 <= log2len <= 64
    ensures Encode(a, log2len) < WORD_END && (log2len < 64 ==> Encode(a, log2len) < WORD_END / 4)
  {
    hide Pow2;
    if 2 < log2len < 64 {
      var k := log2len - 2;
      QuarterDivides(k);
      NapotFits(a / 4, Pow2(k), WORD_END / 4 / Pow2(k));
    }
  }

  lemma NapotFits(x: nat, p: nat, n: nat)
    requires p > 0 && x < p * n
    ensures NapotAddress(x, p) < p * n
  {
    assert x == p * (x / p) + x % p;
    Steps(p, x / p, n);
  }

  lemma QuarterDivides(k: nat)
    requires k <= 62
    ensures WORD_END / 4 == Pow2(k) * (WORD_END / 4 / Pow2(k))
  {
    Pow2Word();
    Pow2Add(k, 62 - k);
    hide Pow2;
    var p, q := Pow2(k), Pow2(62 - k);
    assert WORD_END / 4 == p * q;
    Quotient(WORD_END / 4, q, p);
  }

  /** How many ones a number ends in. */
  function TrailingOnes(v: nat): nat { if v % 2 == 1 then 1 + TrailingOnes(v / 2) else 0 }

  function TrailingZeros(x: nat): nat
    requires x > 0
  {
    if x % 2 == 0 then 1 + TrailingZeros(x / 2) else 0
  }

  /** ctz. */
  method Ctz(x: Word) returns (r: nat)
    ensures r == if x == 0 then 64 else TrailingZeros(x)
  {
    if x == 0 {
      return 64;
    }
    r := 0;
    var y := x;
    while y % 2 == 0
      invariant y > 0 && r + TrailingZeros(y) == TrailingZeros(x)
      decreases y
    {
      r := r + 1;
      y := y / 2;
    }
  }

  // ---------------------------------------------------------------- round trip of the address

  /** What pmp_get reads from an address register. */
  function DecodeAddr(v: Word): nat {
    if v == WORD_END - 1 then 0 else Pow2(TrailingOnes(v)) * (v / Pow2(TrailingOnes(v))) * 4
  }

  function DecodeLen(v: Word): nat {
    if v == WORD_END - 1 then 64 else TrailingOnes(v) + 3
  }

  lemma {:induction false} OnesStep(v: nat, x: nat)
    ensures v == 2 * x ==> TrailingOnes(v) == 0
    ensures v == 2 * x + 1 ==> TrailingOnes(v) == 1 + TrailingOnes(x)
  {
    assert v == 2 * x + 1 ==> v % 2 == 1 && v / 2 == x;
  }

  lemma {:induction false} OnesOf(q: nat, k: nat)
    requires k >= 1
    ensures TrailingOnes(Pow2(k) * q + Pow2(k - 1) - 1) == k - 1
  {
    hide Pow2, TrailingOnes;
    Pow2Step(k - 1);
    var p := Pow2(k - 1);
    var pq := p * q;
    assert Pow2(k) * q == 2 * pq;
    if k == 1 {
      OnesStep(2 * pq, pq);
    } else {
      OnesOf(q, k - 1);
      Pow2Step(k - 2);
      OnesStep(2 * pq + p - 1, pq + Pow2(k - 2) - 1);
    }
  }

  /** A naturally aligned range comes back from its encoding. */
  lemma AddressRoundTrip(a: Word, log2len: nat)
    requires 3 <= log2len <= 64 && (if log2len == 64 then a == 0 else a % Pow2(log2len) == 0)
    ensures Encode(a, log2len) < WORD_END
    ensures DecodeAddr(Encode(a, log2len)) == a && DecodeLen(Encode(a, log2len)) == log2len
  {
    hide Pow2, TrailingOnes, Encode;
    EncodeFits(a, log2len);
    if log2len < 64 {
      EncodeOnes(a, log2len);
      EncodeBlock(a, log2len);
    } else {
      EncodeAll(a);
    }
  }

  lemma EncodeAll(a: Word)
    ensures Encode(a, 64) == WORD_END - 1
  {
  }

  lemma EncodeOnes(a: Word, log2len: nat)
    requires 3 <= log2len < 64
    ensures TrailingOnes(Encode(a, log2len)) == log2len - 3
  {
    hide Pow2, TrailingOnes;
    Pow2Step(log2len - 3);
    OnesOf(a / 4 / Pow2(log2len - 2), log2len - 2);
  }

  lemma EncodeBlock(a: Word, log2len: nat)
    requires 3 <= log2len < 64 && a % Pow2(log2len) == 0
    ensures var h := Pow2(log2len - 3); h * (Encode(a, log2len) / h) * 4 == a
  {
    hide Pow2, NapotAddress;
    EightPow(log2len - 3);
    Pow2Step(log2len - 3);
    BlockNumber(a, Pow2(log2len - 3), Pow2(log2len - 2));
  }

  lemma EightPow(n: nat)
    ensures Pow2(n + 3) == 8 * Pow2(n)
  {
    hide Pow2;
    Pow2Step(n);
    Pow2Step(n + 1);
    Pow2Step(n + 2);
  }

  lemma Scale(c: nat, h: nat, q: nat)
    ensures (c * h) * q == c * (h * q)
  {
  }

  /** The arithmetic of the round trip, for a range of 8h bytes. */
  lemma BlockNumber(a: nat, h: nat, p: nat)
    requires h > 0 && p == 2 * h && a % (8 * h) == 0
    ensures var v := NapotAddress(a / 4, p);
      && v == p * (a / 4 / p) + h - 1
      && h * (v / h) * 4 == a
  {
    var q := a / (8 * h);
    var hq := h * q;
    Scale(8, h, q);
    Scale(2, h, q);
    assert a / 4 == p * q;
    Quotient(a / 4, q, p);
    TopHalf(h, q, 2 * hq + h - 1);
  }

  lemma TopHalf(h: nat, q: nat, v: nat)
    requires h > 0 && v == 2 * (h * q) + h - 1
    ensures h * (v / h) == 2 * (h * q)
  {
    assert h * (2 * q) == 2 * (h * q);
    Quotient(v, 2 * q, h);
  }

  /** The ones at the end are what ctz counts in the complement. */
  lemma {:induction false} CtzIsOnes(v: nat, bits: nat)
    requires v < Pow2(bits) - 1
    ensures TrailingZeros(Pow2(bits) - 1 - v) == TrailingOnes(v)
  {
    if v % 2 == 1 {
      Pow2Step(bits - 1);
      CtzIsOnes(v / 2, bits - 1);
      assert (Pow2(bits) - 1 - v) / 2 == Pow2(bits - 1) - 1 - v / 2;
    }
  }
}
