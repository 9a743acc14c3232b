/** Which harts an inter-processor interrupt goes to: sbi_domain_get_assigned_hartmask
    (opensbi-1.2/lib/sbi/sbi_domain.c), sbi_hsm_hart_interruptible_mask
    (opensbi-1.2/lib/sbi/sbi_hsm.c) and sbi_ipi_send_many (opensbi-1.2/lib/sbi/sbi_ipi.c), over a
    snapshot of the hart states. */
module IpiFanout {
  import opened Common
  import opened Bits
  import opened BitWords
  import opened BitSearch
  import Hsm

  const MAX_HARTS: nat := 128

  /** The harts 0 .. |st| - 1; None where a hart id is not in use. */
  datatype Harts = Harts(members: seq<Word>, st: seq<Option<Hsm.St>>)
  predicate ValidHarts(c: Harts) { |c.members| == 2 && |c.st| <= MAX_HARTS }

  /** A hart of the domain that is started or suspended. */
  predicate Interruptible(c: Harts, h: nat)
    requires ValidHarts(c)
  {
    h < |c.st| && BitAt(c.members, h) && (c.st[h] == Some(Hsm.Started) || c.st[h] == Some(Hsm.Suspended))
  }

  /** w & v. */
  function AndBits(w: nat, v: nat): (r: nat)
    ensures r <= w
  {
    if w == 0 then 0 else 2 * AndBits(w / 2, v / 2) + (if w % 2 == 1 && v % 2 == 1 then 1 else 0)
  }

  lemma {:induction false} AndBit(w: nat, v: nat, i: nat)
    ensures Bit(AndBits(w, v), i) <==> Bit(w, i) && Bit(v, i)
  {
    if w == 0 {
      ZeroBits(i);
    } else if i > 0 {
      AndBit(w / 2, v / 2, i - 1);
    }
  }

  /** sbi_domain_get_assigned_hartmask: 64 bits of the mask from any position, over the boundary of
      the two words. */
  method AssignedMask(members: seq<Word>, hbase: nat) returns (ret: Word)
    requires |members| == 2 && hbase < MAX_HARTS
    ensures forall j: nat | j < 64 :: Bit(ret, j) <==> hbase + j < MAX_HARTS && BitAt(members, hbase + j)
  {
    hide Bit, BitAt, Pow2, KeepLow, ShiftRight;
    var bword, boff := hbase / 64, hbase % 64;
    var r: nat := ShiftRight(members[bword], boff);
    if boff != 0 && bword + 1 < 2 {
      r := r + Pow2(64 - boff) * KeepLow(members[bword + 1], boff);
    }
    NothingAbove(boff);
    Window(members[bword], if bword + 1 < 2 then members[bword + 1] else 0, boff, r);
    ret := r;
    WindowBits(members, hbase, ret);
  }

  lemma NothingAbove(off: nat)
    ensures KeepLow(0, off) == 0 && Pow2(64) * 0 == 0 && forall p: nat :: p * 0 == 0
  {
  }

  /** The upper bits of one word with the lower bits of the next above them. */
  lemma Window(w: Word, v: Word, off: nat, r: nat)
    requires off < 64 && r == ShiftRight(w, off) + Pow2(64 - off) * (if off == 0 then 0 else KeepLow(v, off))
    ensures r < WORD_END
    ensures forall j: nat | j < 64 :: Bit(r, j) <==> if j < 64 - off then Bit(w, j + off) else Bit(v, j + off - 64)
  {
    hide Bit, Pow2, KeepLow, ShiftRight;
    var high := if off == 0 then 0 else KeepLow(v, off);
    WindowFits(w, v, off, high);
    forall j: nat | j < 64
      ensures Bit(r, j) <==> if j < 64 - off then Bit(w, j + off) else Bit(v, j + off - 64)
    {
      JoinBits(ShiftRight(w, off), high, 64 - off, j);
      if j < 64 - off {
        ShiftBits(w, off, j);
      } else {
        LowBits(v, off, j + off - 64);
      }
    }
  }

  lemma WindowFits(w: Word, v: Word, off: nat, high: nat)
    requires off < 64 && high == if off == 0 then 0 else KeepLow(v, off)
    ensures ShiftRight(w, off) < Pow2(64 - off)
    ensures 0 <= ShiftRight(w, off) + Pow2(64 - off) * high < WORD_END
  {
    hide Pow2;
    Pow2Divides(off);
    Room(off);
    var p, n, q := Pow2(off), Pow2(64 - off), w / Pow2(off);
    assert w == p * q + w % p;
    Steps(p, q, n);
    Pow2Step(0);
    assert high < p;
    Steps(n, high, p);
    assert n * p == p * n;
  }

  lemma WindowBits(members: seq<Word>, hbase: nat, ret: Word)
    requires |members| == 2 && hbase < MAX_HARTS
    requires var next := if hbase / 64 + 1 < 2 then members[hbase / 64 + 1] else 0;
      forall j: nat | j < 64 :: Bit(ret, j) <==>
        if j < 64 - hbase % 64 then Bit(members[hbase / 64], j + hbase % 64) else Bit(next, j + hbase % 64 - 64)
    ensures forall j: nat | j < 64 :: Bit(ret, j) <==> hbase + j < MAX_HARTS && BitAt(members, hbase + j)
  {
    hide Bit;
    forall j: nat | j < 64
      ensures Bit(ret, j) <==> hbase + j < MAX_HARTS && BitAt(members, hbase + j)
    {
      var h := hbase + j;
      if j < 64 - hbase % 64 {
        assert h / 64 == hbase / 64 && h % 64 == j + hbase % 64;
      } else {
        assert h / 64 == hbase / 64 + 1 && h % 64 == j + hbase % 64 - 64;
        ZeroBits(j + hbase % 64 - 64);
      }
    }
  }

  /** sbi_hsm_hart_interruptible_mask: the interruptible harts among hbase .. hbase + 63. */
  method InterruptibleMask(c: Harts, hbase: nat) returns (ok: bool, out: Word)
    requires ValidHarts(c)
    ensures ok <==> hbase < |c.st|
    ensures !ok ==> out == 0
    ensures ok ==> forall j: nat | j < 64 :: Bit(out, j) <==> Interruptible(c, hbase + j)
  {
    hide Bit, BitAt, Pow2;
    out := 0;
    if |c.st| <= hbase {
      return false, 0;
    }
    var hend := if 64 < |c.st| - hbase then hbase + 64 else |c.st|;
    var dmask := AssignedMask(c.members, hbase);
    var mask: nat := 0;
    var i := hbase;
    Pow2Step(0);
    NoHartYet(c, hbase);
    while i < hend
      invariant hbase <= i <= hend && 0 <= mask < Pow2(i - hbase)
      invariant MaskTo(c, hbase, i, mask)
    {
      var j := i - hbase;
      Pow2Step(j);
      ghost var before := mask;
      if Bit(dmask, j) && (c.st[i] == Some(Hsm.Started) || c.st[i] == Some(Hsm.Suspended)) {
        mask := mask + Pow2(j);
      }
      MaskNext(c, hbase, i, before, mask);
      i := i + 1;
    }
    SmallMask(mask, i - hbase);
    ok, out := true, mask;
  }

  /** The mask holds the interruptible harts among hbase .. i - 1. */
  ghost predicate MaskTo(c: Harts, hbase: nat, i: nat, mask: nat)
    requires ValidHarts(c)
  {
    forall j: nat :: Bit(mask, j) <==> hbase + j < i && Interruptible(c, hbase + j)
  }

  lemma NoHartYet(c: Harts, hbase: nat)
    requires ValidHarts(c)
    ensures MaskTo(c, hbase, hbase, 0)
  {
    hide Bit;
    forall j: nat ensures !Bit(0, j) { ZeroBits(j); }
  }

  lemma MaskNext(c: Harts, hbase: nat, i: nat, before: nat, after: nat)
    requires ValidHarts(c) && hbase <= i && before < Pow2(i - hbase) && MaskTo(c, hbase, i, before)
    requires after == if Interruptible(c, i) then before + Pow2(i - hbase) else before
    ensures MaskTo(c, hbase, i + 1, after)
  {
    hide Bit, Pow2, Interruptible;
    WithBit(before, i - hbase);
    forall j: nat
      ensures Bit(after, j) <==> hbase + j < i + 1 && Interruptible(c, hbase + j)
    {
      assert Bit(before, j) <==> hbase + j < i && Interruptible(c, hbase + j);
    }
  }

  lemma WithBit(mask: nat, j: nat)
    requires mask < Pow2(j)
    ensures forall k: nat :: Bit(mask + Pow2(j), k) <==> Bit(mask, k) || k == j
    ensures !Bit(mask, j)
  {
    hide Pow2;
    var r := mask + Pow2(j);
    assert r == mask + Pow2(j) * 1 && mask == mask + Pow2(j) * 0;
    forall k: nat
      ensures Bit(r, k) <==> Bit(mask, k) || k == j
      ensures k >= j ==> !Bit(mask, k)
    {
      JoinBits(mask, 1, j, k);
      JoinBits(mask, 0, j, k);
      if k >= j {
        ZeroBits(k - j);
        OneBits(k - j);
      }
    }
  }

  lemma OneBits(i: nat)
    ensures Bit(1, i) <==> i == 0
  {
    if i > 0 {
      ZeroBits(i - 1);
    }
  }

  lemma SmallMask(mask: nat, j: nat)
    requires mask < Pow2(j) && j <= 64
    ensures mask < WORD_END
  {
    Pow2Word();
    if j < 64 {
      Pow2Less(j, 64);
    }
  }

  // ---------------------------------------------------------------- sending

  ghost predicate Ascending(s: seq<nat>) { forall k, l | 0 <= k < l < |s| :: s[k] < s[l] }

  /** The loop that shifts the mask out: one call for each set bit, in ascending order. */
  method SendMask(mask: Word, hbase: nat) returns (sent: seq<nat>)
    ensures Ascending(sent)
    ensures forall h: nat :: h in sent <==> h >= hbase && Bit(mask, h - hbase)
  {
    sent := [];
    var i, m := hbase, mask;
    while m != 0
      invariant hbase <= i && Ascending(sent) && forall k | 0 <= k < |sent| :: sent[k] < i
      invariant forall j: nat :: Bit(m, j) <==> Bit(mask, j + (i - hbase))
      invariant forall h: nat :: h in sent <==> hbase <= h < i && Bit(mask, h - hbase)
      decreases m
    {
      SendNext(mask, m, hbase, i);
      if m % 2 == 1 {
        sent := sent + [i];
      }
      i, m := i + 1, m / 2;
    }
    NoneLeft(mask, hbase, i);
  }

  lemma SendNext(mask: nat, m: nat, hbase: nat, i: nat)
    requires hbase <= i && forall j: nat :: Bit(m, j) <==> Bit(mask, j + (i - hbase))
    ensures Bit(mask, i - hbase) <==> m % 2 == 1
    ensures forall j: nat :: Bit(m / 2, j) <==> Bit(mask, j + (i + 1 - hbase))
  {
    assert Bit(m, 0) <==> Bit(mask, 0 + (i - hbase));
    forall j: nat ensures Bit(m / 2, j) <==> Bit(mask, j + (i + 1 - hbase)) { assert Bit(m, j + 1) <==> Bit(m / 2, j); }
  }

  lemma NoneLeft(mask: nat, hbase: nat, i: nat)
    requires hbase <= i && forall j: nat :: Bit(0, j) <==> Bit(mask, j + (i - hbase))
    ensures forall j: nat | j >= i - hbase :: !Bit(mask, j)
  {
    hide Bit;
    forall j: nat | j >= i - hbase
      ensures !Bit(mask, j)
    {
      var k: nat := j - (i - hbase);
      ZeroBits(k);
      assert Bit(0, k) <==> Bit(mask, k + (i - hbase));
    }
  }

  /** sbi_ipi_send_many: each selected interruptible hart of the domain gets exactly one call. With
      hbase -1 (here None) all of them are selected, otherwise those whose bit is set in hmask. */
  method SendMany(c: Harts, hmask: Word, hbase: Option<nat>) returns (ok: bool, sent: seq<nat>)
    requires ValidHarts(c)
    ensures Ascending(sent)
    ensures ok <==> hbase.None? || hbase.value < |c.st|
    ensures hbase.None? ==> forall h: nat :: h in sent <==> Interruptible(c, h)
    ensures hbase.Some? && ok ==>
      forall h: nat :: h in sent <==>
        Interruptible(c, h) && hbase.value <= h < hbase.value + 64 && Bit(hmask, h - hbase.value)
    ensures !ok ==> sent == []
  {
    hide Bit, Interruptible;
    if hbase.Some? {
      var m: Word;
      ok, m := InterruptibleMask(c, hbase.value);
      if !ok {
        return false, [];
      }
      ghost var m0 := m;
      m := AndBits(m, hmask);
      sent := SendMask(m, hbase.value);
      Selected(c, m0, hmask, hbase.value, m, sent);
    } else {
      sent := SendAll(c);
      ok := true;
    }
  }

  lemma Selected(c: Harts, m0: Word, hmask: Word, hbase: nat, m: Word, sent: seq<nat>)
    requires ValidHarts(c) && m == AndBits(m0, hmask)
    requires forall j: nat | j < 64 :: Bit(m0, j) <==> Interruptible(c, hbase + j)
    requires forall h: nat :: h in sent <==> h >= hbase && Bit(m, h - hbase)
    ensures forall h: nat :: h in sent <==> Interruptible(c, h) && hbase <= h < hbase + 64 && Bit(hmask, h - hbase)
  {
    hide Bit, Interruptible, AndBits;
    forall h: nat
      ensures h in sent <==> Interruptible(c, h) && hbase <= h < hbase + 64 && Bit(hmask, h - hbase)
    {
      if h >= hbase {
        AndBit(m0, hmask, h - hbase);
        if h >= hbase + 64 {
          WordEnds(m0, h - hbase);
        }
      }
    }
  }

  lemma WordEnds(w: Word, j: nat)
    requires j >= 64
    ensures !Bit(w, j)
  {
    hide Bit, Pow2;
    Pow2Word();
    JoinBits(w, 0, 64, j);
    ZeroBits(j - 64);
  }

  /** The loop for hbase -1: 64 harts at a time until the mask function reports the end. */
  method SendAll(c: Harts) returns (sent: seq<nat>)
    requires ValidHarts(c)
    ensures Ascending(sent) && forall h: nat :: h in sent <==> Interruptible(c, h)
  {
    hide Bit, Interruptible;
    sent := [];
    var hbase := 0;
    var ok, m := InterruptibleMask(c, hbase);
    while ok
      invariant ok <==> hbase < |c.st|
      invariant ok ==> forall j: nat | j < 64 :: Bit(m, j) <==> Interruptible(c, hbase + j)
      invariant Ascending(sent) && forall k | 0 <= k < |sent| :: sent[k] < hbase
      invariant forall h: nat :: h in sent <==> h < hbase && Interruptible(c, h)
      decreases |c.st| + 64 - hbase
    {
      var more := SendMask(m, hbase);
      Block(c, m, hbase, more);
      sent := sent + more;
      hbase := hbase + 64;
      ok, m := InterruptibleMask(c, hbase);
    }
    Beyond(c, hbase);
  }

  lemma Block(c: Harts, m: Word, hbase: nat, more: seq<nat>)
    requires ValidHarts(c) && forall j: nat | j < 64 :: Bit(m, j) <==> Interruptible(c, hbase + j)
    requires forall h: nat :: h in more <==> h >= hbase && Bit(m, h - hbase)
    ensures forall h: nat :: h in more <==> hbase <= h < hbase + 64 && Interruptible(c, h)
    ensures forall k | 0 <= k < |more| :: hbase <= more[k] < hbase + 64
  {
    hide Bit, Interruptible;
    forall h: nat
      ensures h in more <==> hbase <= h < hbase + 64 && Interruptible(c, h)
    {
      if h >= hbase {
        if h < hbase + 64 {
          assert Bit(m, h - hbase) <==> Interruptible(c, hbase + (h - hbase));
        } else {
          WordEnds(m, h - hbase);
        }
      }
    }
    forall k | 0 <= k < |more| ensures hbase <= more[k] < hbase + 64 { assert more[k] in more; }
  }

  lemma Beyond(c: Harts, hbase: nat)
    requires ValidHarts(c) && |c.st| <= hbase
    ensures forall h: nat | h >= hbase :: !Interruptible(c, h)
  {
  }
}
