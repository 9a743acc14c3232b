/** The protection registers: setting and reading entries (opensbi-1.2/lib/sbi/riscv_asm.c),
    programming a domain's regions (opensbi-1.2/lib/sbi/sbi_hart.c), and the hardware's decision
    (section 3.7.1 of the RISC-V Privileged Architecture). */
module PmpEntries {
  import opened Common
  import opened Bits
  import opened Domain
  import opened DomainRoot
  import opened PmpBytes
  import opened Pmp

  datatype Entry = Entry(prot: bv64, v: Word)

  /** Entry n as the registers hold it. */
  function EntryAt(cfg: seq<bv64>, addr: seq<Word>, n: nat): Entry
    requires |cfg| == 8 && |addr| == PMP_COUNT && n < PMP_COUNT
  {
    Entry(ByteAt(cfg[n / 8], Shift(n)), addr[n])
  }

  /** The registers after one entry was written. */
  ghost predicate OneWritten(cfg0: seq<bv64>, addr0: seq<Word>, cfg: seq<bv64>, addr: seq<Word>, n: nat, e: Entry) {
    && |cfg0| == |cfg| == 8 && |addr0| == |addr| == PMP_COUNT && n < PMP_COUNT
    && EntryAt(cfg, addr, n) == e
    && forall m: nat | m < PMP_COUNT && m != n :: EntryAt(cfg, addr, m) == EntryAt(cfg0, addr0, m)
  }

  lemma WriteOne(cfg: seq<bv64>, addr: seq<Word>, n: nat, prot: bv64, v: Word)
    requires |cfg| == 8 && |addr| == PMP_COUNT && n < PMP_COUNT
    ensures OneWritten(cfg, addr, cfg[n / 8 := WithByte(cfg[n / 8], Shift(n), prot)], addr[n := v], n,
                       Entry(prot & 0xff, v))
  {
    hide ByteAt, WithByte, Shift;
    var cfg' := cfg[n / 8 := WithByte(cfg[n / 8], Shift(n), prot)];
    var addr' := addr[n := v];
    ByteWritten(cfg[n / 8], Shift(n), prot);
    forall m: nat | m < PMP_COUNT && m != n
      ensures EntryAt(cfg', addr', m) == EntryAt(cfg, addr, m)
    {
      if m / 8 == n / 8 {
        assert m % 8 != n % 8;
        ShiftsDiffer(m, n);
        OtherBytes(cfg[n / 8], Shift(n), prot, Shift(m));
      }
    }
  }

  class Registers {
    var cfg: seq<bv64>
    var addr: seq<Word>

    predicate Valid()
      reads this
    {
      |cfg| == 8 && |addr| == PMP_COUNT
    }

    function At(n: nat): Entry
      requires Valid() && n < PMP_COUNT
      reads this
    {
      EntryAt(cfg, addr, n)
    }

    /** All entries off, as after reset. */
    constructor ()
      ensures Valid() && forall n: nat | n < PMP_COUNT :: At(n) == Entry(0, 0)
    {
      cfg, addr := seq(8, _ => 0), seq(PMP_COUNT, _ => 0);
      new;
      assert forall n: nat | n < PMP_COUNT :: ByteAt(0, Shift(n)) == 0;
    }

    /** pmp_set. */
    method Set(n: nat, prot: bv64, a: Word, log2len: nat) returns (ok: bool)
      requires Valid()
      modifies this
      ensures Valid() && (ok <==> n < PMP_COUNT && 2 <= log2len <= 64)
      ensures !ok ==> cfg == old(cfg) && addr == old(addr)
      ensures ok ==>
        && Encode(a, log2len) < WORD_END
        && OneWritten(old(cfg), old(addr), cfg, addr, n, Entry(WithMode(prot, log2len) & 0xff, Encode(a, log2len)))
    {
      hide OneWritten, Encode, WithMode, WithByte, Shift, ByteAt, Pow2;
      if n >= PMP_COUNT || log2len > 64 || log2len < 2 {
        return false;
      }
      var p := WithMode(prot, log2len);
      EncodeFits(a, log2len);
      WriteOne(cfg, addr, n, p, Encode(a, log2len));
      cfg := cfg[n / 8 := WithByte(cfg[n / 8], Shift(n), p)];
      addr := addr[n := Encode(a, log2len)];
      ok := true;
    }

    /** pmp_get. */
    method Get(n: nat) returns (ok: bool, prot: bv64, a: nat, log2len: nat)
      requires Valid()
      ensures ok <==> n < PMP_COUNT
      ensures ok ==> Decoded(At(n)) == (prot, a, log2len)
    {
      hide Shift, ByteAt, Pow2, TrailingOnes, TrailingZeros;
      prot, a, log2len := 0, 0, 0;
      if n >= PMP_COUNT {
        return false, prot, a, log2len;
      }
      prot := ByteAt(cfg[n / 8], Shift(n));
      var v := addr[n];
      if prot & PMP_A == NAPOT {
        if v == WORD_END - 1 {
          a, log2len := 0, 64;
        } else {
          var t := Ctz(WORD_END - 1 - v);
          CtzOfComplement(v);
          a, log2len := Pow2(t) * (v / Pow2(t)) * 4 % WORD_END, t + 3;
        }
      } else {
        a, log2len := v * 4 % WORD_END, 2;
      }
      ok := true;
    }
  }

  lemma CtzOfComplement(v: Word)
    requires v != WORD_END - 1
    ensures TrailingZeros(WORD_END - 1 - v) == TrailingOnes(v)
  {
    Pow2Word();
    CtzIsOnes(v, 64);
  }

  /** What pmp_get makes of an entry. */
  function Decoded(e: Entry): (bv64, nat, nat) {
    if e.prot & PMP_A == NAPOT then (e.prot, DecodeAddr(e.v) % WORD_END, DecodeLen(e.v))
    else (e.prot, e.v * 4 % WORD_END, 2)
  }

  /** pmp_get after pmp_set: the address and the length come back, the protection byte with its A
      field set; every other entry is as before. */
  lemma RoundTrip(cfg0: seq<bv64>, addr0: seq<Word>, cfg: seq<bv64>, addr: seq<Word>, n: nat, prot: bv64, a: Word,
                  log2len: nat)
    requires 2 <= log2len <= 64 && Encode(a, log2len) < WORD_END
    requires if log2len == 64 then a == 0 else a % Pow2(log2len) == 0
    requires OneWritten(cfg0, addr0, cfg, addr, n, Entry(WithMode(prot, log2len) & 0xff, Encode(a, log2len)))
    ensures Decoded(EntryAt(cfg, addr, n)) == (WithMode(prot, log2len) & 0xff, a, log2len)
    ensures forall m: nat | m < PMP_COUNT && m != n ::
      Decoded(EntryAt(cfg, addr, m)) == Decoded(EntryAt(cfg0, addr0, m))
  {
    hide *;
    ModeStored(prot, log2len);
    DecodedNew(prot, a, log2len);
    OneWrittenParts(cfg0, addr0, cfg, addr, n, Entry(WithMode(prot, log2len) & 0xff, Encode(a, log2len)));
  }

  lemma OneWrittenParts(cfg0: seq<bv64>, addr0: seq<Word>, cfg: seq<bv64>, addr: seq<Word>, n: nat, e: Entry)
    requires OneWritten(cfg0, addr0, cfg, addr, n, e)
    ensures |cfg0| == |cfg| == 8 && |addr0| == |addr| == PMP_COUNT && n < PMP_COUNT
    ensures EntryAt(cfg, addr, n) == e
    ensures forall m: nat | m < PMP_COUNT && m != n :: EntryAt(cfg, addr, m) == EntryAt(cfg0, addr0, m)
  {
  }

  lemma DecodedNew(prot: bv64, a: Word, log2len: nat)
    requires 2 <= log2len <= 64 && Encode(a, log2len) < WORD_END
    requires if log2len == 64 then a == 0 else a % Pow2(log2len) == 0
    ensures Decoded(Entry(WithMode(prot, log2len) & 0xff, Encode(a, log2len))) ==
      (WithMode(prot, log2len) & 0xff, a, log2len)
  {
    hide WithMode, Encode, DecodeAddr, DecodeLen, Pow2;
    ModeStored(prot, log2len);
    if log2len == 2 {
      EncodeFour(a);
    } else {
      AddressRoundTrip(a, log2len);
    }
  }

  lemma EncodeFour(a: Word)
    requires a % Pow2(2) == 0
    ensures Encode(a, 2) * 4 == a
  {
    assert Pow2(2) == 4;
  }

  // ---------------------------------------------------------------- what the hardware does

  predicate EntryOff(e: Entry) { e.prot & PMP_A == 0 }

  /** Whether an entry that is off, NA4 or NAPOT matches an address: a NAPOT entry compares the bits
      above the zero that ends its trailing ones. */
  function EntryMatches(e: Entry, x: Word): bool {
    if e.prot & PMP_A == NA4 then x / 4 == e.v
    else if e.prot & PMP_A == NAPOT then
      e.v == WORD_END - 1 || x / 4 / Pow2(TrailingOnes(e.v) + 1) == e.v / Pow2(TrailingOnes(e.v) + 1)
    else false
  }

  /** The L bit: the entry also binds M-mode. */
  predicate EntryLocked(e: Entry) { e.prot & 0x80 != 0 }

  predicate EntryGrants(e: Entry, acc: Access) {
    && (acc.r ==> e.prot & 1 != 0) && (acc.w ==> e.prot & 2 != 0) && (acc.x ==> e.prot & 4 != 0)
  }

  /** S- and U-mode: the lowest-numbered matching entry decides; without one access fails. */
  function HardwareAllows(es: seq<Entry>, x: Word, acc: Access): bool {
    if es == [] then false
    else if EntryMatches(es[0], x) then EntryGrants(es[0], acc)
    else HardwareAllows(es[1..], x, acc)
  }

  /** M-mode: the lowest-numbered matching entry decides if it is locked; otherwise access succeeds. */
  function MachineAllows(es: seq<Entry>, x: Word, acc: Access): bool {
    if es == [] then true
    else if EntryMatches(es[0], x) then EntryLocked(es[0]) ==> EntryGrants(es[0], acc)
    else MachineAllows(es[1..], x, acc)
  }

  /** The protection bits sbi_hart_pmp_configure derives from a region's flags. */
  function ProtOf(f: Flags): bv64 {
    (if f.r then 1 else 0) | (if f.w then 2 else 0) | (if f.x then 4 else 0) | (if f.m then 0x80 else 0)
  }

  /** The entry for a region. */
  function EntryOf(r: Region): Entry
    requires ValidRegion(r)
  {
    EncodeFits(r.base, r.order);
    Entry(WithMode(ProtOf(r.flags), r.order) & 0xff, Encode(r.base, r.order))
  }

  /** The entry for a region grants the region's rights, and binds M-mode if the region does. The
      software check also tells devices from memory, which an entry cannot. */
  lemma EntryOfGrants(r: Region, acc: Access)
    requires ValidRegion(r)
    ensures EntryGrants(EntryOf(r), acc) <==>
      (acc.r ==> r.flags.r) && (acc.w ==> r.flags.w) && (acc.x ==> r.flags.x)
    ensures EntryLocked(EntryOf(r)) <==> r.flags.m
    ensures Grants(r.flags, acc) <==> EntryGrants(EntryOf(r), acc) && acc.mmio == r.flags.mmio
  {
    ProtBits(r.flags, r.order);
  }

  lemma ProtBits(f: Flags, order: nat)
    ensures var p := WithMode(ProtOf(f), order) & 0xff;
      && (p & 1 != 0 <==> f.r) && (p & 2 != 0 <==> f.w) && (p & 4 != 0 <==> f.x) && (p & 0x80 != 0 <==> f.m)
      && (order != 2 ==> p & PMP_A == NAPOT)
  {
    var q := ProtOf(f);
    BitsKept(q, order);
  }

  lemma BitsKept(q: bv64, order: nat)
    ensures var p := WithMode(q, order) & 0xff;
      && p & 1 == q & 1 && p & 2 == q & 2 && p & 4 == q & 4 && p & 0x80 == q & 0x80
      && (order != 2 ==> p & PMP_A == NAPOT)
  {
  }

  /** The entry for a region matches exactly the region's addresses. */
  lemma EntryOfMatches(r: Region, x: Word)
    requires ValidRegion(r)
    ensures EntryMatches(EntryOf(r), x) <==> Contains(r, x)
  {
    hide WithMode, ProtOf, TrailingOnes, Pow2, Encode;
    ProtBits(r.flags, r.order);
    EncodeFits(r.base, r.order);
    Pow2Word();
    if r.order == 64 {
      EncodeAll(r.base);
    } else {
      EncodeOnes(r.base, r.order);
      BlockMatches(r.base, r.order, x);
    }
  }

  /** An entry set for four bytes, which no region has, matches exactly those. */
  lemma FourBytesMatch(prot: bv64, a: Word, x: Word)
    requires a % 4 == 0
    ensures Encode(a, 2) < WORD_END
    ensures EntryMatches(Entry(WithMode(prot, 2) & 0xff, Encode(a, 2)), x) <==> a <= x < a + 4
  {
    hide WithMode, Pow2, TrailingOnes;
    ModeStored(prot, 2);
    assert Pow2(2) == 4 by { Pow2Step(0); Pow2Step(1); }
    EncodeFour(a);
  }

  lemma BlockMatches(a: Word, order: nat, x: Word)
    requires 3 <= order < 64 && a % Pow2(order) == 0
    ensures x / 4 / Pow2(order - 2) == Encode(a, order) / Pow2(order - 2) <==> a <= x < a + Pow2(order)
  {
    hide Pow2, NapotAddress;
    EightPow(order - 3);
    Pow2Step(order - 3);
    BlockBits(a, x, Pow2(order - 3), Pow2(order - 2), Pow2(order));
  }

  /** The arithmetic of matching, for a range of P = 4p = 8h bytes. */
  lemma BlockBits(a: nat, x: nat, h: nat, p: nat, P: nat)
    requires h > 0 && p == 2 * h && P == 8 * h && a % P == 0
    ensures x / 4 / p == NapotAddress(a / 4, p) / p <==> a <= x < a + P
  {
    BlockNumber(a, h, p);
    var q := a / P;
    assert a == P * q;
    var v := NapotAddress(a / 4, p);
    assert a / 4 == p * q;
    Quotient(a / 4, q, p);
    Quotient(v, q, p);
    var y := x / 4;
    assert y == p * (y / p) + y % p;
    Steps(p, y / p, q);
    InBlock(x, p, P, q);
  }

  /** Dividing by 4 does not blur the bounds of a block of 4p bytes. */
  lemma InBlock(x: nat, p: nat, P: nat, q: nat)
    requires p > 0 && P == 4 * p
    ensures p * q <= x / 4 < p * q + p <==> P * q <= x < P * q + P
  {
    assert P * q == 4 * (p * q);
  }

  // ---------------------------------------------------------------- programming a domain

  /** A region the hardware can hold: not finer than its granularity, and in reach of its address
      bits. */
  predicate Holdable(r: Region, granLog2: nat, addrBits: nat) {
    granLog2 <= r.order && r.base / 4 < Pow2(addrBits) - 1
  }

  /** The regions that get an entry, in order. */
  function Programmed(s: seq<Region>, granLog2: nat, addrBits: nat, room: nat): (t: seq<Region>)
    ensures |t| <= |s| && |t| <= room && (AllValid(s) ==> AllValid(t))
  {
    if s == [] || room == 0 then []
    else if Holdable(s[0], granLog2, addrBits) then [s[0]] + Programmed(s[1..], granLog2, addrBits, room - 1)
    else Programmed(s[1..], granLog2, addrBits, room)
  }

  /** Independently: a region of at least the granularity whose base is below the last word the
      address register can name. */
  ghost predicate InRange(r: Region, granLog2: nat, addrBits: nat) {
    Pow2(granLog2) <= Pow2(r.order) && r.base < 4 * (Pow2(addrBits) - 1)
  }

  lemma HoldableMeans(r: Region, granLog2: nat, addrBits: nat)
    ensures Holdable(r, granLog2, addrBits) <==> InRange(r, granLog2, addrBits)
  {
    hide Pow2;
    if granLog2 < r.order {
      Pow2Less(granLog2, r.order);
    } else if r.order < granLog2 {
      Pow2Less(r.order, granLog2);
    }
  }

  /** How many regions of a list are in range. */
  ghost function Fitting(s: seq<Region>, granLog2: nat, addrBits: nat): nat {
    if s == [] then 0
    else (if InRange(s[0], granLog2, addrBits) then 1 else 0) + Fitting(s[1..], granLog2, addrBits)
  }

  /** As many entries as regions in range, or as there is room. */
  lemma {:induction false} ProgrammedCount(s: seq<Region>, granLog2: nat, addrBits: nat, room: nat)
    ensures var c := Fitting(s, granLog2, addrBits);
      |Programmed(s, granLog2, addrBits, room)| == if c <= room then c else room
  {
    hide Holdable, InRange;
    if s != [] && room > 0 {
      HoldableMeans(s[0], granLog2, addrBits);
      if Holdable(s[0], granLog2, addrBits) {
        ProgrammedCount(s[1..], granLog2, addrBits, room - 1);
      } else {
        ProgrammedCount(s[1..], granLog2, addrBits, room);
      }
    }
  }

  /** A region in range takes the entry after those of the earlier regions in range. */
  lemma {:induction false} ProgrammedPlace(s: seq<Region>, granLog2: nat, addrBits: nat, room: nat, i: nat)
    requires i < |s| && InRange(s[i], granLog2, addrBits) && Fitting(s[..i], granLog2, addrBits) < room
    ensures var t := Programmed(s, granLog2, addrBits, room);
      var n := Fitting(s[..i], granLog2, addrBits);
      n < |t| && t[n] == s[i]
  {
    hide Holdable, InRange;
    HoldableMeans(s[0], granLog2, addrBits);
    if i > 0 {
      assert s[..i][1..] == s[1..][..i - 1];
      if Holdable(s[0], granLog2, addrBits) {
        ProgrammedPlace(s[1..], granLog2, addrBits, room - 1, i - 1);
      } else {
        ProgrammedPlace(s[1..], granLog2, addrBits, room, i - 1);
      }
    }
  }

  /** The first k entries hold the first k regions of t, the others are as before. */
  ghost predicate EntriesAre(cfg0: seq<bv64>, addr0: seq<Word>, cfg: seq<bv64>, addr: seq<Word>, t: seq<Region>,
                             k: nat) {
    && |cfg0| == |cfg| == 8 && |addr0| == |addr| == PMP_COUNT && AllValid(t) && k <= |t| <= PMP_COUNT
    && forall n: nat | n < PMP_COUNT ::
      EntryAt(cfg, addr, n) == if n < k then EntryOf(t[n]) else EntryAt(cfg0, addr0, n)
  }

  /** Region by region: the n-th region in range is in entry n as long as there are entries, the
      others are in none, and the entries behind them are as before. */
  ghost predicate Placed(cfg0: seq<bv64>, addr0: seq<Word>, cfg: seq<bv64>, addr: seq<Word>, s: seq<Region>,
                         pmpCount: nat, granLog2: nat, addrBits: nat)
    requires |cfg0| == |cfg| == 8 && |addr0| == |addr| == PMP_COUNT && AllValid(s) && pmpCount <= PMP_COUNT
  {
    && (forall i: nat |
          i < |s| && InRange(s[i], granLog2, addrBits) && Fitting(s[..i], granLog2, addrBits) < pmpCount ::
          EntryAt(cfg, addr, Fitting(s[..i], granLog2, addrBits)) == EntryOf(s[i]))
    && (forall n: nat | n < PMP_COUNT && (n >= pmpCount || n >= Fitting(s, granLog2, addrBits)) ::
          EntryAt(cfg, addr, n) == EntryAt(cfg0, addr0, n))
  }

  lemma EntriesPlaced(cfg0: seq<bv64>, addr0: seq<Word>, cfg: seq<bv64>, addr: seq<Word>, s: seq<Region>,
                      pmpCount: nat, granLog2: nat, addrBits: nat, t: seq<Region>)
    requires AllValid(s) && pmpCount <= PMP_COUNT && t == Programmed(s, granLog2, addrBits, pmpCount)
    requires EntriesAre(cfg0, addr0, cfg, addr, t, |t|)
    ensures Placed(cfg0, addr0, cfg, addr, s, pmpCount, granLog2, addrBits)
  {
    hide EntryAt, EntryOf, ValidRegion, InRange, Fitting, Programmed;
    ProgrammedCount(s, granLog2, addrBits, pmpCount);
    forall i: nat | i < |s| && InRange(s[i], granLog2, addrBits) && Fitting(s[..i], granLog2, addrBits) < pmpCount
      ensures EntryAt(cfg, addr, Fitting(s[..i], granLog2, addrBits)) == EntryOf(s[i])
    {
      ProgrammedPlace(s, granLog2, addrBits, pmpCount, i);
    }
  }

  /** sbi_hart_pmp_configure: one entry after the other for the regions the hardware can hold, until
      the entries run out. */
  method Configure(hw: Registers, s: seq<Region>, pmpCount: nat, granLog2: nat, addrBits: nat)
    requires hw.Valid() && AllValid(s) && pmpCount <= PMP_COUNT
    modifies hw
    ensures hw.Valid()
    ensures var t := Programmed(s, granLog2, addrBits, pmpCount);
      EntriesAre(old(hw.cfg), old(hw.addr), hw.cfg, hw.addr, t, |t|)
    ensures old(hw.Valid()) && Placed(old(hw.cfg), old(hw.addr), hw.cfg, hw.addr, s, pmpCount, granLog2, addrBits)
  {
    hide *;
    ghost var t := Programmed(s, granLog2, addrBits, pmpCount);
    assert s[0..] == s && t[0..] == t;
    StartEntries(hw, t, pmpCount);
    var i, idx := 0, 0;
    while i < |s| && idx < pmpCount
      invariant 0 <= i <= |s| && idx <= pmpCount && hw.Valid() && idx <= |t|
      invariant t[idx..] == Programmed(s[i..], granLog2, addrBits, pmpCount - idx)
      invariant EntriesAre(old(hw.cfg), old(hw.addr), hw.cfg, hw.addr, t, idx)
    {
      ProgramNext(s, t, i, idx, granLog2, addrBits, pmpCount - idx);
      if Holdable(s[i], granLog2, addrBits) {
        ghost var cfg1, addr1 := hw.cfg, hw.addr;
        SetOne(hw, idx, s[i]);
        EntriesNext(old(hw.cfg), old(hw.addr), cfg1, addr1, hw.cfg, hw.addr, t, idx);
        idx := idx + 1;
      }
      i := i + 1;
    }
    ProgramEnd(s[i..], granLog2, addrBits, pmpCount - idx);
    assert |t| == idx;
    EntriesPlaced(old(hw.cfg), old(hw.addr), hw.cfg, hw.addr, s, pmpCount, granLog2, addrBits, t);
  }

  lemma StartEntries(hw: Registers, t: seq<Region>, pmpCount: nat)
    requires hw.Valid() && AllValid(t) && |t| <= pmpCount <= PMP_COUNT
    ensures EntriesAre(hw.cfg, hw.addr, hw.cfg, hw.addr, t, 0)
  {
  }

  lemma ProgramNext(s: seq<Region>, t: seq<Region>, i: nat, idx: nat, granLog2: nat, addrBits: nat, room: nat)
    requires i < |s| && AllValid(s) && room > 0 && idx <= |t|
    requires t[idx..] == Programmed(s[i..], granLog2, addrBits, room)
    ensures ValidRegion(s[i]) && PMP_COUNT == 64
    ensures Holdable(s[i], granLog2, addrBits) ==>
      idx < |t| && t[idx] == s[i] && t[idx + 1..] == Programmed(s[i + 1..], granLog2, addrBits, room - 1)
    ensures !Holdable(s[i], granLog2, addrBits) ==> t[idx..] == Programmed(s[i + 1..], granLog2, addrBits, room)
  {
    hide Holdable, ValidRegion;
    assert s[i..][0] == s[i] && s[i..][1..] == s[i + 1..];
    if Holdable(s[i], granLog2, addrBits) {
      assert t[idx] == t[idx..][0];
      assert t[idx + 1..] == t[idx..][1..];
    }
  }

  lemma ProgramEnd(s: seq<Region>, granLog2: nat, addrBits: nat, room: nat)
    requires s == [] || room == 0
    ensures Programmed(s, granLog2, addrBits, room) == []
  {
  }

  lemma EntriesNext(cfg0: seq<bv64>, addr0: seq<Word>, cfg1: seq<bv64>, addr1: seq<Word>, cfg2: seq<bv64>,
                    addr2: seq<Word>,
                    t: seq<Region>, k: nat)
    requires EntriesAre(cfg0, addr0, cfg1, addr1, t, k) && k < |t| && ValidRegion(t[k])
    requires OneWritten(cfg1, addr1, cfg2, addr2, k, EntryOf(t[k]))
    ensures EntriesAre(cfg0, addr0, cfg2, addr2, t, k + 1)
  {
    hide EntryAt, EntryOf, ValidRegion;
  }

  method SetOne(hw: Registers, n: nat, r: Region)
    requires hw.Valid() && n < PMP_COUNT && ValidRegion(r)
    modifies hw
    ensures hw.Valid() && OneWritten(old(hw.cfg), old(hw.addr), hw.cfg, hw.addr, n, EntryOf(r))
  {
    hide OneWritten, WithMode, ProtOf, Encode;
    var ok := hw.Set(n, ProtOf(r.flags), r.base, r.order);
  }

  /** What the entries for a list of regions make the hardware allow, in terms of the first region
      around the address: S- and U-mode have its rights, M-mode too if the region binds it; without
      one, only M-mode may. */
  lemma {:induction false} HardwareMeans(t: seq<Region>, es: seq<Entry>, x: Word, acc: Access)
    requires AllValid(t) && |t| <= |es|
    requires forall n | 0 <= n < |es| :: if n < |t| then es[n] == EntryOf(t[n]) else EntryOff(es[n])
    ensures FirstMatch(t, x).None? ==> !HardwareAllows(es, x, acc) && MachineAllows(es, x, acc)
    ensures FirstMatch(t, x).Some? ==>
      var f := FirstMatch(t, x).value.flags;
      var rights := (acc.r ==> f.r) && (acc.w ==> f.w) && (acc.x ==> f.x);
      HardwareAllows(es, x, acc) == rights && MachineAllows(es, x, acc) == (f.m ==> rights)
    decreases |es|
  {
    hide EntryOf, Contains, Pow2, EntryMatches, EntryGrants, EntryLocked, EntryOff;
    if es != [] {
      if t == [] {
        assert EntryOff(es[0]);
        OffNeverMatches(es[0], x);
        HardwareMeans(t, es[1..], x, acc);
      } else {
        EntryOfMatches(t[0], x);
        if Contains(t[0], x) {
          EntryOfGrants(t[0], acc);
        } else {
          HardwareMeans(t[1..], es[1..], x, acc);
        }
      }
    }
  }

  /** The software check on the same regions: S- and U-mode have the rights of the first region
      around the address for the kind of access it is meant for; M-mode skips regions that do not
      bind it. */
  lemma {:induction false} SoftwareMeans(t: seq<Region>, x: Word, acc: Access)
    ensures FirstMatch(t, x).None? ==> !Allowed(t, x, false, acc) && Allowed(t, x, true, acc)
    ensures FirstMatch(t, x).Some? ==>
      var f := FirstMatch(t, x).value.flags;
      var granted := (acc.r ==> f.r) && (acc.w ==> f.w) && (acc.x ==> f.x) && acc.mmio == f.mmio;
      Allowed(t, x, false, acc) == granted && (f.m ==> Allowed(t, x, true, acc) == granted)
  {
    hide Contains;
    if t != [] && !Contains(t[0], x) {
      SoftwareMeans(t[1..], x, acc);
    }
  }

  /** The hardware and the software check agree for S- and U-mode exactly when no region is around
      the address, the access is of the kind the first one is meant for, or it lacks the rights
      anyway. For M-mode the same holds if that region binds it; if not, the hardware allows all. */
  lemma SoftwareIsHardware(t: seq<Region>, es: seq<Entry>, x: Word, acc: Access)
    requires AllValid(t) && |t| <= |es|
    requires forall n | 0 <= n < |es| :: if n < |t| then es[n] == EntryOf(t[n]) else EntryOff(es[n])
    ensures HardwareAllows(es, x, acc) == Allowed(t, x, false, acc) <==> KindFits(FirstMatch(t, x), acc)
    ensures FirstMatch(t, x).Some? && FirstMatch(t, x).value.flags.m ==>
      (MachineAllows(es, x, acc) == Allowed(t, x, true, acc) <==> KindFits(FirstMatch(t, x), acc))
    ensures FirstMatch(t, x).None? ==> MachineAllows(es, x, acc) && Allowed(t, x, true, acc)
    ensures FirstMatch(t, x).Some? && !FirstMatch(t, x).value.flags.m ==> MachineAllows(es, x, acc)
  {
    hide HardwareAllows, MachineAllows, Allowed, FirstMatch, EntryOf;
    HardwareMeans(t, es, x, acc);
    SoftwareMeans(t, x, acc);
  }

  /** Nothing to tell apart, an access of the right kind, or one the rights refuse anyway. */
  predicate KindFits(first: Option<Region>, acc: Access) {
    first.Some? ==>
      var f := first.value.flags;
      acc.mmio == f.mmio || (acc.r && !f.r) || (acc.w && !f.w) || (acc.x && !f.x)
  }

  lemma OffNeverMatches(e: Entry, x: Word)
    requires EntryOff(e)
    ensures !EntryMatches(e, x)
  {
  }

  /** All entries, in the order in which the hardware looks at them. */
  ghost function Entries(cfg: seq<bv64>, addr: seq<Word>): (es: seq<Entry>)
    requires |cfg| == 8 && |addr| == PMP_COUNT
    ensures |es| == PMP_COUNT && forall n: nat | n < PMP_COUNT :: es[n] == EntryAt(cfg, addr, n)
  {
    seq(PMP_COUNT, n requires 0 <= n < PMP_COUNT => EntryAt(cfg, addr, n))
  }

  /** The region that decides about an address has an entry. */
  ghost predicate DeciderPlaced(s: seq<Region>, x: Word, pmpCount: nat, granLog2: nat, addrBits: nat) {
    forall i: nat | i < |s| && Contains(s[i], x) && FirstMatch(s[..i], x).None? ::
      InRange(s[i], granLog2, addrBits) && Fitting(s[..i], granLog2, addrBits) < pmpCount
  }

  /** Leaving out other regions does not change which one decides. */
  lemma {:induction false} ProgrammedDecides(s: seq<Region>, x: Word, room: nat, granLog2: nat, addrBits: nat)
    requires DeciderPlaced(s, x, room, granLog2, addrBits)
    ensures FirstMatch(Programmed(s, granLog2, addrBits, room), x) == FirstMatch(s, x)
  {
    hide Holdable, InRange, Contains;
    if s != [] {
      HoldableMeans(s[0], granLog2, addrBits);
      var held := Holdable(s[0], granLog2, addrBits);
      assert s[..0] == [];
      if Contains(s[0], x) {
        assert held && room > 0;
      } else if room == 0 {
        NoneDecides(s, x, granLog2, addrBits);
      } else {
        DeciderLater(s, x, room, granLog2, addrBits);
        ProgrammedDecides(s[1..], x, if held then room - 1 else room, granLog2, addrBits);
      }
    }
  }

  lemma DeciderLater(s: seq<Region>, x: Word, room: nat, granLog2: nat, addrBits: nat)
    requires s != [] && !Contains(s[0], x) && room > 0 && DeciderPlaced(s, x, room, granLog2, addrBits)
    ensures var rest := if InRange(s[0], granLog2, addrBits) then room - 1 else room;
      DeciderPlaced(s[1..], x, rest, granLog2, addrBits)
  {
    hide InRange, Contains;
    forall i: nat | i < |s| - 1 && Contains(s[1..][i], x) && FirstMatch(s[1..][..i], x).None?
      ensures InRange(s[i + 1], granLog2, addrBits)
      ensures Fitting(s[1..][..i], granLog2, addrBits) ==
        Fitting(s[..i + 1], granLog2, addrBits) - (if InRange(s[0], granLog2, addrBits) then 1 else 0)
      ensures Fitting(s[..i + 1], granLog2, addrBits) < room
    {
      assert s[..i + 1][1..] == s[1..][..i] && s[..i + 1][0] == s[0];
      assert FirstMatch(s[..i + 1], x).None?;
      assert Contains(s[i + 1], x);
    }
  }

  /** Without room for any entry the address must lie in no region at all. */
  lemma {:induction false} NoneDecides(s: seq<Region>, x: Word, granLog2: nat, addrBits: nat)
    requires DeciderPlaced(s, x, 0, granLog2, addrBits)
    ensures FirstMatch(s, x).None?
  {
    hide InRange, Contains, Fitting;
    if FirstMatch(s, x).Some? {
      var i := FirstIndex(s, x);
      assert false;
    }
  }

  lemma {:induction false} FirstIndex(s: seq<Region>, x: Word) returns (i: nat)
    requires FirstMatch(s, x).Some?
    ensures i < |s| && Contains(s[i], x) && FirstMatch(s[..i], x).None?
  {
    hide Contains;
    if Contains(s[0], x) {
      i := 0;
    } else {
      var k := FirstIndex(s[1..], x);
      i := k + 1;
      assert s[..i][1..] == s[1..][..k] && s[..i][0] == s[0];
    }
  }

  /** After programming registers that were off, the hardware and the software check agree on every
      address whose deciding region got an entry, for accesses of the kind that region is meant for.
      What decides whether a region gets one is its size, its base and its place in the list. */
  lemma ConfiguredAgrees(cfg0: seq<bv64>, addr0: seq<Word>, cfg: seq<bv64>, addr: seq<Word>, s: seq<Region>,
                         pmpCount: nat, granLog2: nat, addrBits: nat, x: Word, acc: Access)
    requires pmpCount <= PMP_COUNT && DeciderPlaced(s, x, pmpCount, granLog2, addrBits)
    requires var t := Programmed(s, granLog2, addrBits, pmpCount); EntriesAre(cfg0, addr0, cfg, addr, t, |t|)
    requires forall n: nat | n < PMP_COUNT :: EntryOff(EntryAt(cfg0, addr0, n))
    ensures HardwareAllows(Entries(cfg, addr), x, acc) == Allowed(s, x, false, acc) <==> KindFits(FirstMatch(s, x), acc)
  {
    hide EntryAt, EntryOf, EntryOff, FirstMatch, Allowed, HardwareAllows, ValidRegion, DeciderPlaced, Programmed,
      MachineAllows;
    var t := Programmed(s, granLog2, addrBits, pmpCount);
    ProgrammedDecides(s, x, pmpCount, granLog2, addrBits);
    SoftwareIsHardware(t, Entries(cfg, addr), x, acc);
    AllowedIsFirst(s, x, acc);
    AllowedIsFirst(t, x, acc);
  }

  /** In particular a list of regions that are all in range and for which there is room. */
  lemma {:induction false} AllPlaced(s: seq<Region>, pmpCount: nat, granLog2: nat, addrBits: nat, x: Word)
    requires |s| <= pmpCount
    requires forall r | r in s :: granLog2 <= r.order && r.base < 4 * (Pow2(addrBits) - 1)
    ensures DeciderPlaced(s, x, pmpCount, granLog2, addrBits)
  {
    hide Contains, Pow2, FirstMatch;
    forall i: nat | i < |s|
      ensures InRange(s[i], granLog2, addrBits) && Fitting(s[..i], granLog2, addrBits) < pmpCount
    {
      assert s[i] in s;
      HoldableMeans(s[i], granLog2, addrBits);
      FittingBound(s[..i], granLog2, addrBits);
    }
  }

  /** With room for all regions, none finer than the granularity and none out of reach, agreement is
      on every address. */
  lemma AgreesEverywhere(cfg0: seq<bv64>, addr0: seq<Word>, cfg: seq<bv64>, addr: seq<Word>, s: seq<Region>,
                         pmpCount: nat, granLog2: nat, addrBits: nat, x: Word, acc: Access)
    requires AllValid(s) && |s| <= pmpCount <= PMP_COUNT
    requires forall r | r in s :: granLog2 <= r.order && r.base < 4 * (Pow2(addrBits) - 1)
    requires var t := Programmed(s, granLog2, addrBits, pmpCount); EntriesAre(cfg0, addr0, cfg, addr, t, |t|)
    requires forall n: nat | n < PMP_COUNT :: EntryOff(EntryAt(cfg0, addr0, n))
    ensures KindFits(FirstMatch(s, x), acc) ==>
      HardwareAllows(Entries(cfg, addr), x, acc) == Allowed(s, x, false, acc)
  {
    hide EntryAt, EntryOf, EntryOff, FirstMatch, Allowed, HardwareAllows, DeciderPlaced, Programmed;
    AllPlaced(s, pmpCount, granLog2, addrBits, x);
    ConfiguredAgrees(cfg0, addr0, cfg, addr, s, pmpCount, granLog2, addrBits, x, acc);
  }

  lemma OffEntry(e: Entry)
    requires e == Entry(0, 0)
    ensures EntryOff(e)
  {
  }

  /** Registers as they come out of reset, programmed with a domain whose regions all fit, decide as the
      address check does. */
  method ProgramDomain(s: seq<Region>, pmpCount: nat, granLog2: nat, addrBits: nat) returns (hw: Registers)
    requires AllValid(s) && |s| <= pmpCount <= PMP_COUNT
    requires forall r | r in s :: granLog2 <= r.order && r.base < 4 * (Pow2(addrBits) - 1)
    ensures hw.Valid()
    ensures forall x: Word, acc: Access | KindFits(FirstMatch(s, x), acc) ::
      HardwareAllows(Entries(hw.cfg, hw.addr), x, acc) == Allowed(s, x, false, acc)
  {
    hide AllValid, Programmed, EntriesAre, Placed, Allowed, HardwareAllows, EntryOff, EntryAt, FirstMatch, Pow2;
    hw := new Registers();
    ghost var cfg0, addr0 := hw.cfg, hw.addr;
    forall n: nat | n < PMP_COUNT
      ensures EntryOff(EntryAt(cfg0, addr0, n))
    {
      assert hw.At(n) == Entry(0, 0);
      OffEntry(EntryAt(cfg0, addr0, n));
    }
    Configure(hw, s, pmpCount, granLog2, addrBits);
    forall x: Word, acc: Access | KindFits(FirstMatch(s, x), acc)
      ensures HardwareAllows(Entries(hw.cfg, hw.addr), x, acc) == Allowed(s, x, false, acc)
    {
      AgreesEverywhere(cfg0, addr0, hw.cfg, hw.addr, s, pmpCount, granLog2, addrBits, x, acc);
    }
  }

  lemma {:induction false} FittingBound(s: seq<Region>, granLog2: nat, addrBits: nat)
    ensures Fitting(s, granLog2, addrBits) <= |s|
  {
    if s != [] {
      FittingBound(s[1..], granLog2, addrBits);
    }
  }
}
