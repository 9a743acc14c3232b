/** The configuration bytes of physical memory protection entries: the bit manipulation of pmp_set
    and pmp_get (opensbi-1.2/lib/sbi/riscv_asm.c). */
module PmpBytes {
  const PMP_A: bv64 := 0x18
  const NA4: bv64 := 0x10
  const NAPOT: bv64 := 0x18

  /** Eight entries share a configuration register. */
  function Shift(n: nat): (r: bv7)
    ensures IsShift(r)
  {
    match n % 8
    case 0 => 0
    case 1 => 8
    case 2 => 16
    case 3 => 24
    case 4 => 32
    case 5 => 40
    case 6 => 48
    case _ => 56
  }

  predicate IsShift(sh: bv7) {
    sh == 0 || sh == 8 || sh == 16 || sh == 24 || sh == 32 || sh == 40 || sh == 48 || sh == 56
  }

  lemma ShiftsDiffer(m: nat, n: nat)
    ensures m % 8 != n % 8 ==> Shift(m) != Shift(n)
  {
  }

  /** The byte's place in the register, and a register with new contents in that place. */
  function Place(sh: bv7): bv64
    requires IsShift(sh)
  {
    (0xff as bv64) << sh
  }

  function Up(w: bv64, sh: bv7): bv64
    requires IsShift(sh)
  {
    w << sh
  }

  function Down(w: bv64, sh: bv7): bv64
    requires IsShift(sh)
  {
    w >> sh
  }

  function Take(w: bv64, m: bv64): bv64 { w & m }
  function Merge(w: bv64, x: bv64, m: bv64): bv64 { (w & !m) | (x & m) }

  function ByteAt(cfg: bv64, sh: bv7): bv64
    requires IsShift(sh)
  {
    Down(Take(cfg, Place(sh)), sh)
  }

  /** The read-modify-write of pmp_set. */
  function WithByte(cfg: bv64, sh: bv7, prot: bv64): bv64
    requires IsShift(sh)
  {
    Merge(cfg, Up(prot, sh), Place(sh))
  }

  lemma PlacesApart(sh: bv7, other: bv7)
    requires IsShift(sh) && IsShift(other) && sh != other
    ensures Take(Place(sh), Place(other)) == 0
  {
  }

  lemma Select(w: bv64, x: bv64, m: bv64, k: bv64)
    ensures Take(Merge(w, x, m), m) == Take(x, m)
    ensures Take(m, k) == 0 ==> Take(Merge(w, x, m), k) == Take(w, k)
  {
  }

  /** A byte shifted to its place and back, for each of the eight places. */
  lemma EachPlace(w: bv64)
    ensures ((w << (0 as bv7)) & ((0xff as bv64) << (0 as bv7))) >> (0 as bv7) == w & 0xff
    ensures ((w << (8 as bv7)) & ((0xff as bv64) << (8 as bv7))) >> (8 as bv7) == w & 0xff
    ensures ((w << (16 as bv7)) & ((0xff as bv64) << (16 as bv7))) >> (16 as bv7) == w & 0xff
    ensures ((w << (24 as bv7)) & ((0xff as bv64) << (24 as bv7))) >> (24 as bv7) == w & 0xff
    ensures ((w << (32 as bv7)) & ((0xff as bv64) << (32 as bv7))) >> (32 as bv7) == w & 0xff
    ensures ((w << (40 as bv7)) & ((0xff as bv64) << (40 as bv7))) >> (40 as bv7) == w & 0xff
    ensures ((w << (48 as bv7)) & ((0xff as bv64) << (48 as bv7))) >> (48 as bv7) == w & 0xff
    ensures ((w << (56 as bv7)) & ((0xff as bv64) << (56 as bv7))) >> (56 as bv7) == w & 0xff
  {
  }

  lemma ThereAndBack(prot: bv64, sh: bv7)
    requires IsShift(sh)
    ensures Down(Take(Up(prot, sh), Place(sh)), sh) == prot & 0xff
  {
    EachPlace(prot);
  }

  lemma ByteWritten(cfg: bv64, sh: bv7, prot: bv64)
    requires IsShift(sh)
    ensures ByteAt(WithByte(cfg, sh, prot), sh) == prot & 0xff
  {
    hide Place, Up, Down, Take, Merge, IsShift;
    Select(cfg, Up(prot, sh), Place(sh), 0);
    ThereAndBack(prot, sh);
  }

  lemma OtherBytes(cfg: bv64, sh: bv7, prot: bv64, other: bv7)
    requires IsShift(sh) && IsShift(other) && sh != other
    ensures ByteAt(WithByte(cfg, sh, prot), other) == ByteAt(cfg, other)
  {
    hide Place, Up, Down, Take, Merge, IsShift;
    PlacesApart(sh, other);
    Select(cfg, Up(prot, sh), Place(sh), Place(other));
  }

  /** The protection with its A field replaced. */
  function WithMode(prot: bv64, log2len: nat): bv64 { (prot & !PMP_A) | (if log2len == 2 then NA4 else NAPOT) }

  lemma ModeStored(prot: bv64, log2len: nat)
    ensures var p := WithMode(prot, log2len) & 0xff;
      p & PMP_A == (if log2len == 2 then NA4 else NAPOT) && p & !PMP_A == prot & 0xff & !PMP_A
  {
  }
}
