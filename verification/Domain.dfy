/** Memory regions of a domain: the address check, sorting, and merging of buddies
    (opensbi-1.2/lib/sbi/sbi_domain.c). */
module Domain {
  import opened Common
  import opened Bits

  /** The access bits, the M-mode bit, the MMIO bit, and whatever else the word holds. */
  datatype Flags = Flags(r: bool, w: bool, x: bool, m: bool, mmio: bool, other: nat)

  datatype Region = Region(base: Word, order: nat, flags: Flags)

  /** BIT(n): the hardware shift uses the low six bits of the distance. */
  function Bit(n: nat): nat { Pow2(n % 64) }

  /** is_region_valid: naturally aligned, 8 bytes to the whole memory. */
  predicate ValidRegion(r: Region) {
    && 3 <= r.order <= 64
    && (r.order == 64 ==> r.base == 0)
    && (r.order < 64 ==> r.base % Bit(r.order) == 0)
  }

  /** ... which is to say: of an order from 3 to 64, and its base a multiple of its size. */
  lemma ValidExactly(r: Region)
    ensures ValidRegion(r) <==> 3 <= r.order <= 64 && r.base % Pow2(r.order) == 0
  {
    hide Pow2;
    Pow2Word();
    if r.order == 64 {
      assert r.base % WORD_END == r.base;
    }
  }

  /** The addresses of a region. */
  predicate Contains(r: Region, a: Word) { r.base <= a < r.base + Pow2(r.order) }

  ghost predicate AllValid(s: seq<Region>) { forall i | 0 <= i < |s| :: ValidRegion(s[i]) }

  /** is_region_subset: on words, with both ends inclusive. */
  predicate Subset(a: Region, b: Region) {
    var aEnd := (a.base + Bit(a.order) - 1) % WORD_END;
    var bEnd := (b.base + Bit(b.order) - 1) % WORD_END;
    b.base <= a.base < bEnd && b.base < aEnd <= bEnd
  }

  predicate Conflict(a: Region, b: Region) { (Subset(a, b) || Subset(b, a)) && a.flags == b.flags }

  /** is_region_before. */
  predicate Before(a: Region, b: Region) { a.order < b.order || (a.order == b.order && a.base < b.base) }

  ghost predicate Sorted(s: seq<Region>) { forall i, j | 0 <= i < j < |s| :: !Before(s[j], s[i]) }

  // ---------------------------------------------------------------- what a list of regions decides

  /** Region r has the last word on address a: no smaller one contains a. */
  ghost predicate Decides(s: seq<Region>, a: Word, r: Region) {
    r in s && Contains(r, a) && forall q | q in s && Contains(q, a) :: r.order <= q.order
  }

  /** The first region of a list that contains the address. */
  function FirstMatch(s: seq<Region>, a: Word): (r: Option<Region>)
    ensures r.Some? ==> r.value in s && Contains(r.value, a)
    ensures r.None? ==> forall q | q in s :: !Contains(q, a)
  {
    if s == [] then None
    else if Contains(s[0], a) then Some(s[0])
    else FirstMatch(s[1..], a)
  }

  /** In a sorted list the first match is a smallest region around the address. */
  lemma {:induction false} FirstIsSmallest(s: seq<Region>, a: Word)
    requires Sorted(s)
    ensures FirstMatch(s, a).Some? ==> Decides(s, a, FirstMatch(s, a).value)
  {
    if s != [] {
      if Contains(s[0], a) {
        forall q | q in s ensures s[0].order <= q.order {
          var i :| 0 <= i < |s| && s[i] == q;
          assert i > 0 ==> !Before(s[i], s[0]);
        }
      } else {
        assert Sorted(s[1..]);
        FirstIsSmallest(s[1..], a);
        assert s == [s[0]] + s[1..];
      }
    }
  }

  /** Two different places hold regions of different extent. */
  ghost predicate NoTwins(s: seq<Region>) {
    forall i, j | 0 <= i < j < |s| :: s[i].base != s[j].base || s[i].order != s[j].order
  }

  /** A multiple of p below p * n leaves room for p. */
  lemma AlignedRoom(x: nat, p: nat, n: nat)
    requires p > 0 && x % p == 0 && x < p * n
    ensures x + p <= p * n
  {
    assert x == p * (x / p);
    Steps(p, x / p, n);
  }

  /** A valid region is the block of its size around each of its addresses. */
  lemma BlockOf(r: Region, a: Word)
    requires ValidRegion(r) && Contains(r, a)
    ensures r.base == Pow2(r.order) * (a / Pow2(r.order))
  {
    hide Pow2;
    var p := Pow2(r.order);
    assert r.base % p == 0;
    assert r.base == p * (r.base / p);
    Quotient(a, r.base / p, p);
  }

  lemma SameBlock(r: Region, q: Region, a: Word)
    requires ValidRegion(r) && ValidRegion(q) && Contains(r, a) && Contains(q, a) && r.order == q.order
    ensures r.base == q.base
  {
    BlockOf(r, a);
    BlockOf(q, a);
  }

  /** Without twins, who decides does not depend on the order of the list. */
  lemma DeciderUnique(s: seq<Region>, t: seq<Region>, a: Word, r: Region, q: Region)
    requires AllValid(s) && NoTwins(s) && multiset(s) == multiset(t)
    requires Decides(s, a, r) && Decides(t, a, q)
    ensures r == q
  {
    assert q in multiset(t) && r in multiset(t);
    assert q in s && r in t;
    var i :| 0 <= i < |s| && s[i] == r;
    var j :| 0 <= j < |s| && s[j] == q;
    SameBlock(r, q, a);
  }

  /** With twins it does: two sorted listings of the same two regions decide differently. */
  lemma TwinsAmbiguous()
    ensures exists s: seq<Region>, t: seq<Region>, a: Word ::
      && AllValid(s) && Sorted(s) && Sorted(t) && multiset(s) == multiset(t)
      && FirstMatch(s, a).Some? && FirstMatch(t, a).Some?
      && FirstMatch(s, a).value.flags != FirstMatch(t, a).value.flags
  {
    var f := Flags(true, true, true, false, false, 0);
    var g := Flags(true, false, false, false, false, 0);
    var x, y := Region(0, 4, f), Region(0, 4, g);
    var s, t := [x, y], [y, x];
    assert Contains(x, 0) && Contains(y, 0);
    assert ValidRegion(x) && ValidRegion(y);
    assert AllValid(s) && Sorted(s) && Sorted(t);
    assert multiset(s) == multiset(t);
    assert FirstMatch(s, 0) == Some(x) && FirstMatch(t, 0) == Some(y);
  }

  // ---------------------------------------------------------------- merging buddies

  /** The test of sbi_domain_root_add_memregion on two neighbours. */
  predicate Mergeable(a: Region, b: Region) {
    && a.base % Bit(a.order + 1) == 0
    && (a.base + Bit(a.order)) % WORD_END == b.base
    && a.order == b.order && a.flags == b.flags
  }

  function Grown(a: Region): Region { a.(order := a.order + 1) }

  /** Neighbours k and k + 1 replaced by their union. */
  function MergeAt(s: seq<Region>, k: nat): (r: seq<Region>)
    requires k + 1 < |s|
    ensures |r| == |s| - 1
  {
    s[..k] + [Grown(s[k])] + s[k + 2..]
  }

  lemma UnionValid(a: Region, b: Region)
    requires ValidRegion(a) && ValidRegion(b) && Mergeable(a, b) && !Before(b, a)
    ensures ValidRegion(Grown(a)) && a.order < 64 && b.base == a.base + Pow2(a.order)
    ensures Pow2(a.order + 1) == 2 * Pow2(a.order)
  {
    hide Pow2;
    Pow2Word();
    Pow2Step(a.order);
    Pow2Step(0);
    assert a.order < 64;
    var p := Pow2(a.order);
    SmallPow(a.order);
    NoWrap(a.base, p, b.base);
    if a.order == 63 {
      SmallMultiple(a.base, p);
    }
  }

  lemma SmallPow(n: nat)
    requires n < 64
    ensures 2 * Pow2(n) <= WORD_END
  {
    Pow2Word();
    Pow2Less(n, 64);
  }

  lemma NoWrap(x: Word, p: nat, y: Word)
    requires 0 < p && 2 * p <= WORD_END && (x + p) % WORD_END == y && x <= y
    ensures y == x + p
  {
  }

  lemma SmallMultiple(x: nat, p: nat)
    requires 0 <= x < p && x % p == 0
    ensures x == 0
  {
  }

  lemma UnionContains(a: Region, b: Region, x: Word)
    requires ValidRegion(a) && ValidRegion(b) && Mergeable(a, b) && !Before(b, a)
    ensures Contains(Grown(a), x) <==> Contains(a, x) || Contains(b, x)
  {
    UnionValid(a, b);
  }

  /** Two regions in order are merged exactly if they are the halves of one block and have the same
      flags. */
  lemma MergeableExactly(a: Region, b: Region)
    requires ValidRegion(a) && ValidRegion(b) && !Before(b, a)
    ensures Mergeable(a, b) <==>
      && a.order == b.order && a.flags == b.flags && b.base == a.base + Pow2(a.order)
      && a.base % (2 * Pow2(a.order)) == 0
  {
    hide Pow2, ValidRegion, Bit;
    if Mergeable(a, b) {
      UnionValid(a, b);
      ValidExactly(Grown(a));
    }
    if a.order == b.order && b.base == a.base + Pow2(a.order) && a.base % (2 * Pow2(a.order)) == 0 {
      HalvesMeet(a, b);
    }
  }

  lemma HalvesMeet(a: Region, b: Region)
    requires ValidRegion(a) && b.base == a.base + Pow2(a.order) && a.base % (2 * Pow2(a.order)) == 0
    ensures a.base % Bit(a.order + 1) == 0 && (a.base + Bit(a.order)) % WORD_END == b.base
  {
    hide Pow2, Bit;
    DoubleBit(a.order, b.base);
    Halves(a.base, Pow2(a.order), Bit(a.order + 1), b.base);
  }

  lemma Halves(x: nat, p: nat, d: nat, y: Word)
    requires p > 0 && x % (2 * p) == 0 && (d == 1 || d == 2 * p) && y == x + p
    ensures d > 0 && x % d == 0 && (x + p) % WORD_END == y
  {
  }

  lemma DoubleBit(order: nat, limit: Word)
    requires 3 <= order <= 64 && Pow2(order) <= limit
    ensures Bit(order) == Pow2(order) && (Bit(order + 1) == 1 || Bit(order + 1) == 2 * Pow2(order))
  {
    hide Pow2;
    Pow2Word();
    Pow2Step(0);
    Pow2Step(order);
  }

  ghost predicate DecidedAs(s: seq<Region>, a: Word, f: Flags) { exists r: Region :: Decides(s, a, r) && r.flags == f }

  /** Every address is decided with the same flags by both lists. */
  ghost predicate SameMeaning(s: seq<Region>, t: seq<Region>) {
    forall a: Word, f: Flags :: DecidedAs(s, a, f) <==> DecidedAs(t, a, f)
  }

  lemma MeaningTransitive(s: seq<Region>, t: seq<Region>, u: seq<Region>)
    requires SameMeaning(s, t) && SameMeaning(t, u)
    ensures SameMeaning(s, u)
  {
    hide DecidedAs;
  }

  lemma PermutationMeaning(s: seq<Region>, t: seq<Region>)
    requires multiset(s) == multiset(t)
    ensures SameMeaning(s, t) && (AllValid(s) ==> AllValid(t))
  {
    Members(s, t);
    forall a: Word, f: Flags
      ensures DecidedAs(s, a, f) <==> DecidedAs(t, a, f)
    {
      assert forall r: Region :: Decides(s, a, r) <==> Decides(t, a, r);
    }
    if AllValid(s) {
      forall i | 0 <= i < |t| ensures ValidRegion(t[i]) { assert t[i] in t; }
    }
  }

  lemma Members(s: seq<Region>, t: seq<Region>)
    requires multiset(s) == multiset(t)
    ensures forall r :: r in s <==> r in t
  {
    forall r ensures r in s <==> r in t { assert r in multiset(s) <==> r in multiset(t); }
  }

  /** An address of z that no smaller region with flags f contains. */
  ghost predicate Gap(s: seq<Region>, z: Region, f: Flags, a: Word) {
    Contains(z, a) && forall q | q in s && q.flags == f && q.order < z.order :: !Contains(q, a)
  }

  ghost predicate HasGap(s: seq<Region>, z: Region, f: Flags) { exists a: Word :: Gap(s, z, f, a) }

  /** No region is filled up by smaller ones that all carry the same flags. */
  ghost predicate NotTiled(s: seq<Region>) {
    forall z: Region, f: Flags | z in s :: HasGap(s, z, f)
  }

  /** The condition under which adding and merging is safe. */
  ghost predicate TwinFree(s: seq<Region>) { AllValid(s) && NoTwins(s) && NotTiled(s) }

  /** What is in the list after a merge. */
  lemma MergeMembers(s: seq<Region>, k: nat)
    requires k + 1 < |s| && NoTwins(s)
    ensures forall q :: q in MergeAt(s, k) <==> q == Grown(s[k]) || (q in s && q != s[k] && q != s[k + 1])
  {
    var t := MergeAt(s, k);
    forall q
      ensures q in t <==> q == Grown(s[k]) || (q in s && q != s[k] && q != s[k + 1])
    {
      if q in s && q != s[k] && q != s[k + 1] {
        var i :| 0 <= i < |s| && s[i] == q;
        assert if i < k then t[i] == q else i > k + 1 && t[i - 1] == q;
      }
      if q in t && q != Grown(s[k]) {
        var i :| 0 <= i < |t| && t[i] == q;
        assert q == if i < k then s[i] else s[i + 1];
        assert q in s && q != s[k] && q != s[k + 1];
      }
      assert t[k] == Grown(s[k]);
    }
  }

  /** A region with the extent of the union but other flags is the smallest but for the two
      buddies at some address: once they are merged it competes with their union there. */
  ghost predicate Overridden(s: seq<Region>, k: nat, z: Region, x: Word)
    requires k < |s|
  {
    && z in s && z.base == s[k].base && z.order == s[k].order + 1 && z.flags != s[k].flags
    && Contains(z, x) && forall q | q in s && Contains(q, x) :: q.order >= s[k].order
  }

  /** Merging two buddies keeps every decision exactly when no such region exists. */
  lemma MergeSoundExactly(s: seq<Region>, k: nat)
    requires k + 1 < |s| && AllValid(s) && NoTwins(s) && Mergeable(s[k], s[k + 1]) && !Before(s[k + 1], s[k])
    ensures SameMeaning(s, MergeAt(s, k)) <==> forall z: Region, x: Word :: !Overridden(s, k, z, x)
  {
    var t, a, b := MergeAt(s, k), s[k], s[k + 1];
    MergeMembers(s, k);
    UnionValid(a, b);
    BuddyFlags(a, b);
    hide MergeAt, Contains, ValidRegion, Mergeable;
    if z: Region, x: Word :| Overridden(s, k, z, x) {
      UnionContains(a, b, x);
      OverriddenDecides(s, t, k, z, x);
    } else {
      forall x: Word, f: Flags
        ensures DecidedAs(s, x, f) <==> DecidedAs(t, x, f)
      {
        UnionContains(a, b, x);
        if r: Region :| Decides(s, x, r) && r.flags == f {
          MergedDecider(s, t, k, x, r);
          assert Decides(t, x, if r == a || r == b then Grown(a) else r);
        }
        if q: Region :| Decides(t, x, q) && q.flags == f {
          assert !Overridden(s, k, q, x);
          UnmergedDecider(s, t, k, x, q);
        }
      }
    }
  }

  /** Merging two buddies changes no decision. */
  lemma MergeMeaning(s: seq<Region>, k: nat)
    requires k + 1 < |s| && TwinFree(s) && Mergeable(s[k], s[k + 1]) && !Before(s[k + 1], s[k])
    ensures SameMeaning(s, MergeAt(s, k))
  {
    hide SameMeaning, NotTiled, Contains, ValidRegion, Mergeable;
    MergeSoundExactly(s, k);
    forall z: Region, x: Word ensures !Overridden(s, k, z, x) { UnionAlone(s, k, z); }
  }

  lemma MergedDecider(s: seq<Region>, t: seq<Region>, k: nat, x: Word, r: Region)
    requires k + 1 < |s| && AllValid(s) && NoTwins(s) && s[k].order == s[k + 1].order
    requires forall q :: q in t <==> q == Grown(s[k]) || (q in s && q != s[k] && q != s[k + 1])
    requires Contains(Grown(s[k]), x) <==> Contains(s[k], x) || Contains(s[k + 1], x)
    requires Decides(s, x, r)
    ensures Decides(t, x, if r == s[k] || r == s[k + 1] then Grown(s[k]) else r)
  {
    hide Contains;
    if r == s[k] || r == s[k + 1] {
      forall q | q in t && Contains(q, x)
        ensures Grown(s[k]).order <= q.order
      {
        if q in s && q != s[k] && q != s[k + 1] && q.order == r.order {
          SameBlock(r, q, x);
          Twins(s, r, q);
        }
      }
    }
  }

  lemma Twins(s: seq<Region>, r: Region, q: Region)
    requires NoTwins(s) && r in s && q in s && r.base == q.base && r.order == q.order
    ensures r == q
  {
    var i :| 0 <= i < |s| && s[i] == r;
    var j :| 0 <= j < |s| && s[j] == q;
  }

  lemma OverriddenDecides(s: seq<Region>, t: seq<Region>, k: nat, z: Region, x: Word)
    requires k + 1 < |s| && AllValid(s) && NoTwins(s) && s[k].order == s[k + 1].order && s[k].flags == s[k + 1].flags
    requires forall q :: q in t <==> q == Grown(s[k]) || (q in s && q != s[k] && q != s[k + 1])
    requires Contains(Grown(s[k]), x) <==> Contains(s[k], x) || Contains(s[k + 1], x)
    requires Overridden(s, k, z, x)
    ensures DecidedAs(t, x, z.flags) && !DecidedAs(s, x, z.flags)
  {
    SameExtent(z, Grown(s[k]), x);
    hide Contains, ValidRegion;
    var a := if Contains(s[k], x) then s[k] else s[k + 1];
    forall q | q in s && Contains(q, x)
      ensures q.order == a.order ==> q == a
    {
      if q.order == a.order {
        SameBlock(q, a, x);
        Twins(s, q, a);
      }
    }
    assert Decides(t, x, z);
    forall r: Region | Decides(s, x, r) ensures r == a { }
  }

  lemma UnmergedDecider(s: seq<Region>, t: seq<Region>, k: nat, x: Word, q: Region)
    requires k + 1 < |s| && AllValid(s) && NoTwins(s) && s[k].order == s[k + 1].order && s[k].flags == s[k + 1].flags
    requires forall p :: p in t <==> p == Grown(s[k]) || (p in s && p != s[k] && p != s[k + 1])
    requires Contains(Grown(s[k]), x) <==> Contains(s[k], x) || Contains(s[k + 1], x)
    requires Decides(t, x, q) && ValidRegion(Grown(s[k])) && !Overridden(s, k, q, x)
    ensures DecidedAs(s, x, q.flags)
  {
    hide Contains, ValidRegion;
    var a, b := s[k], s[k + 1];
    if !Contains(Grown(a), x) {
      assert Decides(s, x, q);
    } else {
      var r := if Contains(a, x) then a else b;
      if q.order < a.order {
        assert Decides(s, x, q);
      } else {
        OnlyBuddy(s, r, q, x);
        if q in s && q.order == Grown(a).order {
          SameBlock(q, Grown(a), x);
        }
        assert Decides(s, x, r);
      }
    }
  }

  /** Another region of the same order does not contain the same address. */
  lemma OnlyBuddy(s: seq<Region>, r: Region, q: Region, x: Word)
    requires AllValid(s) && NoTwins(s) && r in s && Contains(r, x) && Contains(q, x)
    ensures q in s && q.order == r.order ==> q == r
  {
    if q in s && q.order == r.order {
      SameBlock(q, r, x);
      Twins(s, q, r);
    }
  }

  /** Two buddies with the same flags would fill up a region with the extent of their union. */
  lemma UnionAlone(s: seq<Region>, k: nat, z: Region)
    requires k + 1 < |s| && AllValid(s) && NotTiled(s) && Mergeable(s[k], s[k + 1]) && !Before(s[k + 1], s[k])
    ensures z in s ==> z.base != s[k].base || z.order != s[k].order + 1
  {
    hide Contains, ValidRegion, Mergeable;
    var a, b := s[k], s[k + 1];
    if z in s && z.base == a.base && z.order == a.order + 1 {
      assert HasGap(s, z, a.flags);
      var x: Word :| Gap(s, z, a.flags, x);
      UnionContains(a, b, x);
      SameExtent(z, Grown(a), x);
      BuddyFlags(a, b);
      assert false;
    }
  }

  lemma BuddyFlags(a: Region, b: Region)
    requires Mergeable(a, b)
    ensures a.flags == b.flags && a.order == b.order
  {
  }

  lemma SameExtent(z: Region, c: Region, x: Word)
    requires z.base == c.base && z.order == c.order
    ensures Contains(z, x) <==> Contains(c, x)
  {
  }

  /** The condition survives merging. */
  lemma MergeTwinFree(s: seq<Region>, k: nat)
    requires k + 1 < |s| && TwinFree(s) && Mergeable(s[k], s[k + 1]) && !Before(s[k + 1], s[k])
    ensures TwinFree(MergeAt(s, k))
  {
    var t, a, b := MergeAt(s, k), s[k], s[k + 1];
    UnionValid(a, b);
    MergeMembers(s, k);
    forall i | 0 <= i < |t| ensures ValidRegion(t[i]) { assert t[i] in t; }
    MergeNoTwins(s, k);
    forall z: Region, f: Flags | z in t ensures HasGap(t, z, f) { MergeGap(s, t, k, z, f); }
  }

  lemma MergeNoTwins(s: seq<Region>, k: nat)
    requires k + 1 < |s| && TwinFree(s) && Mergeable(s[k], s[k + 1]) && !Before(s[k + 1], s[k])
    ensures NoTwins(MergeAt(s, k))
  {
    hide NotTiled, ValidRegion, Mergeable;
    var t := MergeAt(s, k);
    forall i, j | 0 <= i < j < |t|
      ensures t[i].base != t[j].base || t[i].order != t[j].order
    {
      var i', j' := if i <= k then i else i + 1, if j <= k then j else j + 1;
      assert i != k ==> t[i] == s[i'];
      assert j != k ==> t[j] == s[j'];
      UnionAlone(s, k, s[i']);
      UnionAlone(s, k, s[j']);
    }
  }

  lemma MergeGap(s: seq<Region>, t: seq<Region>, k: nat, z: Region, f: Flags)
    requires k + 1 < |s| && TwinFree(s) && Mergeable(s[k], s[k + 1]) && !Before(s[k + 1], s[k])
    requires t == MergeAt(s, k) && z in t
    ensures HasGap(t, z, f)
  {
    hide Contains, MergeAt, ValidRegion, Mergeable;
    var a, b := s[k], s[k + 1];
    MergeMembers(s, k);
    BuddyFlags(a, b);
    var y := if z == Grown(a) then a else z;
    assert HasGap(s, y, f);
    var x: Word :| Gap(s, y, f, x);
    UnionContains(a, b, x);
    forall q | q in t && q.flags == f && q.order < z.order
      ensures !Contains(q, x)
    {
      if Contains(q, x) && q != Grown(a) && z == Grown(a) && q.order == a.order {
        SameBlock(q, a, x);
        Twins(s, q, a);
      }
    }
    assert Gap(t, z, f, x);
  }
}
