/** The root domain's region array: sanitize_domain and sbi_domain_root_add_memregion
    (opensbi-1.2/lib/sbi/sbi_domain.c). */
module DomainRoot {
  import opened Common
  import opened Bits
  import opened Domain
  import opened RegionSort

  lemma PermutationTwinFree(s: seq<Region>, t: seq<Region>)
    requires TwinFree(s) && multiset(s) == multiset(t)
    ensures TwinFree(t)
  {
    Members(s, t);
    PermutationMeaning(s, t);
    PermutationNoTwins(s, t);
    forall z: Region, f: Flags | z in t
      ensures HasGap(t, z, f)
    {
      assert HasGap(s, z, f);
      var a: Word :| Gap(s, z, f, a);
      assert Gap(t, z, f, a);
    }
  }

  // ---------------------------------------------------------------- the address check

  /** One kind of access: which rights, and whether the caller means a device. */
  datatype Access = Access(r: bool, w: bool, x: bool, mmio: bool)

  predicate Grants(f: Flags, acc: Access) {
    && acc.mmio == f.mmio && (acc.r ==> f.r) && (acc.w ==> f.w) && (acc.x ==> f.x)
  }

  /** M-mode only looks at regions that bind it. */
  predicate Concerns(r: Region, machine: bool) { machine ==> r.flags.m }

  /** The specification: the first region that concerns the mode and contains the address decides;
      without one, only M-mode may. */
  function Allowed(s: seq<Region>, a: Word, machine: bool, acc: Access): bool {
    if s == [] then machine
    else if Concerns(s[0], machine) && Contains(s[0], a) then Grants(s[0].flags, acc)
    else Allowed(s[1..], a, machine, acc)
  }

  /** For S- and U-mode that is the first match, hence the smallest region of a sorted list. */
  lemma {:induction false} AllowedIsFirst(s: seq<Region>, a: Word, acc: Access)
    ensures Allowed(s, a, false, acc) == (FirstMatch(s, a).Some? && Grants(FirstMatch(s, a).value.flags, acc))
  {
    if s != [] {
      AllowedIsFirst(s[1..], a, acc);
    }
  }

  /** For M-mode it is the first match among the regions that bind it; without one it may. */
  lemma {:induction false} MachineMeans(s: seq<Region>, a: Word, acc: Access, i: nat)
    requires i <= |s| && forall j | 0 <= j < i :: !(s[j].flags.m && Contains(s[j], a))
    ensures i == |s| ==> Allowed(s, a, true, acc)
    ensures i < |s| && s[i].flags.m && Contains(s[i], a) ==>
      var f := s[i].flags;
      Allowed(s, a, true, acc) <==>
        (acc.r ==> f.r) && (acc.w ==> f.w) && (acc.x ==> f.x) && acc.mmio == f.mmio
  {
    hide Contains;
    if i > 0 {
      MachineMeans(s[1..], a, acc, i - 1);
    }
  }

  /** The listing order does not matter: two sorted listings of the same regions allow the same. */
  lemma ListingIrrelevant(s: seq<Region>, t: seq<Region>, a: Word, acc: Access)
    requires AllValid(s) && NoTwins(s) && multiset(s) == multiset(t) && Sorted(s) && Sorted(t)
    ensures Allowed(s, a, false, acc) == Allowed(t, a, false, acc)
  {
    AllowedIsFirst(s, a, acc);
    AllowedIsFirst(t, a, acc);
    FirstIsSmallest(s, a);
    FirstIsSmallest(t, a);
    Members(s, t);
    if FirstMatch(s, a).Some? && FirstMatch(t, a).Some? {
      DeciderUnique(s, t, a, FirstMatch(s, a).value, FirstMatch(t, a).value);
    }
  }

  /** The bounds as the code computes them. */
  function LastAddress(r: Region): Word {
    if r.order < 64 then (r.base + Pow2(r.order) - 1) % WORD_END else WORD_END - 1
  }

  lemma LastAddressOk(r: Region)
    requires ValidRegion(r)
    ensures LastAddress(r) == r.base + Pow2(r.order) - 1
  {
    hide Pow2;
    Pow2Word();
    if r.order < 64 {
      var p := Pow2(r.order);
      SmallPow(r.order);
      Pow2Divides(r.order);
      AlignedRoom(r.base, p, WORD_END / p);
    }
  }

  lemma InBounds(r: Region, a: Word)
    requires ValidRegion(r)
    ensures r.base <= a <= LastAddress(r) <==> Contains(r, a)
  {
    hide Pow2, LastAddress;
    LastAddressOk(r);
  }

  // ---------------------------------------------------------------- the root domain

  const REGION_MAX: nat := 16

  /** What ends up in place j when places k and k + 1 are merged. */
  function Shifted(s: seq<Region>, k: nat, j: nat): Region
    requires k < |s| && j + 1 < |s|
  {
    if j < k then s[j] else if j == k then Grown(s[k]) else s[j + 1]
  }

  lemma MergeList(s: seq<Region>, t: seq<Region>, k: nat)
    requires k + 1 < |s| && |t| == |s| - 1
    requires forall j | 0 <= j < |t| :: t[j] == Shifted(s, k, j)
    ensures t == MergeAt(s, k)
  {
    var u := MergeAt(s, k);
    assert |u| == |t| && forall j | 0 <= j < |t| :: t[j] == u[j];
  }

  lemma AtLeastOne(s: seq<Region>, r: Region)
    requires r in s
    ensures |s| >= 1
  {
  }

  /** Validity and membership survive sorting. */
  lemma SortedList(s: seq<Region>, t: seq<Region>)
    requires multiset(s) == multiset(t) && AllValid(s) && forall i | 0 <= i < |s| :: s[i].order != 0
    ensures AllValid(t) && (forall r :: r in s <==> r in t) && forall i | 0 <= i < |t| :: t[i].order != 0
  {
    PermutationMeaning(s, t);
    Members(s, t);
    forall i | 0 <= i < |t| ensures t[i].order != 0 { assert t[i] in s; }
  }

  /** What sanitize_domain asks of the next stage's address. */
  const EXECUTE: Access := Access(false, false, true, false)

  /** A reported conflict is one, wherever the sort has moved it. */
  lemma Reported(s: seq<Region>, t: seq<Region>)
    requires |s| >= 1 && multiset(s) == multiset(t)
    ensures Exchanges(s, 0, 1).None? ==> !NoConflicts(t)
  {
    hide Exchanges, Conflict;
    if NoConflicts(t) {
      PermutationNoConflicts(t, s);
      NothingToReport(s, 0, 1);
    }
  }

  /** What sanitize_domain looks at besides the table: the mask of possible harts, the harts there are,
      the firmware region, and where and in which mode the next stage starts. */
  datatype Policy = Policy(possible: Option<set<nat>>, harts: set<nat>, fw: Region, nextAddr: Word,
                           nextIsSupervisorOrUser: bool)

  predicate HartsOk(p: Policy) { p.possible.Some? && p.possible.value <= p.harts }

  /** The table sanitize_domain leaves when it accepts one. */
  ghost function Sanitized(p: Policy, s: seq<Region>): Option<seq<Region>> {
    if HartsOk(p) && AllValid(s) && p.fw in s && p.nextIsSupervisorOrUser && Exchanges(s, 0, 1).Some?
       && Allowed(Exchanges(s, 0, 1).value, p.nextAddr, false, EXECUTE)
    then Exchanges(s, 0, 1) else None
  }

  /** It accepts exactly a table of valid regions with the firmware region, without a conflict the sort
      meets, for harts that exist and a next stage in S- or U-mode whose first region may be executed
      and is no device. */
  lemma AcceptedExactly(p: Policy, s: seq<Region>)
    ensures Sanitized(p, s).Some? <==>
      && p.possible.Some? && (forall h | h in p.possible.value :: h in p.harts)
      && AllValid(s) && p.fw in s && p.nextIsSupervisorOrUser && Exchanges(s, 0, 1).Some?
      && var first := FirstMatch(Exchanges(s, 0, 1).value, p.nextAddr);
         first.Some? && first.value.flags.x && !first.value.flags.mmio
  {
    hide Exchanges, Allowed, FirstMatch, AllValid;
    if |s| > 0 && Exchanges(s, 0, 1).Some? {
      AllowedIsFirst(Exchanges(s, 0, 1).value, p.nextAddr, EXECUTE);
    }
  }

  /** One pass over the list from place k on, merging buddies as it meets them. */
  function PassFrom(s: seq<Region>, k: nat): (r: seq<Region>)
    ensures |r| <= |s|
    decreases |s| - k
  {
    if k >= |s| then s
    else if k + 1 < |s| && Mergeable(s[k], s[k + 1]) then PassFrom(MergeAt(s, k), k + 1)
    else PassFrom(s, k + 1)
  }

  /** The loop of sbi_domain_root_add_memregion: sanitize and merge until nothing is left to merge. */
  ghost function Optimized(p: Policy, s: seq<Region>): Option<seq<Region>>
    decreases |s|
  {
    match Sanitized(p, s)
    case None => None
    case Some(t) =>
      SanitizedSize(p, s);
      var u := PassFrom(t, 0);
      if |u| < |t| then Optimized(p, u) else Some(u)
  }

  lemma SanitizedSize(p: Policy, s: seq<Region>)
    ensures Sanitized(p, s).Some? ==> |Sanitized(p, s).value| == |s|
  {
    hide Exchanges, Allowed;
    if |s| >= 1 {
      ExchangesSize(s, 0, 1);
    }
  }

  class Root {
    const regs: array<Region>
    const policy: Policy
    var count: nat
    ghost var len: nat     // the regions before the first terminator

    ghost predicate Valid()
      reads this, regs
    {
      && regs.Length == REGION_MAX + 1 && len <= count <= REGION_MAX
      && regs[len].order == 0 && forall i | 0 <= i < len :: regs[i].order != 0
    }

    /** The counter agrees with the terminator. */
    ghost predicate Intact()
      reads this
    {
      len == count
    }

    /** The regions before the terminator. */
    ghost function List(): seq<Region>
      requires Valid()
      reads this, regs
    {
      regs[..len]
    }

    /** The table sbi_domain_init starts with: the firmware region and the whole memory. */
    constructor (fw: Region, all: Region, possible: Option<set<nat>>, harts: set<nat>, nextAddr: Word, mode: bool)
      requires ValidRegion(fw) && ValidRegion(all)
      ensures Valid() && Intact() && List() == [fw, all] && fresh(regs)
      ensures policy == Policy(possible, harts, fw, nextAddr, mode)
      ensures fw.flags != all.flags ==> NoConflicts(List())
    {
      var blank := Region(0, 0, Flags(false, false, false, false, false, 0));
      regs := new Region[REGION_MAX + 1](_ => blank);
      policy := Policy(possible, harts, fw, nextAddr, mode);
      count, len := 2, 2;
      new;
      regs[0], regs[1] := fw, all;
    }

    /** sbi_domain_check_addr. */
    method CheckAddr(addr: Word, machine: bool, acc: Access) returns (ok: bool)
      requires Valid() && AllValid(List())
      ensures ok == Allowed(List(), addr, machine, acc)
    {
      hide Pow2, ValidRegion, Contains, LastAddress, Grants;
      var i := 0;
      while regs[i].order != 0
        invariant 0 <= i <= len
        invariant Allowed(List(), addr, machine, acc) == Allowed(List()[i..], addr, machine, acc)
        decreases len - i
      {
        var r := regs[i];
        assert List()[i..][0] == r && List()[i..][1..] == List()[i + 1..];
        assert ValidRegion(List()[i]);
        InBounds(r, addr);
        if Concerns(r, machine) && r.base <= addr <= LastAddress(r) {
          return Grants(r.flags, acc);
        }
        i := i + 1;
      }
      ok := machine;
    }

    /** The checks sanitize_domain makes before it sorts. */
    method Scan() returns (ok: bool, n: nat)
      requires Valid()
      ensures ok <==> HartsOk(policy) && AllValid(List()) && policy.fw in List()
      ensures ok ==> n == len
    {
      n := 0;
      if !HartsOk(policy) {
        return false, n;
      }
      var haveFw := false;
      while regs[n].order != 0
        invariant 0 <= n <= len && AllValid(regs[..n]) && (haveFw <==> policy.fw in regs[..n])
        decreases len - n
      {
        if !ValidRegion(regs[n]) {
          return false, n;
        }
        haveFw := haveFw || regs[n] == policy.fw;
        n := n + 1;
      }
      ok := haveFw;
    }

    /** Why a table is turned down. */
    ghost predicate Refused(s: seq<Region>) {
      || !HartsOk(policy) || !AllValid(s) || policy.fw !in s || !NoConflicts(s) || !policy.nextIsSupervisorOrUser
      || (Sorted(s) && !Allowed(s, policy.nextAddr, false, EXECUTE))
    }

    /** sanitize_domain: exactly when it accepts, and then the regions are valid, in order, and the
        same as before. */
    method Sanitize() returns (ok: bool)
      requires Valid()
      modifies regs
      ensures Valid() && multiset(List()) == multiset(old(List()))
      ensures ok <==> Sanitized(policy, old(List())).Some?
      ensures ok ==> Some(List()) == Sanitized(policy, old(List()))
      ensures ok ==> AllValid(List()) && Sorted(List()) && policy.fw in List()
      ensures !ok ==> Refused(List())
    {
      hide ValidRegion, Conflict, Sorted, Allowed, Exchanges;
      var n;
      ok, n := Scan();
      if !ok {
        return;
      }
      ghost var before := List();
      AtLeastOne(before, policy.fw);
      var conflict := SortRegions(regs, n);
      SortedList(before, regs[..n]);
      assert regs[n] == regs[n..][0];
      if conflict || !policy.nextIsSupervisorOrUser {
        Reported(before, List());
        return false;
      }
      ok := CheckAddr(policy.nextAddr, false, EXECUTE);
    }

    /** Replacing two neighbours by their union and closing the gap. */
    method MergeHere(k: nat)
      requires Valid() && k + 1 < len
      modifies regs, `count, `len
      ensures Valid() && count == old(count) - 1 && len == old(len) - 1 && List() == MergeAt(old(List()), k)
    {
      ghost var s := List();
      regs[k] := Grown(regs[k]);
      var i := k + 1;
      while regs[i].order != 0
        invariant k + 1 <= i <= len == |s| && count == old(count)
        invariant forall j | 0 <= j < i && j + 1 < len :: regs[j] == Shifted(s, k, j)
        invariant forall j | i <= j < len :: regs[j] == s[j]
        invariant regs[len].order == 0 && (i == len ==> regs[len - 1].order == 0)
        invariant forall j | 0 <= j < len :: s[j].order != 0
        decreases len - i
      {
        regs[i] := regs[i + 1];
        i := i + 1;
      }
      count, len := count - 1, len - 1;
      MergeList(s, regs[..len], k);
    }

    /** One pass over the array, merging buddies as it meets them. */
    method MergePass() returns (merged: bool)
      requires Valid() && AllValid(List()) && Sorted(List())
      modifies regs, `count, `len
      ensures Valid() && count - len == old(count - len) && List() == PassFrom(old(List()), 0)
      ensures merged <==> len < old(len)
      ensures merged <==> !Unmergeable(old(List()), |old(List())|)
      ensures !merged ==> List() == old(List())
      ensures TwinFree(old(List())) ==> TwinFree(List()) && SameMeaning(old(List()), List())
      ensures NoConflicts(old(List())) ==> NoConflicts(List())
    {
      hide Sorted, AllValid, Mergeable, TwinFree, SameMeaning, MergeAt, NoConflicts;
      ghost var s0 := List();
      StartPass(s0);
      merged := false;
      var k := 0;
      while regs[k].order != 0
        invariant 0 <= k <= len && Valid() && count - len == old(count - len)
        invariant if merged then len < |s0| else len == |s0|
        invariant SortedFrom(List(), k) && PassFrom(s0, 0) == PassFrom(List(), k)
        invariant !merged ==> List() == s0 && Unmergeable(List(), k)
        invariant merged ==> !Unmergeable(s0, |s0|)
        invariant TwinFree(s0) ==> TwinFree(List()) && SameMeaning(s0, List())
        invariant NoConflicts(s0) ==> AllValid(List()) && NoConflicts(List())
        decreases len - k
      {
        ghost var s := List();
        if regs[k + 1].order == 0 {
          NextPlace(s, k);
        } else if Mergeable(regs[k], regs[k + 1]) {
          MergeHere(k);
          MergeInPass(s0, s, k);
          merged := true;
        } else {
          NextPlace(s, k);
        }
        k := k + 1;
      }
    }

    /** sbi_domain_root_add_memregion. A region takes effect if the counter agrees with the terminator
        and its order is not 0; a region of order 0 becomes a terminator of its own, and what is
        added after it lands behind that. */
    method AddRegion(reg: Region) returns (ok: bool)
      requires Valid()
      modifies regs, `count, `len
      ensures Valid()
      ensures ok <==>
        && old(count) < REGION_MAX && (forall r | r in old(List()) :: !Conflict(reg, r))
        && Optimized(policy, Appended(old(List()), old(Intact()), reg)).Some?
      ensures ok ==> Some(List()) == Optimized(policy, Appended(old(List()), old(Intact()), reg))
      ensures ok ==> AllValid(List()) && Sorted(List()) && Unmergeable(List(), |List()|)
      ensures ok ==> (Intact() <==> old(Intact()) && reg.order != 0)
      ensures var s0 := Appended(old(List()), old(Intact()), reg);
        ok && TwinFree(s0) ==> TwinFree(List()) && SameMeaning(s0, List())
      ensures NoConflicts(old(List())) ==> NoConflicts(List())
      ensures !ok ==> old(count) == REGION_MAX || Refused(List()) || exists r :: r in old(List()) && Conflict(reg, r)
    {
      hide Sorted, AllValid, Mergeable, TwinFree, SameMeaning, Conflict, NoConflicts, Exchanges, Allowed, Refused,
        Optimized, PassFrom, Unmergeable;
      if count >= REGION_MAX {
        return false;
      }
      var clash := Clashes(reg);
      if clash {
        ghost var i :| 0 <= i < len && Conflict(reg, regs[i]);
        assert regs[i] in List();
        return false;
      }
      assert forall r | r in List() :: !Conflict(reg, r);
      AppendedApart(List(), reg);
      Append(reg);
      ok := Optimize();
    }

    /** Storing the region where the counter points, with a terminator behind it. */
    method Append(reg: Region)
      requires Valid() && count < REGION_MAX
      modifies regs, `count, `len
      ensures Valid() && List() == Appended(old(List()), old(Intact()), reg) && count == old(count) + 1
      ensures Intact() <==> old(Intact()) && reg.order != 0
    {
      regs[count] := reg;
      if Intact() && reg.order != 0 {
        len := len + 1;
      }
      count := count + 1;
      regs[count] := regs[count].(order := 0);
    }

    /** The loop that sorts and merges. */
    method Optimize() returns (ok: bool)
      requires Valid()
      modifies regs, `count, `len
      ensures Valid() && count - len == old(count - len)
      ensures ok <==> Optimized(policy, old(List())).Some?
      ensures ok ==> Some(List()) == Optimized(policy, old(List()))
      ensures ok ==> AllValid(List()) && Sorted(List()) && Unmergeable(List(), |List()|)
      ensures TwinFree(old(List())) && ok ==> TwinFree(List()) && SameMeaning(old(List()), List())
      ensures NoConflicts(old(List())) ==> NoConflicts(List())
      ensures !ok ==> Refused(List())
    {
      hide Sorted, AllValid, Mergeable, TwinFree, SameMeaning, Conflict, NoConflicts, Exchanges, Allowed, Refused,
        Sanitized, PassFrom, Unmergeable;
      ghost var s0 := List();
      SameRefl(s0);
      var merged := true;
      while merged
        invariant Valid() && count - len == old(count - len)
        invariant TwinFree(s0) ==> TwinFree(List()) && SameMeaning(s0, List())
        invariant NoConflicts(s0) ==> NoConflicts(List())
        invariant Optimized(policy, s0) == if merged then Optimized(policy, List()) else Some(List())
        invariant !merged ==> AllValid(List()) && Sorted(List()) && Unmergeable(List(), |List()|)
        decreases if merged then len + 1 else 0
      {
        ghost var s1 := List();
        ok := Sanitize();
        KeptApart(s1, List());
        if !ok {
          return;
        }
        Resorted(s0, s1, List());
        ghost var s2 := List();
        merged := MergePass();
        Repassed(s0, s2, List());
      }
      ok := true;
    }

    /** The conflict scan before the region is appended. */
    method Clashes(reg: Region) returns (clash: bool)
      requires Valid()
      ensures clash <==> exists i :: 0 <= i < len && Conflict(reg, regs[i])
    {
      var i := 0;
      while regs[i].order != 0
        invariant 0 <= i <= len && forall j | 0 <= j < i :: !Conflict(reg, regs[j])
        decreases len - i
      {
        if Conflict(reg, regs[i]) {
          return true;
        }
        i := i + 1;
      }
      clash := false;
    }
  }

  /** The list after a region was stored where the counter points. */
  function Appended(s: seq<Region>, intact: bool, reg: Region): seq<Region> {
    if intact && reg.order != 0 then s + [reg] else s
  }

  /** A region of order 0 is accepted like any other, and hides the next one: the table is then the
      same as if neither had been added. */
  method AddBehindZero(root: Root, zero: Region, next: Region) returns (ok0: bool, ok1: bool)
    requires root.Valid() && root.Intact() && zero.order == 0
    requires Sorted(root.List()) && Unmergeable(root.List(), |root.List()|)
    modifies root, root.regs
    ensures root.Valid()
    ensures ok0 <==>
      && old(root.count) < REGION_MAX && (forall r | r in old(root.List()) :: !Conflict(zero, r))
      && Sanitized(root.policy, old(root.List())).Some?
    ensures ok0 && ok1 ==> root.List() == old(root.List()) && !root.Intact()
  {
    hide Sorted, Mergeable, Conflict, Sanitized, Unmergeable, Exchanges, Allowed, TwinFree, SameMeaning,
      NoConflicts, AllValid;
    ghost var s := root.List();
    OptimizedStays(root.policy, s);
    ok0 := root.AddRegion(zero);
    ok1 := false;
    if ok0 {
      ok1 := root.AddRegion(next);
    }
  }

  /** A table that is in order and fully merged comes out as it went in. */
  lemma OptimizedStays(p: Policy, s: seq<Region>)
    requires Sorted(s) && Unmergeable(s, |s|)
    ensures Optimized(p, s) == Sanitized(p, s)
    ensures Sanitized(p, s).Some? ==> Sanitized(p, s) == Some(s)
  {
    hide Sorted, Unmergeable, PassFrom, Exchanges, Allowed;
    PassNothing(s, 0);
    if |s| >= 1 {
      SortedStays(s);
    }
  }

  lemma {:induction false} PassNothing(s: seq<Region>, k: nat)
    requires Unmergeable(s, |s|)
    ensures PassFrom(s, k) == s
    decreases |s| - k
  {
    hide Mergeable;
    if k < |s| {
      PassNothing(s, k + 1);
    }
  }

  // ---------------------------------------------------------------- steps of a pass

  /** The first k pairs of neighbours were no buddies. */
  ghost predicate Unmergeable(s: seq<Region>, k: nat) {
    forall i | 0 <= i < k && i + 1 < |s| :: !Mergeable(s[i], s[i + 1])
  }

  /** No two neighbours of such a list are the halves of one larger block with the same flags. */
  lemma NoHalvesLeft(s: seq<Region>, i: nat)
    requires Unmergeable(s, |s|) && AllValid(s) && Sorted(s) && i + 1 < |s|
    ensures var a, b := s[i], s[i + 1];
      !(a.order == b.order && a.flags == b.flags && b.base == a.base + Pow2(a.order) &&
        a.base % (2 * Pow2(a.order)) == 0)
  {
    hide Mergeable, Pow2, ValidRegion;
    assert ValidRegion(s[i]) && ValidRegion(s[i + 1]) && !Before(s[i + 1], s[i]);
    MergeableExactly(s[i], s[i + 1]);
  }

  ghost predicate SortedFrom(s: seq<Region>, k: nat) {
    forall p, q | k <= p < q < |s| :: !Before(s[q], s[p])
  }

  lemma AppendedApart(s: seq<Region>, r: Region)
    requires forall i | 0 <= i < |s| :: !Conflict(r, s[i])
    ensures NoConflicts(s) ==> NoConflicts(s + [r])
  {
    hide Subset;
  }

  lemma KeptApart(s: seq<Region>, t: seq<Region>)
    requires multiset(s) == multiset(t)
    ensures NoConflicts(s) ==> NoConflicts(t)
  {
    hide Conflict;
    if NoConflicts(s) {
      PermutationNoConflicts(s, t);
    }
  }

  lemma SameRefl(s: seq<Region>)
    ensures SameMeaning(s, s)
  {
  }

  lemma StartPass(s: seq<Region>)
    requires Sorted(s)
    ensures SortedFrom(s, 0) && SameMeaning(s, s)
  {
  }

  lemma NextPlace(s: seq<Region>, k: nat)
    requires SortedFrom(s, k) && (k + 1 < |s| ==> !Mergeable(s[k], s[k + 1]))
    ensures SortedFrom(s, k + 1) && (Unmergeable(s, k) ==> Unmergeable(s, k + 1))
  {
  }

  lemma MergeInPass(s0: seq<Region>, s: seq<Region>, k: nat)
    requires k + 1 < |s| && SortedFrom(s, k) && Mergeable(s[k], s[k + 1])
    requires TwinFree(s0) ==> TwinFree(s) && SameMeaning(s0, s)
    requires NoConflicts(s0) ==> AllValid(s) && NoConflicts(s)
    ensures SortedFrom(MergeAt(s, k), k + 1)
    ensures TwinFree(s0) ==> TwinFree(MergeAt(s, k)) && SameMeaning(s0, MergeAt(s, k))
    ensures NoConflicts(s0) ==> AllValid(MergeAt(s, k)) && NoConflicts(MergeAt(s, k))
  {
    hide TwinFree, SameMeaning, Mergeable, NoConflicts, AllValid;
    if NoConflicts(s0) {
      MergeNoConflicts(s, k);
    }
    if TwinFree(s0) {
      MergeTwinFree(s, k);
      MergeMeaning(s, k);
      MeaningTransitive(s0, s, MergeAt(s, k));
    }
  }

  lemma Resorted(s0: seq<Region>, s1: seq<Region>, s2: seq<Region>)
    requires multiset(s1) == multiset(s2) && (TwinFree(s0) ==> TwinFree(s1) && SameMeaning(s0, s1))
    ensures TwinFree(s0) ==> TwinFree(s2) && SameMeaning(s0, s2)
  {
    if TwinFree(s0) {
      PermutationTwinFree(s1, s2);
      PermutationMeaning(s1, s2);
      MeaningTransitive(s0, s1, s2);
    }
  }

  lemma Repassed(s0: seq<Region>, s1: seq<Region>, s2: seq<Region>)
    requires TwinFree(s0) ==> TwinFree(s1) && SameMeaning(s0, s1)
    requires TwinFree(s1) ==> TwinFree(s2) && SameMeaning(s1, s2)
    ensures TwinFree(s0) ==> TwinFree(s2) && SameMeaning(s0, s2)
  {
    hide TwinFree;
    if TwinFree(s0) {
      MeaningTransitive(s0, s1, s2);
    }
  }

  // ---------------------------------------------------------------- what that means for the check

  /** After a successful addition S- and U-mode are allowed exactly what the smallest region among
      the old ones and the new one grants. */
  lemma AllowedBySmallest(s: seq<Region>, t: seq<Region>, a: Word, acc: Access)
    requires TwinFree(t) && Sorted(t) && SameMeaning(s, t)
    ensures Allowed(t, a, false, acc) <==> exists r: Region :: Decides(s, a, r) && Grants(r.flags, acc)
  {
    hide Sorted, Contains, ValidRegion, NotTiled;
    AllowedIsFirst(t, a, acc);
    FirstIsSmallest(t, a);
    var first := FirstMatch(t, a);
    if first.Some? && Grants(first.value.flags, acc) {
      assert DecidedAs(t, a, first.value.flags);
      assert DecidedAs(s, a, first.value.flags);
    }
    if r: Region :| Decides(s, a, r) && Grants(r.flags, acc) {
      assert DecidedAs(s, a, r.flags);
      var q: Region :| Decides(t, a, q) && q.flags == r.flags;
      SameBlock(first.value, q, a);
      Twins(t, first.value, q);
    }
  }
}
