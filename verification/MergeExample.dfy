/** A root domain in which adding a region changes who decides an address that other regions cover:
    sbi_domain_init followed by three calls of sbi_domain_root_add_memregion
    (opensbi-1.2/lib/sbi/sbi_domain.c). */
module MergeExample {
  import opened Common
  import opened Bits
  import opened Domain
  import opened RegionSort
  import opened DomainRoot

  // Two buddies in the upper half of 0..63, the lower half, and the regions they are merged into.
  function Low(g: Flags): Region { Region(32, 4, g) }
  function High(g: Flags): Region { Region(48, 4, g) }
  function Left(g: Flags): Region { Region(0, 5, g) }
  function Right(g: Flags): Region { Region(32, 5, g) }
  function Both(g: Flags): Region { Region(0, 6, g) }
  function All(f: Flags): Region { Region(0, 64, f) }

  /** Three flag words: g for the regions that get merged, h for the firmware region, f for the rest. */
  datatype Case = Case(g: Flags, h: Flags, f: Flags)

  predicate Ready(c: Case, p: Policy) {
    && c.g != c.h && Grants(c.g, EXECUTE) && Grants(c.f, EXECUTE)
    && HartsOk(p) && p.fw == Right(c.h) && p.nextAddr == 0 && p.nextIsSupervisorOrUser
  }

  // The tables after sbi_domain_init and after each addition; the last one passes through two merges.
  function Start(c: Case): seq<Region> { [Right(c.h), All(c.f)] }
  function First(c: Case): seq<Region> { [Low(c.g), Right(c.h), All(c.f)] }
  function Second(c: Case): seq<Region> { [Low(c.g), Left(c.g), Right(c.h), All(c.f)] }
  function Third(c: Case): seq<Region> { [Low(c.g), High(c.g), Left(c.g), Right(c.h), All(c.f)] }
  function OnePass(c: Case): seq<Region> { [Right(c.g), Left(c.g), Right(c.h), All(c.f)] }
  function OneSorted(c: Case): seq<Region> { [Left(c.g), Right(c.g), Right(c.h), All(c.f)] }
  function TwoPasses(c: Case): seq<Region> { [Both(c.g), Right(c.h), All(c.f)] }
  function Final(c: Case): seq<Region> { [Right(c.h), Both(c.g), All(c.f)] }

  // ---------------------------------------------------------------- facts about single regions

  lemma SmallPowers()
    ensures Pow2(4) == 16 && Pow2(5) == 32 && Pow2(6) == 64
  {
  }

  lemma AllRegionsValid(c: Case)
    ensures ValidRegion(Low(c.g)) && ValidRegion(High(c.g)) && ValidRegion(Left(c.g)) && ValidRegion(Right(c.g))
    ensures ValidRegion(Both(c.g)) && ValidRegion(Right(c.h)) && ValidRegion(All(c.f))
  {
    hide Pow2;
    SmallPowers();
  }

  lemma DifferentFlags(a: Region, b: Region)
    requires a.flags != b.flags
    ensures !Conflict(a, b) && !Conflict(b, a) && !Mergeable(a, b)
  {
  }

  /** The whole memory conflicts with nothing and merges with nothing smaller. */
  lemma WholeMemory(r: Region, f: Flags)
    requires ValidRegion(r) && r.order < 64
    ensures !Conflict(r, All(f)) && !Conflict(All(f), r) && !Mergeable(r, All(f))
  {
    hide Pow2, Subset;
    AllValidHere(f);
    SubsetMeans(r, All(f));
    SubsetMeans(All(f), r);
  }

  lemma AllValidHere(f: Flags)
    ensures ValidRegion(All(f))
  {
  }

  lemma SameFlags(g: Flags)
    ensures !Conflict(Left(g), Low(g)) && !Conflict(High(g), Low(g)) && !Conflict(High(g), Left(g))
    ensures !Conflict(Left(g), Right(g)) && !Conflict(Right(g), Left(g)) && !Mergeable(Low(g), Left(g))
    ensures Mergeable(Low(g), High(g)) && Mergeable(Left(g), Right(g))
  {
    hide Pow2;
    SmallPowers();
  }

  /** All the comparisons the three calls make. */
  lemma Comparisons(c: Case)
    requires c.g != c.h
    ensures !Conflict(Left(c.g), Low(c.g)) && !Conflict(High(c.g), Low(c.g)) && !Conflict(High(c.g), Left(c.g))
    ensures !Conflict(Left(c.g), Right(c.g)) && !Conflict(Right(c.g), Left(c.g))
    ensures !Conflict(Low(c.g), Right(c.h)) && !Conflict(Right(c.h), Low(c.g)) && !Conflict(High(c.g), Right(c.h))
    ensures !Conflict(Left(c.g), Right(c.h)) && !Conflict(Right(c.h), Left(c.g)) && !Conflict(Right(c.h), Right(c.g))
    ensures !Conflict(Right(c.h), Both(c.g)) && !Conflict(Right(c.h), High(c.g))
    ensures !Conflict(All(c.f), Low(c.g)) && !Conflict(Low(c.g), All(c.f)) && !Conflict(All(c.f), High(c.g))
    ensures !Conflict(High(c.g), All(c.f)) && !Conflict(All(c.f), Left(c.g)) && !Conflict(Left(c.g), All(c.f))
    ensures !Conflict(All(c.f), Right(c.g)) && !Conflict(All(c.f), Right(c.h)) && !Conflict(Right(c.h), All(c.f))
    ensures !Conflict(All(c.f), Both(c.g))
  {
    hide Conflict, Mergeable, ValidRegion;
    SameFlags(c.g);
    DifferentFlags(Low(c.g), Right(c.h));
    DifferentFlags(High(c.g), Right(c.h));
    DifferentFlags(Left(c.g), Right(c.h));
    DifferentFlags(Right(c.g), Right(c.h));
    DifferentFlags(Both(c.g), Right(c.h));
    AllRegionsValid(c);
    WholeMemory(Low(c.g), c.f);
    WholeMemory(High(c.g), c.f);
    WholeMemory(Left(c.g), c.f);
    WholeMemory(Right(c.g), c.f);
    WholeMemory(Right(c.h), c.f);
    WholeMemory(Both(c.g), c.f);
  }

  // ---------------------------------------------------------------- the sorts

  lemma Swaps3(x: Region, y: Region, z: Region)
    ensures Swap([x, y, z], 0, 1) == [y, x, z] && Swap([x, y, z], 0, 2) == [z, y, x]
    ensures Swap([x, y, z], 1, 2) == [x, z, y]
  {
  }

  lemma Swaps4(x: Region, y: Region, z: Region, w: Region)
    ensures Swap([x, y, z, w], 0, 1) == [y, x, z, w] && Swap([x, y, z, w], 1, 3) == [x, w, z, y]
    ensures Swap([x, y, z, w], 2, 3) == [x, y, w, z]
  {
  }

  lemma Swaps5(x: Region, y: Region, z: Region, w: Region, v: Region)
    ensures Swap([x, y, z, w, v], 1, 4) == [x, v, z, w, y] && Swap([x, y, z, w, v], 2, 4) == [x, y, v, w, z]
    ensures Swap([x, y, z, w, v], 3, 4) == [x, y, z, v, w]
  {
  }

  lemma SortFirst(c: Case)
    requires c.g != c.h
    ensures Exchanges(Start(c) + [Low(c.g)], 0, 1) == Some(First(c))
  {
    hide Conflict, Swap;
    Comparisons(c);
    var l, r, m := Low(c.g), Right(c.h), All(c.f);
    var s, s1, t: seq<Region> := [r, m, l], [l, m, r], [l, r, m];
    assert Start(c) + [l] == s;
    Swaps3(r, m, l);
    Swaps3(l, m, r);
    assert Exchanges(s, 0, 1) == Exchanges(s, 0, 2) == Exchanges(s1, 0, 3) == Exchanges(s1, 1, 2);
    assert Exchanges(s1, 1, 2) == Exchanges(t, 1, 3) == Exchanges(t, 2, 3) == Some(t);
  }

  lemma SortSecond(c: Case)
    requires c.g != c.h
    ensures Exchanges(First(c) + [Left(c.g)], 0, 1) == Some(Second(c))
  {
    hide Conflict, Swap;
    Comparisons(c);
    var l, z, r, m := Low(c.g), Left(c.g), Right(c.h), All(c.f);
    var s, s1, t: seq<Region> := [l, r, m, z], [l, z, m, r], [l, z, r, m];
    assert First(c) + [z] == s;
    Swaps4(l, r, m, z);
    Swaps4(l, z, m, r);
    assert Exchanges(s, 0, 1) == Exchanges(s, 0, 2) == Exchanges(s, 0, 3) == Exchanges(s, 0, 4) == Exchanges(s, 1, 2);
    assert Exchanges(s, 1, 2) == Exchanges(s, 1, 3) == Exchanges(s1, 1, 4) == Exchanges(s1, 2, 3);
    assert Exchanges(s1, 2, 3) == Exchanges(t, 2, 4) == Exchanges(t, 3, 4) == Some(t);
  }

  lemma SortThird(c: Case)
    requires c.g != c.h
    ensures Exchanges(Second(c) + [High(c.g)], 0, 1) == Some(Third(c))
  {
    hide Conflict, Swap;
    Comparisons(c);
    var l, y, z, r, m := Low(c.g), High(c.g), Left(c.g), Right(c.h), All(c.f);
    var s, s1, s2, t: seq<Region> := [l, z, r, m, y], [l, y, r, m, z], [l, y, z, m, r], [l, y, z, r, m];
    assert Second(c) + [y] == s;
    Swaps5(l, z, r, m, y);
    Swaps5(l, y, r, m, z);
    Swaps5(l, y, z, m, r);
    assert Exchanges(s, 0, 1) == Exchanges(s, 0, 2) == Exchanges(s, 0, 3) == Exchanges(s, 0, 4);
    assert Exchanges(s, 0, 4) == Exchanges(s, 0, 5) == Exchanges(s, 1, 2) == Exchanges(s, 1, 3) == Exchanges(s, 1, 4);
    assert Exchanges(s, 1, 4) == Exchanges(s1, 1, 5) == Exchanges(s1, 2, 3) == Exchanges(s1, 2, 4);
    assert Exchanges(s1, 2, 4) == Exchanges(s2, 2, 5) == Exchanges(s2, 3, 4);
    assert Exchanges(s2, 3, 4) == Exchanges(t, 3, 5) == Exchanges(t, 4, 5) == Some(t);
  }

  lemma SortAfterPasses(c: Case)
    requires c.g != c.h
    ensures Exchanges(OnePass(c), 0, 1) == Some(OneSorted(c)) && Exchanges(TwoPasses(c), 0, 1) == Some(Final(c))
  {
    hide Conflict, Swap;
    Comparisons(c);
    var s, t := OnePass(c), OneSorted(c);
    Swaps4(s[0], s[1], s[2], s[3]);
    assert Exchanges(s, 0, 1) == Exchanges(t, 0, 2) == Exchanges(t, 0, 3) == Exchanges(t, 0, 4) == Exchanges(t, 1, 2);
    assert Exchanges(t, 1, 2) == Exchanges(t, 1, 3) == Exchanges(t, 1, 4) == Exchanges(t, 2, 3);
    assert Exchanges(t, 2, 3) == Exchanges(t, 2, 4) == Exchanges(t, 3, 4) == Some(t);
    var u, v := TwoPasses(c), Final(c);
    Swaps3(u[0], u[1], u[2]);
    assert Exchanges(u, 0, 1) == Exchanges(v, 0, 2) == Exchanges(v, 0, 3) == Exchanges(v, 1, 2);
    assert Exchanges(v, 1, 2) == Exchanges(v, 1, 3) == Exchanges(v, 2, 3) == Some(v);
  }

  // ---------------------------------------------------------------- the passes

  lemma Merges(c: Case)
    requires c.g != c.h
    ensures !Mergeable(Low(c.g), Right(c.h)) && !Mergeable(Right(c.h), All(c.f)) && !Mergeable(Low(c.g), Left(c.g))
    ensures !Mergeable(Left(c.g), Right(c.h)) && !Mergeable(Right(c.h), Both(c.g)) && !Mergeable(Both(c.g), All(c.f))
    ensures Mergeable(Low(c.g), High(c.g)) && Mergeable(Left(c.g), Right(c.g))
  {
    hide Conflict, Mergeable, ValidRegion;
    SameFlags(c.g);
    DifferentFlags(Low(c.g), Right(c.h));
    DifferentFlags(Left(c.g), Right(c.h));
    DifferentFlags(Right(c.h), Both(c.g));
    AllRegionsValid(c);
    WholeMemory(Right(c.h), c.f);
    WholeMemory(Both(c.g), c.f);
  }

  /** The first two calls merge nothing; the third one merges in two passes of three. */
  lemma Passes(c: Case)
    requires c.g != c.h
    ensures PassFrom(First(c), 0) == First(c) && PassFrom(Second(c), 0) == Second(c)
    ensures PassFrom(Third(c), 0) == OnePass(c) && PassFrom(OneSorted(c), 0) == TwoPasses(c)
    ensures PassFrom(Final(c), 0) == Final(c)
  {
    hide Mergeable, MergeAt;
    Merges(c);
    MergeList(Third(c), OnePass(c), 0);
    MergeList(OneSorted(c), TwoPasses(c), 0);
    var a, b, s, t, u := First(c), Second(c), OnePass(c), TwoPasses(c), Final(c);
    assert PassFrom(a, 0) == PassFrom(a, 1) == PassFrom(a, 2) == PassFrom(a, 3) == a;
    assert PassFrom(b, 0) == PassFrom(b, 1) == PassFrom(b, 2) == PassFrom(b, 3) == PassFrom(b, 4) == b;
    assert PassFrom(s, 1) == PassFrom(s, 2) == PassFrom(s, 3) == PassFrom(s, 4) == s;
    assert PassFrom(t, 1) == PassFrom(t, 2) == PassFrom(t, 3) == t;
    assert PassFrom(u, 0) == PassFrom(u, 1) == PassFrom(u, 2) == PassFrom(u, 3) == u;
  }

  // ---------------------------------------------------------------- the decisions

  lemma Holds(c: Case)
    ensures !Contains(Low(c.g), 0) && !Contains(High(c.g), 0) && Contains(Left(c.g), 0) && !Contains(Right(c.h), 0)
    ensures Contains(Both(c.g), 0) && Contains(All(c.f), 0) && Contains(Low(c.g), 40) && Contains(Right(c.h), 40)
  {
    hide Pow2;
    SmallPowers();
    Pow2Word();
  }

  /** The first region that contains the address, with all before it passed over. */
  lemma {:induction false} AllowedAt(s: seq<Region>, k: nat, a: Word, acc: Access)
    requires k < |s| && Contains(s[k], a) && forall i | 0 <= i < k :: !Contains(s[i], a)
    ensures Allowed(s, a, false, acc) == Grants(s[k].flags, acc) && FirstMatch(s, a) == Some(s[k])
  {
    hide Contains, Grants;
    if k > 0 {
      AllowedAt(s[1..], k - 1, a, acc);
    }
  }

  /** Address 0 stays executable throughout. */
  lemma Executable(c: Case)
    requires Grants(c.g, EXECUTE) && Grants(c.f, EXECUTE)
    ensures Allowed(First(c), 0, false, EXECUTE) && Allowed(Second(c), 0, false, EXECUTE)
    ensures Allowed(Third(c), 0, false, EXECUTE) && Allowed(OneSorted(c), 0, false, EXECUTE)
    ensures Allowed(Final(c), 0, false, EXECUTE)
  {
    hide Contains, Grants, Allowed, FirstMatch;
    Holds(c);
    AllowedAt(First(c), 2, 0, EXECUTE);
    AllowedAt(Second(c), 1, 0, EXECUTE);
    AllowedAt(Third(c), 2, 0, EXECUTE);
    AllowedAt(OneSorted(c), 0, 0, EXECUTE);
    AllowedAt(Final(c), 1, 0, EXECUTE);
  }

  lemma Decisions(c: Case)
    ensures FirstMatch(Second(c), 40) == Some(Low(c.g)) && FirstMatch(Third(c), 40) == Some(Low(c.g))
    ensures FirstMatch(Final(c), 40) == Some(Right(c.h))
  {
    hide Contains, Grants, Allowed, FirstMatch;
    Holds(c);
    AllowedAt(Second(c), 0, 40, EXECUTE);
    AllowedAt(Third(c), 0, 40, EXECUTE);
    AllowedAt(Final(c), 0, 40, EXECUTE);
  }

  // ---------------------------------------------------------------- the three calls

  lemma SanitizedIs(p: Policy, s: seq<Region>, t: seq<Region>)
    requires HartsOk(p) && AllValid(s) && p.fw in s && p.nextIsSupervisorOrUser
    requires Exchanges(s, 0, 1) == Some(t) && Allowed(t, p.nextAddr, false, EXECUTE)
    ensures Sanitized(p, s) == Some(t)
  {
  }

  lemma Sanitizes(c: Case, p: Policy)
    requires Ready(c, p)
    ensures Sanitized(p, Start(c) + [Low(c.g)]) == Some(First(c))
    ensures Sanitized(p, First(c) + [Left(c.g)]) == Some(Second(c))
    ensures Sanitized(p, Second(c) + [High(c.g)]) == Some(Third(c))
    ensures Sanitized(p, OnePass(c)) == Some(OneSorted(c)) && Sanitized(p, TwoPasses(c)) == Some(Final(c))
  {
    hide Exchanges, Allowed, ValidRegion, Grants, Sanitized;
    AllRegionsValid(c);
    Executable(c);
    SortFirst(c);
    SortSecond(c);
    SortThird(c);
    SortAfterPasses(c);
    var s1, s2, s3 := Start(c) + [Low(c.g)], First(c) + [Left(c.g)], Second(c) + [High(c.g)];
    assert s1[0] == p.fw && s2[1] == p.fw && s3[2] == p.fw && OnePass(c)[2] == p.fw && TwoPasses(c)[1] == p.fw;
    SanitizedIs(p, s1, First(c));
    SanitizedIs(p, s2, Second(c));
    SanitizedIs(p, s3, Third(c));
    SanitizedIs(p, OnePass(c), OneSorted(c));
    SanitizedIs(p, TwoPasses(c), Final(c));
  }

  lemma Optimizes(c: Case, p: Policy)
    requires Ready(c, p)
    ensures Optimized(p, Start(c) + [Low(c.g)]) == Some(First(c))
    ensures Optimized(p, First(c) + [Left(c.g)]) == Some(Second(c))
    ensures Optimized(p, Second(c) + [High(c.g)]) == Some(Final(c))
  {
    hide Sanitized, PassFrom, Grants;
    Sanitizes(c, p);
    Passes(c);
    var s := Second(c) + [High(c.g)];
    assert Optimized(p, TwoPasses(c)) == Some(Final(c));
    assert Optimized(p, OnePass(c)) == Optimized(p, TwoPasses(c));
    assert Optimized(p, s) == Optimized(p, OnePass(c));
  }

  lemma NoClashes(c: Case)
    requires c.g != c.h
    ensures forall r | r in Start(c) :: !Conflict(Low(c.g), r)
    ensures forall r | r in First(c) :: !Conflict(Left(c.g), r)
    ensures forall r | r in Second(c) :: !Conflict(High(c.g), r)
  {
    hide Conflict;
    Comparisons(c);
  }

  /** The table and the new region are fine: valid, in order, of distinct extents, without conflicts.
      Only the condition of the general result fails. */
  lemma ThirdIsFine(c: Case)
    requires c.g != c.h
    ensures AllValid(Third(c)) && Sorted(Third(c)) && NoTwins(Third(c)) && NoConflicts(Third(c)) && !NotTiled(Third(c))
  {
    hide Conflict, ValidRegion, NotTiled;
    AllRegionsValid(c);
    Comparisons(c);
    var s := Third(c);
    ConflictSymmetric(s[0], s[1]);
    ConflictSymmetric(s[0], s[2]);
    ThirdIsTiled(c);
  }

  lemma ThirdIsTiled(c: Case)
    ensures !NotTiled(Third(c))
  {
    hide Pow2;
    SmallPowers();
    var s := Third(c);
    forall a: Word
      ensures !Gap(s, s[3], c.g, a)
    {
      assert s[0] in s && s[1] in s;
    }
    assert !HasGap(s, s[3], c.g);
    assert s[3] in s;
  }

  /** Without the condition of DomainRoot.Root.AddRegion a successful call can change the meaning. From
      the table sbi_domain_init makes, three regions with flags g are added, and all three calls
      succeed. Before the last one, and by the regions it is called with, address 40 belongs to a
      region with flags g; after it the firmware region with flags h decides there, because the buddy
      that the new region completes was merged away. */
  method MergingCanChangeMeaning(c: Case, possible: Option<set<nat>>, harts: set<nat>) returns (root: Root)
    requires c.g != c.h && Grants(c.g, EXECUTE) && Grants(c.f, EXECUTE)
    requires possible.Some? && possible.value <= harts
    ensures fresh(root) && root.Valid() && root.List() == Final(c)
    ensures AllValid(Third(c)) && Sorted(Third(c)) && NoTwins(Third(c)) && NoConflicts(Third(c)) && !NotTiled(Third(c))
    ensures multiset(Third(c)) == multiset(Second(c) + [High(c.g)])
    ensures FirstMatch(Second(c), 40) == Some(Low(c.g)) && FirstMatch(Third(c), 40) == Some(Low(c.g))
    ensures FirstMatch(root.List(), 40) == Some(Right(c.h))
  {
    hide Sorted, AllValid, NoTwins, NoConflicts, NotTiled, Conflict, FirstMatch, Grants, Optimized, ValidRegion,
      TwinFree, SameMeaning, Unmergeable;
    AllRegionsValid(c);
    NoClashes(c);
    ThirdIsFine(c);
    ThirdOf(c);
    Decisions(c);
    root := new Root(Right(c.h), All(c.f), possible, harts, 0, true);
    Optimizes(c, root.policy);
    var ok := root.AddRegion(Low(c.g));
    assert ok && root.List() == First(c);
    ok := root.AddRegion(Left(c.g));
    assert ok && root.List() == Second(c);
    ok := root.AddRegion(High(c.g));
    assert ok && root.List() == Final(c);
  }

  lemma Exchanged(a: seq<Region>, b: seq<Region>, c: seq<Region>)
    ensures multiset(a + b + c) == multiset(a + c + b)
  {
  }

  lemma ThirdOf(c: Case)
    ensures multiset(Third(c)) == multiset(Second(c) + [High(c.g)])
  {
    hide Low, High, Left, Right, All;
    var a, b, d: seq<Region> := [Low(c.g)], [Left(c.g), Right(c.h), All(c.f)], [High(c.g)];
    assert Third(c) == a + d + b && Second(c) == a + b;
    Exchanged(a, b, d);
  }
}
