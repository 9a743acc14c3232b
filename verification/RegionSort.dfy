/** The exchange sort of sanitize_domain and the conflict test inside it
    (opensbi-1.2/lib/sbi/sbi_domain.c). */
module RegionSort {
  import opened Common
  import opened Bits
  import opened Domain

  // ---------------------------------------------------------------- permutations

  function Swap<T>(s: seq<T>, i: nat, j: nat): (r: seq<T>)
    requires i < |s| && j < |s|
    ensures |r| == |s|
  {
    s[i := s[j]][j := s[i]]
  }

  lemma SwapMultiset<T>(s: seq<T>, i: nat, j: nat)
    requires i < j < |s|
    ensures multiset(Swap(s, i, j)) == multiset(s)
  {
    var a, b, c := s[..i], s[i + 1..j], s[j + 1..];
    assert s == a + [s[i]] + b + [s[j]] + c;
    assert Swap(s, i, j) == a + [s[j]] + b + [s[i]] + c;
  }

  lemma Repeated<T>(s: seq<T>, i: nat, j: nat)
    requires i < j < |s| && s[i] == s[j]
    ensures multiset(s)[s[i]] >= 2
  {
    assert s == s[..j] + s[j..];
    assert s[..j][i] == s[i] && s[j..][0] == s[i];
    assert s[i] in multiset(s[..j]) && s[i] in multiset(s[j..]);
  }

  lemma {:induction false} OnlyOnce<T>(s: seq<T>, r: T)
    requires forall i, j | 0 <= i < j < |s| :: s[i] == r ==> s[j] != r
    ensures multiset(s)[r] <= 1
  {
    if s != [] {
      var n := |s| - 1;
      assert s == s[..n] + [s[n]];
      OnlyOnce(s[..n], r);
      if s[n] == r {
        assert r !in s[..n];
      }
    }
  }

  /** Two places of a permutation come from two places of the original. */
  lemma TwoPlaces<T>(s: seq<T>, t: seq<T>, i: nat, j: nat) returns (p: nat, q: nat)
    requires multiset(s) == multiset(t) && i < j < |t|
    ensures p < |s| && q < |s| && p != q && s[p] == t[i] && s[q] == t[j]
  {
    assert t[i] in multiset(t) && t[j] in multiset(t);
    assert t[i] in multiset(s) && t[j] in multiset(s);
    p :| 0 <= p < |s| && s[p] == t[i];
    q :| 0 <= q < |s| && s[q] == t[j];
    if t[i] == t[j] {
      Repeated(t, i, j);
      if forall a, b | 0 <= a < b < |s| :: s[a] == t[i] ==> s[b] != t[i] {
        OnlyOnce(s, t[i]);
        assert false;
      }
      p, q :| 0 <= p < q < |s| && s[p] == t[i] && s[q] == t[i];
    }
  }

  lemma PermutationNoTwins(s: seq<Region>, t: seq<Region>)
    requires NoTwins(s) && multiset(s) == multiset(t)
    ensures NoTwins(t)
  {
    forall i, j | 0 <= i < j < |t|
      ensures t[i].base != t[j].base || t[i].order != t[j].order
    {
      var p, q := TwoPlaces(s, t, i, j);
    }
  }

  /** No two places hold regions that conflict. */
  ghost predicate NoConflicts(s: seq<Region>) { forall i, j | 0 <= i < j < |s| :: !Conflict(s[i], s[j]) }

  lemma PermutationNoConflicts(s: seq<Region>, t: seq<Region>)
    requires NoConflicts(s) && multiset(s) == multiset(t)
    ensures NoConflicts(t)
  {
    hide Subset;
    forall i, j | 0 <= i < j < |t|
      ensures !Conflict(t[i], t[j])
    {
      var p, q := TwoPlaces(s, t, i, j);
      assert !Conflict(s[p], s[q]) by { assert !Conflict(s[if p < q then p else q], s[if p < q then q else p]); }
    }
  }

  // ---------------------------------------------------------------- the exchange sort

  /** The double loop from row i and column j on: the list it leaves, or None once a comparison
      meets a conflict. */
  function Exchanges(s: seq<Region>, i: nat, j: nat): Option<seq<Region>>
    requires i < j <= |s|
    decreases |s| - i, |s| - j
  {
    if j < |s| then
      if Conflict(s[j], s[i]) then None
      else Exchanges(if Before(s[j], s[i]) then Swap(s, i, j) else s, i, j + 1)
    else if i + 1 < |s| then Exchanges(s, i + 1, i + 2)
    else Some(s)
  }

  lemma {:induction false} ExchangesSize(s: seq<Region>, i: nat, j: nat)
    requires i < j <= |s|
    ensures Exchanges(s, i, j).Some? ==> |Exchanges(s, i, j).value| == |s|
    decreases |s| - i, |s| - j
  {
    hide Conflict, Before;
    if j < |s| {
      ExchangesSize(if Before(s[j], s[i]) then Swap(s, i, j) else s, i, j + 1);
    } else if i + 1 < |s| {
      ExchangesSize(s, i + 1, i + 2);
    }
  }

  /** A list in order is not touched. */
  lemma SortedStays(s: seq<Region>)
    requires |s| >= 1 && Sorted(s)
    ensures Exchanges(s, 0, 1).Some? ==> Exchanges(s, 0, 1) == Some(s)
  {
    SortedStaysFrom(s, 0, 1);
  }

  lemma {:induction false} SortedStaysFrom(s: seq<Region>, i: nat, j: nat)
    requires i < j <= |s| && Sorted(s)
    ensures Exchanges(s, i, j).Some? ==> Exchanges(s, i, j) == Some(s)
    decreases |s| - i, |s| - j
  {
    hide Conflict, Before;
    if j < |s| {
      SortedStaysFrom(s, i, j + 1);
    } else if i + 1 < |s| {
      SortedStaysFrom(s, i + 1, i + 2);
    }
  }

  /** The first i places hold their final regions. */
  ghost predicate SortedTo(s: seq<Region>, i: nat) {
    forall p, q | 0 <= p < q < |s| && p < i :: !Before(s[q], s[p])
  }

  /** Place i holds the least region among places i .. j - 1. */
  ghost predicate LeastTo(s: seq<Region>, i: nat, j: nat)
    requires i < |s|
  {
    forall q | i < q < j && q < |s| :: !Before(s[q], s[i])
  }

  lemma ExchangeKeeps(s: seq<Region>, i: nat, j: nat)
    requires i < j < |s| && SortedTo(s, i) && LeastTo(s, i, j) && Before(s[j], s[i])
    ensures SortedTo(Swap(s, i, j), i) && LeastTo(Swap(s, i, j), i, j + 1)
  {
  }

  /** The double loop of sanitize_domain: a permutation in order, or a conflict on the way. */
  method SortRegions(a: array<Region>, count: nat) returns (conflict: bool)
    requires 1 <= count <= a.Length
    modifies a
    ensures multiset(a[..count]) == multiset(old(a[..count])) && a[count..] == old(a[count..])
    ensures !conflict ==> Sorted(a[..count])
    ensures Exchanges(old(a[..count]), 0, 1) == if conflict then None else Some(a[..count])
  {
    hide Conflict, Before;
    var i := 0;
    while i < count - 1
      invariant 0 <= i <= count - 1
      invariant multiset(a[..count]) == multiset(old(a[..count])) && a[count..] == old(a[count..])
      invariant SortedTo(a[..count], i)
      invariant Exchanges(old(a[..count]), 0, 1) == Exchanges(a[..count], i, i + 1)
    {
      conflict := SortRow(a, count, i);
      if conflict {
        return;
      }
      i := i + 1;
    }
    conflict := false;
  }

  /** One round of the outer loop. */
  method SortRow(a: array<Region>, count: nat, i: nat) returns (conflict: bool)
    requires i < count <= a.Length && SortedTo(a[..count], i)
    modifies a
    ensures multiset(a[..count]) == multiset(old(a[..count])) && a[count..] == old(a[count..])
    ensures !conflict ==> SortedTo(a[..count], i + 1)
    ensures Exchanges(old(a[..count]), i, i + 1) == if conflict then None else Exchanges(a[..count], i, count)
  {
    hide Conflict, Before;
    var j := i + 1;
    while j < count
      invariant i < j <= count
      invariant multiset(a[..count]) == multiset(old(a[..count])) && a[count..] == old(a[count..])
      invariant SortedTo(a[..count], i) && LeastTo(a[..count], i, j)
      invariant Exchanges(old(a[..count]), i, i + 1) == Exchanges(a[..count], i, j)
    {
      ghost var s := a[..count];
      if Conflict(a[j], a[i]) {
        return true;
      }
      if Before(a[j], a[i]) {
        ExchangeKeeps(s, i, j);
        SwapMultiset(s, i, j);
        a[i], a[j] := a[j], a[i];
        assert a[..count] == Swap(s, i, j);
      }
      j := j + 1;
    }
    conflict := false;
  }

  // ---------------------------------------------------------------- which conflicts it meets

  /** The same comparisons as a pass over a list: the smallest region so far is carried along place
      c, past the larger ones, and taken off at the end. */
  predicate Meets(l: seq<Region>, c: nat)
    requires c < |l|
    decreases |l|, |l| - c
  {
    if c + 1 < |l| then
      Conflict(l[c + 1], l[c]) || Meets(if Before(l[c + 1], l[c]) then l else Swap(l, c, c + 1), c + 1)
    else c > 0 && Meets(l[..c], 0)
  }

  /** The places from i on, with place i moved to just before column j. */
  ghost function View(s: seq<Region>, i: nat, j: nat): (r: seq<Region>)
    requires i < j <= |s|
    ensures |r| == |s| - i
  {
    s[i + 1..j] + [s[i]] + s[j..]
  }

  lemma ViewSwapped(s: seq<Region>, i: nat, j: nat)
    requires i < j < |s|
    ensures View(Swap(s, i, j), i, j + 1) == View(s, i, j)
  {
    var t := Swap(s, i, j);
    assert t[i + 1..j + 1] == s[i + 1..j] + [s[i]] && t[j + 1..] == s[j + 1..];
    assert s[j..] == [s[j]] + s[j + 1..];
  }

  lemma ViewPassed(s: seq<Region>, i: nat, j: nat)
    requires i < j < |s|
    ensures View(s, i, j + 1) == Swap(View(s, i, j), j - i - 1, j - i)
    ensures View(s, i, j)[j - i - 1] == s[i] && View(s, i, j)[j - i] == s[j]
  {
    assert s[i + 1..j + 1] == s[i + 1..j] + [s[j]];
    assert s[j..] == [s[j]] + s[j + 1..];
  }

  lemma {:induction false} Simulation(s: seq<Region>, i: nat, j: nat)
    requires i < j <= |s|
    ensures Exchanges(s, i, j).None? <==> Meets(View(s, i, j), j - i - 1)
    decreases |s| - i, |s| - j
  {
    hide Conflict, Before, View, Swap;
    if j < |s| {
      ViewPassed(s, i, j);
      if Before(s[j], s[i]) {
        ViewSwapped(s, i, j);
        Simulation(Swap(s, i, j), i, j + 1);
      } else {
        Simulation(s, i, j + 1);
      }
    } else {
      RowEnds(s, i);
      if i + 1 < |s| {
        Simulation(s, i + 1, i + 2);
      }
    }
  }

  lemma RowEnds(s: seq<Region>, i: nat)
    requires i < |s|
    ensures i + 1 < |s| ==> View(s, i, |s|)[..|s| - i - 1] == View(s, i + 1, i + 2)
  {
  }

  /** A conflict the sort cannot overlook: the smaller region comes first, or nothing before it lies
      between the two in order. */
  ghost predicate Overt(l: seq<Region>, p: nat, q: nat) {
    && p < q < |l| && Conflict(l[q], l[p])
    && (Before(l[p], l[q]) || forall w | 0 <= w < q :: !(Before(l[q], l[w]) && Before(l[w], l[p])))
  }

  ghost predicate HasOvert(l: seq<Region>) { exists p: nat, q: nat :: Overt(l, p, q) }

  /** Place c holds the least of the regions so far, and has been compared with the next one up. */
  ghost predicate Carried(l: seq<Region>, c: nat)
    requires c < |l|
  {
    && (forall p | 0 <= p < c :: Before(l[c], l[p]))
    && (forall p | 0 <= p < c && (forall w | 0 <= w < c :: !Before(l[w], l[p])) :: !Conflict(l[c], l[p]))
  }

  lemma ConflictSymmetric(a: Region, b: Region)
    ensures Conflict(a, b) == Conflict(b, a)
  {
  }

  /** Where a place goes when places c and c + 1 are exchanged. */
  function Other(c: nat, p: nat): nat { if p == c then c + 1 else if p == c + 1 then c else p }

  /** A larger region that conflicts with the carried one has a region between them before it. */
  lemma CarriedClear(l: seq<Region>, c: nat, p: nat)
    requires c < |l| && Carried(l, c) && p < c && Conflict(l[c], l[p])
    ensures exists w :: 0 <= w < c && Before(l[c], l[w]) && Before(l[w], l[p])
  {
    hide Conflict, Before;
    var w :| 0 <= w < c && Before(l[w], l[p]);
  }

  ghost predicate Passes(l: seq<Region>, c: nat) {
    NoTwins(l) && c + 1 < |l| && Carried(l, c) && Before(l[c], l[c + 1]) && !Conflict(l[c + 1], l[c])
  }

  lemma Asymmetric(a: Region, b: Region)
    ensures !(Before(a, b) && Before(b, a))
  {
  }

  lemma Moved(l: seq<Region>, c: nat, p: nat)
    requires c + 1 < |l| && p < |l|
    ensures Other(c, p) < |l| && Swap(l, c, c + 1)[p] == l[Other(c, p)] && Other(c, Other(c, p)) == p
  {
  }

  /** The carried region is in no open conflict with a larger one before it, here or one place on. */
  lemma NoneAbove(l: seq<Region>, c: nat, p: nat)
    requires Passes(l, c)
    ensures !Overt(l, p, c) && !Overt(Swap(l, c, c + 1), p, c + 1)
  {
    hide Conflict, NoTwins, Before;
    var m := Swap(l, c, c + 1);
    assert forall w | 0 <= w < c :: m[w] == l[w];
    if p < c && Conflict(l[c], l[p]) {
      Asymmetric(l[c], l[p]);
      CarriedClear(l, c, p);
      var w :| 0 <= w < c && Before(l[c], l[w]) && Before(l[w], l[p]);
      assert m[w] == l[w];
    }
    ConflictSymmetric(l[c], l[c + 1]);
  }

  /** Carrying the region past a larger one does not hide a conflict ... */
  lemma OvertStays(l: seq<Region>, c: nat, p: nat, q: nat)
    requires Passes(l, c) && Overt(l, p, q)
    ensures Overt(Swap(l, c, c + 1), Other(c, p), Other(c, q))
  {
    hide Conflict, NoTwins, Before, Carried, Swap;
    NoneAbove(l, c, p);
    var m := Swap(l, c, c + 1);
    Moved(l, c, Other(c, p));
    Moved(l, c, Other(c, q));
    if !Before(l[p], l[q]) {
      forall w | 0 <= w < Other(c, q)
        ensures !(Before(l[q], m[w]) && Before(m[w], l[p]))
      {
        Moved(l, c, w);
        assert Other(c, w) < q;
      }
    }
  }

  /** ... and does not uncover one. */
  lemma OvertBefore(l: seq<Region>, c: nat, p: nat, q: nat)
    requires Passes(l, c) && Overt(Swap(l, c, c + 1), p, q)
    ensures Overt(l, Other(c, p), Other(c, q))
  {
    hide Conflict, NoTwins, Before, Carried, Swap;
    NoneAbove(l, c, p);
    var m := Swap(l, c, c + 1);
    Moved(l, c, p);
    Moved(l, c, q);
    Asymmetric(l[c], l[c + 1]);
    if !Before(m[p], m[q]) {
      forall w | 0 <= w < Other(c, q)
        ensures !(Before(m[q], l[w]) && Before(l[w], m[p]))
      {
        if w != c || q != c {
          Moved(l, c, Other(c, w));
          assert Other(c, w) < q;
        }
      }
    }
  }

  lemma PassKeeps(l: seq<Region>, c: nat)
    requires Passes(l, c)
    ensures var m := Swap(l, c, c + 1); NoTwins(m) && Carried(m, c + 1) && (HasOvert(l) <==> HasOvert(m))
  {
    hide Conflict, Overt;
    var m := Swap(l, c, c + 1);
    if p: nat, q: nat :| Overt(l, p, q) {
      OvertStays(l, c, p, q);
    }
    if p: nat, q: nat :| Overt(m, p, q) {
      OvertBefore(l, c, p, q);
    }
    ConflictSymmetric(l[c], l[c + 1]);
    forall p | 0 <= p < c + 1 && (forall w | 0 <= w < c + 1 :: !Before(m[w], m[p]))
      ensures !Conflict(m[c + 1], m[p])
    {
      if p < c {
        forall w | 0 <= w < c ensures !Before(l[w], l[p]) { assert m[w] == l[w]; }
      }
    }
  }

  /** Handing the role over to a smaller region. */
  lemma HandOver(l: seq<Region>, c: nat)
    requires NoTwins(l) && c + 1 < |l| && Carried(l, c) && Before(l[c + 1], l[c]) && !Conflict(l[c + 1], l[c])
    ensures Carried(l, c + 1)
  {
    hide Conflict;
    forall p | 0 <= p < c + 1 && (forall w | 0 <= w < c + 1 :: !Before(l[w], l[p]))
      ensures !Conflict(l[c + 1], l[p])
    {
      assert !Before(l[c], l[p]);
    }
  }

  /** What Overt says only concerns the places up to q. */
  lemma OvertPrefix(l: seq<Region>, c: nat, p: nat, q: nat)
    requires c <= |l| && q < c
    ensures Overt(l, p, q) <==> Overt(l[..c], p, q)
  {
    hide Conflict, Before;
    var m := l[..c];
    assert forall w | 0 <= w < c :: m[w] == l[w];
  }

  /** The carried region is in no open conflict once it is last. */
  lemma LastClear(l: seq<Region>, c: nat, p: nat)
    requires c + 1 == |l| && Carried(l, c)
    ensures !Overt(l, p, c)
  {
    hide Conflict, Before;
    if p < c && Conflict(l[c], l[p]) {
      Asymmetric(l[c], l[p]);
      CarriedClear(l, c, p);
    }
  }

  /** Taking off the smallest region, which is last. */
  lemma TakeOff(l: seq<Region>, c: nat)
    requires NoTwins(l) && c + 1 == |l| && Carried(l, c)
    ensures NoTwins(l[..c]) && (c > 0 ==> Carried(l[..c], 0)) && (HasOvert(l) <==> HasOvert(l[..c]))
  {
    hide Conflict, Before, Overt;
    var m := l[..c];
    if p: nat, q: nat :| Overt(l, p, q) {
      LastClear(l, c, p);
      Bounds(l, p, q);
      OvertPrefix(l, c, p, q);
    }
    if p: nat, q: nat :| Overt(m, p, q) {
      Bounds(m, p, q);
      OvertPrefix(l, c, p, q);
    }
  }

  lemma Bounds(l: seq<Region>, p: nat, q: nat)
    requires Overt(l, p, q)
    ensures p < q < |l|
  {
  }

  lemma {:induction false} MeetsExactly(l: seq<Region>, c: nat)
    requires c < |l| && NoTwins(l) && Carried(l, c)
    ensures Meets(l, c) <==> HasOvert(l)
    decreases |l|, |l| - c
  {
    hide Conflict, Carried, NoTwins, HasOvert, Before;
    if c + 1 < |l| {
      if Conflict(l[c + 1], l[c]) {
        Met(l, c);
      } else if Before(l[c + 1], l[c]) {
        HandOver(l, c);
        MeetsExactly(l, c + 1);
      } else {
        Comparable(l, c);
        PassKeeps(l, c);
        MeetsExactly(Swap(l, c, c + 1), c + 1);
      }
    } else {
      TakeOff(l, c);
      if c > 0 {
        MeetsExactly(l[..c], 0);
      } else {
        Alone(l);
      }
    }
  }

  lemma Comparable(l: seq<Region>, c: nat)
    requires NoTwins(l) && c + 1 < |l|
    ensures Before(l[c], l[c + 1]) || Before(l[c + 1], l[c])
  {
  }

  lemma Alone(l: seq<Region>)
    requires |l| <= 1
    ensures !HasOvert(l)
  {
  }

  lemma Met(l: seq<Region>, c: nat)
    requires NoTwins(l) && c + 1 < |l| && Carried(l, c) && Conflict(l[c + 1], l[c])
    ensures HasOvert(l)
  {
    hide Conflict, Before, NoTwins;
    forall w | 0 <= w < c + 1
      ensures !Before(l[w], l[c])
    {
      Asymmetric(l[w], l[c]);
    }
    assert Overt(l, c, c + 1);
  }

  /** The sort reports a conflict exactly when there is one it cannot overlook. */
  lemma ReportedExactly(s: seq<Region>)
    requires |s| >= 1 && NoTwins(s)
    ensures Exchanges(s, 0, 1).None? <==> HasOvert(s)
  {
    hide NoTwins, HasOvert, Exchanges;
    Simulation(s, 0, 1);
    assert View(s, 0, 1) == s;
    MeetsExactly(s, 0);
  }

  /** In a list that is in order already nothing is overlooked. */
  lemma SortedReportsAll(s: seq<Region>)
    requires |s| >= 1 && NoTwins(s) && Sorted(s)
    ensures Exchanges(s, 0, 1).None? <==> !NoConflicts(s)
  {
    hide Conflict, Exchanges;
    ReportedExactly(s);
    if p: nat, q: nat :| Overt(s, p, q) {
      ConflictSymmetric(s[p], s[q]);
    }
    if !NoConflicts(s) {
      var p: nat, q: nat :| p < q < |s| && Conflict(s[p], s[q]);
      ConflictSymmetric(s[p], s[q]);
      assert Overt(s, p, q);
    }
  }

  /** Without conflicts, twins or not, the sort goes through. */
  lemma {:induction false} NothingToReport(s: seq<Region>, i: nat, j: nat)
    requires i < j <= |s| && NoConflicts(s)
    ensures Exchanges(s, i, j).Some?
    decreases |s| - i, |s| - j
  {
    hide Conflict, Before, Swap;
    if j < |s| {
      ConflictSymmetric(s[i], s[j]);
      if Before(s[j], s[i]) {
        SwapMultiset(s, i, j);
        PermutationNoConflicts(s, Swap(s, i, j));
        NothingToReport(Swap(s, i, j), i, j + 1);
      } else {
        NothingToReport(s, i, j + 1);
      }
    } else if i + 1 < |s| {
      NothingToReport(s, i + 1, i + 2);
    }
  }

  // ---------------------------------------------------------------- conflicts and merging

  /** is_region_subset on valid regions; the whole memory is never found to contain anything. */
  lemma SubsetMeans(a: Region, b: Region)
    requires ValidRegion(a) && ValidRegion(b)
    ensures Subset(a, b) <==>
      a.order < 64 && b.order < 64 && b.base <= a.base && a.base + Pow2(a.order) <= b.base + Pow2(b.order)
  {
    hide Pow2, Bit, ValidRegion;
    End(a);
    End(b);
  }

  /** The inclusive end as the code computes it. */
  lemma End(a: Region)
    requires ValidRegion(a)
    ensures a.order <= 64
    ensures a.order < 64 ==> (a.base + Bit(a.order) - 1) % WORD_END == a.base + Pow2(a.order) - 1 && Pow2(a.order) >= 8
    ensures a.order == 64 ==> (a.base + Bit(a.order) - 1) % WORD_END == 0 && a.base == 0
  {
    hide Pow2;
    Pow2Step(0);
    if a.order < 64 {
      var p := Pow2(a.order);
      Eight();
      if a.order > 3 {
        Pow2Less(3, a.order);
      }
      Pow2Divides(a.order);
      AlignedRoom(a.base, p, WORD_END / p);
    }
  }

  lemma Eight()
    ensures Pow2(3) == 8
  {
  }

  /** A block that starts below an aligned border ends at it or before. */
  lemma BelowBorder(d: Region, m: nat, border: nat)
    requires ValidRegion(d) && d.order <= m < 64 && border % Pow2(m) == 0 && d.base < border
    ensures d.base + Pow2(d.order) <= border
  {
    hide Pow2;
    Pow2Add(d.order, m - d.order);
    Aligned(d);
    SmallPow(d.order);
    Multiple(Pow2(d.order), Pow2(m - d.order), border);
    AlignedRoom(d.base, Pow2(d.order), Pow2(m - d.order) * (border / Pow2(m)));
  }

  lemma Multiple(p: nat, k: nat, x: nat)
    requires p * k > 0 && x % (p * k) == 0
    ensures x == p * (k * (x / (p * k)))
  {
  }

  /** What conflicts with neither of two buddies does not conflict with their union. */
  lemma UnionConflict(a: Region, b: Region, d: Region)
    requires ValidRegion(a) && ValidRegion(b) && ValidRegion(d) && Mergeable(a, b) && !Before(b, a)
    requires !Conflict(d, a) && !Conflict(d, b)
    ensures !Conflict(d, Grown(a))
  {
    hide Pow2, ValidRegion, Mergeable, Subset;
    UnionValid(a, b);
    BuddyFlags(a, b);
    var g := Grown(a);
    SubsetMeans(d, g);
    SubsetMeans(g, d);
    SubsetMeans(a, d);
    SubsetMeans(d, a);
    SubsetMeans(d, b);
    if Subset(d, g) {
      if d.order > g.order {
        Pow2Less(g.order, d.order);
      } else if d.order <= a.order {
        Aligned(b);
        if d.base < b.base {
          BelowBorder(d, a.order, b.base);
        }
      }
    }
  }

  lemma Aligned(b: Region)
    requires ValidRegion(b)
    ensures b.order < 64 ==> b.base % Pow2(b.order) == 0
  {
    hide Pow2;
  }

  lemma MergeNoConflicts(s: seq<Region>, k: nat)
    requires k + 1 < |s| && AllValid(s) && NoConflicts(s) && Mergeable(s[k], s[k + 1]) && !Before(s[k + 1], s[k])
    ensures NoConflicts(MergeAt(s, k)) && AllValid(MergeAt(s, k))
  {
    hide Conflict, ValidRegion, Mergeable, Before;
    var t, g := MergeAt(s, k), Grown(s[k]);
    UnionValid(s[k], s[k + 1]);
    forall i | 0 <= i < |s| && i != k && i != k + 1
      ensures !Conflict(s[i], g) && !Conflict(g, s[i])
    {
      ConflictSymmetric(s[i], s[k]);
      ConflictSymmetric(s[i], s[k + 1]);
      ConflictSymmetric(s[i], g);
      UnionConflict(s[k], s[k + 1], s[i]);
    }
    forall i, j | 0 <= i < j < |t|
      ensures !Conflict(t[i], t[j])
    {
      assert i != k ==> t[i] == s[if i < k then i else i + 1];
      assert j != k ==> t[j] == s[if j < k then j else j + 1];
    }
  }

  // ---------------------------------------------------------------- a conflict overlooked

  lemma Nested(f: Flags, g: Flags)
    requires f != g
    ensures var x, y, z := Region(0, 6, f), Region(0, 5, g), Region(0, 4, f);
      && ValidRegion(x) && ValidRegion(y) && ValidRegion(z)
      && Conflict(z, x) && !Conflict(y, x) && !Conflict(z, y) && !Conflict(y, z) && !Conflict(x, y)
  {
    assert Pow2(6) == 64 && Pow2(5) == 32 && Pow2(4) == 16;
  }

  /** A conflict overlooked: a region, one inside it with other flags, and one inside that with the
      first one's flags again, listed from large to small. */
  lemma OverlooksConflict(f: Flags, g: Flags)
    requires f != g
    ensures var s := [Region(0, 6, f), Region(0, 5, g), Region(0, 4, f)];
      && AllValid(s) && NoTwins(s) && Conflict(s[2], s[0])
      && Exchanges(s, 0, 1) == Some([s[2], s[1], s[0]])
  {
    hide Conflict, ValidRegion, Swap;
    Nested(f, g);
    var s := [Region(0, 6, f), Region(0, 5, g), Region(0, 4, f)];
    var t := [s[1], s[0], s[2]];
    var u := [s[2], s[0], s[1]];
    var v := [s[2], s[1], s[0]];
    Swaps(s[0], s[1], s[2]);
    assert Exchanges(s, 0, 1) == Exchanges(t, 0, 2);
    assert Exchanges(t, 0, 2) == Exchanges(u, 0, 3) == Exchanges(u, 1, 2);
    assert Exchanges(u, 1, 2) == Exchanges(v, 1, 3) == Exchanges(v, 2, 3) == Some(v);
  }

  lemma Swaps(x: Region, y: Region, z: Region)
    ensures Swap([x, y, z], 0, 1) == [y, x, z] && Swap([y, x, z], 0, 2) == [z, x, y]
    ensures Swap([z, x, y], 1, 2) == [z, y, x]
  {
  }
}
