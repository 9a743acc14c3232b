/** Remote fence requests of opensbi-1.2/lib/sbi/sbi_tlb.c: what a request flushes on the
    hart that runs it, and how two requests for the same hart are merged. */
module TlbFlush {
  import opened Common
  import opened Fifo

  const FLUSH_ALL: Word := 0xffff_ffff_ffff_ffff

  datatype LocalFn =
    | FenceI
    | SfenceVma | SfenceVmaAsid
    | HfenceGvma | HfenceGvmaVmid
    | HfenceVvma | HfenceVvmaAsid

  /** struct sbi_tlb_info; smask holds the harts to be told when the flush has run. */
  datatype Info = Info(start: Word, size: Word, asid: Word, vmid: Word, fn: LocalFn, smask: set<nat>)

  // ---------------------------------------------------------------- meaning

  datatype Stage = Instructions | Supervisor | Guest | VirtualSupervisor

  const PAGES_END: nat := 0x10_0000_0000_0000

  type PageNumber = x: int | 0 <= x < PAGES_END

  /** A cached item a hart may hold: a page translation of some stage and its tags. */
  datatype Item = Item(stage: Stage, page: PageNumber, asid: Word, vmid: Word)

  /** The VMID field of hgatp has 14 bits. */
  const VMID_END: nat := 0x4000

  /** One fence instruction as executed by a local function, with its operands if it has any. The
      operand of hfence.gvma is an address shifted right by 2; hfence.vvma acts on the VMID that
      hgatp holds. */
  datatype Fence =
    | FenceInstructions
    | Sfence(va: Option<Word>, asid: Option<Word>)
    | Gvma(shifted: Option<Word>, vmid: Option<Word>)
    | Vvma(hgatp: nat, va: Option<Word>, asid: Option<Word>)

  function PageOf(va: Word): int { va / PAGE_SIZE }

  function StageOf(fn: LocalFn): Stage {
    match fn
    case FenceI => Instructions
    case SfenceVma => Supervisor
    case SfenceVmaAsid => Supervisor
    case HfenceGvma => Guest
    case HfenceGvmaVmid => Guest
    case HfenceVvma => VirtualSupervisor
    case HfenceVvmaAsid => VirtualSupervisor
  }

  predicate AllSpaces(info: Info) { info.start == 0 && info.size == 0 }

  /** The pages the page-by-page loop of a local function reaches. */
  ghost predicate InRange(info: Info, page: int) {
    exists k: nat :: Reaches(info, page, k)
  }

  predicate Reaches(info: Info, page: int, k: nat) {
    k * PAGE_SIZE < info.size && page == ((info.start + k * PAGE_SIZE) % WORD_END) / PAGE_SIZE
  }

  /** Which tag values the local function is limited to. */
  predicate TagsMatch(info: Info, item: Item) {
    match info.fn
    case FenceI => true
    case SfenceVma => true
    case SfenceVmaAsid => AllSpaces(info) || item.asid == info.asid
    case HfenceGvma => true
    case HfenceGvmaVmid => AllSpaces(info) || item.vmid == info.vmid
    case HfenceVvma => item.vmid == info.vmid % VMID_END
    case HfenceVvmaAsid => item.vmid == info.vmid % VMID_END && (AllSpaces(info) || item.asid == info.asid)
  }

  /** The local function of `info` removes `item` from the hart's caches. */
  ghost predicate Flushes(info: Info, item: Item) {
    && item.stage == StageOf(info.fn)
    && TagsMatch(info, item)
    && (info.fn.FenceI? || AllSpaces(info) || info.size == FLUSH_ALL || InRange(info, item.page))
  }

  /** Everything `small` flushes, `big` flushes too. */
  ghost predicate Covers(big: Info, small: Info) {
    forall item :: Flushes(small, item) ==> Flushes(big, item)
  }

  predicate Names(operand: Option<Word>, value: Word) { operand.Some? ==> operand.value == value }

  /** What one executed instruction removes: an operand limits it to that page or tag. */
  predicate Hits(fence: Fence, item: Item) {
    match fence
    case FenceInstructions => item.stage == Instructions
    case Sfence(va, asid) =>
      item.stage == Supervisor && (va.Some? ==> item.page == PageOf(va.value)) && Names(asid, item.asid)
    case Gvma(shifted, vmid) =>
      item.stage == Guest && (shifted.Some? ==> item.page == shifted.value / (PAGE_SIZE / 4)) && Names(vmid, item.vmid)
    case Vvma(hgatp, va, asid) =>
      && item.stage == VirtualSupervisor && item.vmid == hgatp
      && (va.Some? ==> item.page == PageOf(va.value)) && Names(asid, item.asid)
  }

  /** The seven local functions: the instructions they execute remove exactly what Flushes says. A size
      in the last page of the address space, other than FLUSH_ALL, would make the counter wrap;
      tlb_update never lets one through. */
  method LocalFlush(info: Info) returns (fences: seq<Fence>)
    requires info.size == FLUSH_ALL || info.size <= WORD_END - PAGE_SIZE
    ensures forall item :: Flushes(info, item) <==> exists i | 0 <= i < |fences| :: Hits(fences[i], item)
  {
    hide Flushes, TagsMatch, Hits;
    if info.fn.FenceI? || (info.start == 0 && info.size == 0) || info.size == FLUSH_ALL {
      fences := [WholeFence(info)];
      forall item
        ensures Flushes(info, item) <==> Hits(fences[0], item)
      {
        WholeExactly(info, item);
      }
      return;
    }
    fences := [];
    var i: int := 0;
    while i < info.size
      invariant i == |fences| * PAGE_SIZE
      invariant i < info.size + PAGE_SIZE
      invariant forall k | 0 <= k < |fences| :: fences[k] == PageFence(info, k)
    {
      assert i < WORD_END;
      fences := fences + [PageFence(info, i / PAGE_SIZE)];
      i := i + PAGE_SIZE;
    }
    forall item
      ensures Flushes(info, item) <==> exists i | 0 <= i < |fences| :: Hits(fences[i], item)
    {
      PagesExactly(info, item, fences);
    }
  }

  /** The instruction for a whole space, or for all of them. */
  function WholeFence(info: Info): Fence {
    var tagged := !AllSpaces(info);
    match info.fn
    case FenceI => FenceInstructions
    case SfenceVma => Sfence(None, None)
    case SfenceVmaAsid => Sfence(None, if tagged then Some(info.asid) else None)
    case HfenceGvma => Gvma(None, None)
    case HfenceGvmaVmid => Gvma(None, if tagged then Some(info.vmid) else None)
    case HfenceVvma => Vvma(info.vmid % VMID_END, None, None)
    case HfenceVvmaAsid => Vvma(info.vmid % VMID_END, None, if tagged then Some(info.asid) else None)
  }

  /** The instruction for page k of a range. */
  function PageFence(info: Info, k: nat): Fence {
    var va := (info.start + k * PAGE_SIZE) % WORD_END;
    match info.fn
    case FenceI => FenceInstructions
    case SfenceVma => Sfence(Some(va), None)
    case SfenceVmaAsid => Sfence(Some(va), Some(info.asid))
    case HfenceGvma => Gvma(Some(va / 4), None)
    case HfenceGvmaVmid => Gvma(Some(va / 4), Some(info.vmid))
    case HfenceVvma => Vvma(info.vmid % VMID_END, Some(va), None)
    case HfenceVvmaAsid => Vvma(info.vmid % VMID_END, Some(va), Some(info.asid))
  }

  lemma WholeExactly(info: Info, item: Item)
    requires info.fn.FenceI? || AllSpaces(info) || info.size == FLUSH_ALL
    ensures Flushes(info, item) <==> Hits(WholeFence(info), item)
  {
  }

  lemma PageExactly(info: Info, item: Item, k: nat)
    requires !info.fn.FenceI? && !AllSpaces(info)
    ensures Hits(PageFence(info, k), item) <==>
      && item.stage == StageOf(info.fn) && TagsMatch(info, item)
      && item.page == ((info.start + k * PAGE_SIZE) % WORD_END) / PAGE_SIZE
  {
    var va := (info.start + k * PAGE_SIZE) % WORD_END;
    assert va / 4 / 1024 == va / 4096;
  }

  lemma PagesExactly(info: Info, item: Item, fences: seq<Fence>)
    requires !info.fn.FenceI? && !AllSpaces(info) && info.size != FLUSH_ALL
    requires |fences| * PAGE_SIZE >= info.size > (|fences| - 1) * PAGE_SIZE || (fences == [] && info.size == 0)
    requires forall k | 0 <= k < |fences| :: fences[k] == PageFence(info, k)
    ensures Flushes(info, item) <==> exists i | 0 <= i < |fences| :: Hits(fences[i], item)
  {
    hide TagsMatch, Hits, PageFence;
    if Flushes(info, item) {
      var k: nat :| Reaches(info, item.page, k);
      PageExactly(info, item, k);
      assert Hits(fences[k], item);
    }
    if k :| 0 <= k < |fences| && Hits(fences[k], item) {
      PageExactly(info, item, k);
      assert Reaches(info, item.page, k);
    }
  }

  // ---------------------------------------------------------------- merging

  function EndOf(info: Info): Word { (info.start + info.size) % WORD_END }

  /** tlb_range_check, seen as the new value of the waiting entry `curr`. */
  function RangeCheck(curr: Info, next: Info): (Outcome, Info) {
    if next.start <= curr.start && EndOf(next) > EndOf(curr) then
      (Updated, curr.(start := next.start, size := next.size, smask := curr.smask + next.smask))
    else if next.start >= curr.start && EndOf(next) <= EndOf(curr) then
      (Skip, curr.(smask := curr.smask + next.smask))
    else
      (Unchanged, curr)
  }

  /** tlb_update_cb: only sfence requests of one kind (and one ASID) are ever merged. */
  function UpdateCallback(next: Info, curr: Info): (Outcome, Info) {
    if next.fn.SfenceVmaAsid? && curr.fn.SfenceVmaAsid? then
      if next.asid == curr.asid then RangeCheck(curr, next) else (Unchanged, curr)
    else if next.fn.SfenceVma? && curr.fn.SfenceVma? then
      RangeCheck(curr, next)
    else
      (Unchanged, curr)
  }

  /** Which requests are merged: of one sfence kind and ASID, without wrap, one that lies within the
      waiting range, or one that begins no later and ends after it. */
  lemma MergesExactly(next: Info, curr: Info)
    requires next.start + next.size < WORD_END && curr.start + curr.size < WORD_END
    ensures !UpdateCallback(next, curr).0.Unchanged? <==>
      && next.fn == curr.fn && (next.fn == SfenceVma || (next.fn == SfenceVmaAsid && next.asid == curr.asid))
      && var from, to, from', to' := curr.start, curr.start + curr.size, next.start, next.start + next.size;
         (from <= from' && to' <= to) || (from' <= from && to < to')
    ensures UpdateCallback(next, curr).0.Unchanged? ==> UpdateCallback(next, curr).1 == curr
  {
  }

  /** The head of tlb_update: a range that is too long becomes a full flush. */
  function Upgrade(info: Info, limit: Word): Info {
    if info.size > limit then info.(start := 0, size := FLUSH_ALL) else info
  }

  predicate Mergeable(fn: LocalFn) { fn.SfenceVma? || fn.SfenceVmaAsid? }

  /** The requests whose byte interval, as RangeCheck sees it, is the range they flush. */
  predicate Regular(info: Info) {
    && info.start % PAGE_SIZE == 0
    && info.start + info.size < WORD_END
    && !AllSpaces(info)
  }

  predicate Admissible(info: Info) { Mergeable(info.fn) ==> Regular(info) }

  lemma CoversTransitive(a: Info, b: Info, c: Info)
    requires Covers(a, b) && Covers(b, c)
    ensures Covers(a, c)
  {
  }

  /** In a regular range exactly the pages that meet [start, end) are flushed. */
  lemma RegularRange(info: Info, page: int)
    requires Regular(info)
    ensures InRange(info, page) <==> info.start <= page * PAGE_SIZE < info.start + info.size
  {
    var first := info.start / PAGE_SIZE;
    assert info.start == first * PAGE_SIZE;
    if InRange(info, page) {
      var k: nat :| Reaches(info, page, k);
      assert (info.start + k * PAGE_SIZE) % WORD_END == (first + k) * PAGE_SIZE;
      assert page == first + k;
    }
    if info.start <= page * PAGE_SIZE < info.start + info.size {
      var k := page - first;
      assert (info.start + k * PAGE_SIZE) % WORD_END == page * PAGE_SIZE;
      assert Reaches(info, page, k);
    }
  }

  /** An interval inside another one flushes no more. */
  lemma IntervalCovers(big: Info, small: Info)
    requires Regular(big) && Regular(small) && Mergeable(big.fn) && big.fn == small.fn
    requires big.fn.SfenceVmaAsid? ==> big.asid == small.asid
    requires big.start <= small.start && small.start + small.size <= big.start + big.size
    ensures Covers(big, small)
  {
    forall item | Flushes(small, item)
      ensures Flushes(big, item)
    {
      if big.size != FLUSH_ALL {
        RegularRange(small, item.page);
        RegularRange(big, item.page);
      }
    }
  }

  /** Merging two regular requests loses nothing: the surviving entry covers both, keeps both
      sets of senders, and is again regular. */
  lemma MergeCovers(next: Info, curr: Info)
    requires Admissible(next) && Admissible(curr)
    ensures var (outcome, merged) := UpdateCallback(next, curr);
      && (outcome.Unchanged? ==> merged == curr)
      && (!outcome.Unchanged? ==>
            && Covers(merged, curr) && Covers(merged, next)
            && merged.smask == curr.smask + next.smask
            && Admissible(merged))
  {
    var (outcome, merged) := UpdateCallback(next, curr);
    if outcome.Updated? {
      IntervalCovers(merged, curr);
      IntervalCovers(merged, next);
    } else if outcome.Skip? {
      IntervalCovers(merged, curr);
      IntervalCovers(merged, next);
    }
  }

  /** Upgrading a request only adds to what it flushes. */
  lemma UpgradeCovers(info: Info, limit: Word)
    ensures Covers(Upgrade(info, limit), info)
    ensures info.size > limit ==> Regular(Upgrade(info, limit))
  {
  }

  /** Both requests flush the same items. */
  ghost predicate SameFlush(a: Info, b: Info) { Covers(a, b) && Covers(b, a) }

  /** What upgrading does and what it leaves alone: up to the limit nothing changes, beyond it every page
      of the request's spaces is flushed, and of no other space. The kind, the tags and the senders
      stay. */
  lemma UpgradeExactly(info: Info, limit: Word)
    ensures var u := Upgrade(info, limit);
      && u.fn == info.fn && u.asid == info.asid && u.vmid == info.vmid && u.smask == info.smask
      && (info.size <= limit ==> u.start == info.start && u.size == info.size && SameFlush(u, info))
      && (info.size > limit ==>
            forall item :: Flushes(u, item) <==> item.stage == StageOf(info.fn) && TagsMatch(info, item))
  {
  }

  /** No entry already waiting can swallow the request without covering it. */
  ghost predicate SafeToMerge(next: Info) {
    forall curr | Admissible(curr) && !UpdateCallback(next, curr).0.Unchanged? ::
      Covers(UpdateCallback(next, curr).1, next) && Covers(UpdateCallback(next, curr).1, curr)
  }

  function Pages(bytes: nat): nat { (bytes + PAGE_SIZE - 1) / PAGE_SIZE }

  /** The loop of a local function starts at the page of an unaligned start and takes as many pages
      as an aligned range would need: it may stop before the last page of the bytes. One byte on
      that page goes unnoticed. */
  predicate ReachesItsEnd(info: Info) {
    info.size == 0 || info.start % PAGE_SIZE + info.size <= Pages(info.size) * PAGE_SIZE + 1
  }

  lemma PageAfter(start: Word, size: Word, k: nat)
    requires start + size < WORD_END && k * PAGE_SIZE < size
    ensures ((start + k * PAGE_SIZE) % WORD_END) / PAGE_SIZE == start / PAGE_SIZE + k
  {
    assert (start + k * PAGE_SIZE) % WORD_END == start + k * PAGE_SIZE;
  }

  lemma PagesBound(size: nat, k: int)
    ensures k < Pages(size) <==> k * PAGE_SIZE < size
  {
  }

  /** The pages of any range that does not wrap. */
  lemma RangePages(info: Info, page: int)
    requires info.start + info.size < WORD_END
    ensures InRange(info, page) <==> info.start / PAGE_SIZE <= page < info.start / PAGE_SIZE + Pages(info.size)
  {
    hide Pages;
    var first := info.start / PAGE_SIZE;
    if InRange(info, page) {
      var k: nat :| Reaches(info, page, k);
      PageAfter(info.start, info.size, k);
      PagesBound(info.size, k);
    }
    if first <= page < first + Pages(info.size) {
      PagesBound(info.size, page - first);
      PageAfter(info.start, info.size, page - first);
      assert Reaches(info, page, page - first);
    }
  }

  /** An entry that swallows a range without wrap covers it, wherever the range starts. */
  lemma SkipCovers(curr: Info, next: Info)
    requires Regular(curr) && Mergeable(curr.fn) && curr.fn == next.fn
    requires (curr.fn.SfenceVmaAsid? ==> curr.asid == next.asid)
    requires next.start + next.size < WORD_END && !AllSpaces(next)
    requires curr.start <= next.start && next.start + next.size <= curr.start + curr.size
    ensures Covers(curr, next)
  {
    forall item | Flushes(next, item)
      ensures Flushes(curr, item)
    {
      if curr.size != FLUSH_ALL {
        RangePages(next, item.page);
        RegularRange(curr, item.page);
      }
    }
  }

  /** A range that replaces an entry covers it if its loop comes far enough. */
  lemma ReplaceCovers(curr: Info, next: Info)
    requires Regular(curr) && Mergeable(curr.fn) && curr.fn == next.fn
    requires (curr.fn.SfenceVmaAsid? ==> curr.asid == next.asid)
    requires next.start + next.size < WORD_END && ReachesItsEnd(next)
    requires next.start <= curr.start && curr.start + curr.size < next.start + next.size
    ensures Covers(next, curr)
  {
    forall item | Flushes(curr, item)
      ensures Flushes(next, item)
    {
      RegularRange(curr, item.page);
      RangePages(next, item.page);
    }
  }

  /** curr is a waiting entry that takes the request in although the outcome misses an item. */
  ghost predicate Loses(next: Info, curr: Info, item: Item) {
    && Admissible(curr) && !UpdateCallback(next, curr).0.Unchanged?
    && (Flushes(next, item) || Flushes(curr, item)) && !Flushes(UpdateCallback(next, curr).1, item)
  }

  lemma EverythingLost(next: Info)
    requires Mergeable(next.fn) && AllSpaces(next)
    ensures exists curr, item :: Loses(next, curr, item)
  {
    var curr := next.(size := 4096);
    var item := Item(Supervisor, 1, next.asid, 0);
    RegularRange(UpdateCallback(next, curr).1, item.page);
    assert Loses(next, curr, item);
  }

  /** A range that wraps is taken for one that ends near zero. */
  lemma WrappedLost(next: Info)
    requires Mergeable(next.fn) && next.start + next.size >= WORD_END
    ensures exists curr, item :: Loses(next, curr, item)
  {
    var first := next.start / PAGE_SIZE;
    assert EndOf(next) == next.start + next.size - WORD_END;
    if 0 < first && EndOf(next) <= first * PAGE_SIZE {
      FirstPageLost(next, first);
    } else {
      SecondPageLost(next, first);
    }
  }

  /** An entry that ends where the range begins is taken to contain it. */
  lemma FirstPageLost(next: Info, first: nat)
    requires Mergeable(next.fn) && next.start + next.size >= WORD_END && first == next.start / PAGE_SIZE
    requires 0 < first && next.start + next.size - WORD_END <= first * PAGE_SIZE
    ensures exists curr, item :: Loses(next, curr, item)
  {
    assert EndOf(next) == next.start + next.size - WORD_END;
    var curr := next.(start := 0, size := first * PAGE_SIZE);
    var item := Item(Supervisor, first, next.asid, 0);
    assert Reaches(next, item.page, 0);
    RegularRange(UpdateCallback(next, curr).1, item.page);
    assert Loses(next, curr, item);
  }

  /** An entry on the first page of the range alone is taken to reach beyond it. */
  lemma SecondPageLost(next: Info, first: nat)
    requires Mergeable(next.fn) && next.start + next.size >= WORD_END && first == next.start / PAGE_SIZE
    requires !(0 < first && next.start + next.size - WORD_END <= first * PAGE_SIZE)
    ensures exists curr, item :: Loses(next, curr, item)
  {
    assert EndOf(next) == next.start + next.size - WORD_END;
    var last := if EndOf(next) > first * PAGE_SIZE then EndOf(next) else first * PAGE_SIZE + 1;
    var curr := next.(start := first * PAGE_SIZE, size := last - first * PAGE_SIZE);
    var item := Item(Supervisor, ((next.start + PAGE_SIZE) % WORD_END) / PAGE_SIZE, next.asid, 0);
    assert Reaches(next, item.page, 1);
    RegularRange(UpdateCallback(next, curr).1, item.page);
    assert Loses(next, curr, item);
  }

  /** A range whose loop stops early replaces an entry on the page it misses. */
  lemma LastPageLost(next: Info)
    requires Mergeable(next.fn) && next.start + next.size < WORD_END && !ReachesItsEnd(next)
    ensures exists curr, item :: Loses(next, curr, item)
  {
    var missed := next.start / PAGE_SIZE + Pages(next.size);
    var curr := next.(start := missed * PAGE_SIZE, size := 1);
    var item := Item(Supervisor, missed, next.asid, 0);
    RegularRange(curr, missed);
    RangePages(next, missed);
    assert Loses(next, curr, item);
  }

  /** Exactly when merging is sound for an sfence request: the code treats the "flush everything"
      encoding (0, 0) as an empty interval, a range that runs past the top of the address space as
      one that ends near zero, and an unaligned range as if all its bytes were flushed. */
  lemma MergeSoundExactly(next: Info)
    requires Mergeable(next.fn)
    ensures SafeToMerge(next) <==> next.start + next.size < WORD_END && !AllSpaces(next) && ReachesItsEnd(next)
  {
    hide Covers, Flushes;
    if AllSpaces(next) {
      EverythingLost(next);
      LossIsUnsafe(next);
    } else if next.start + next.size >= WORD_END {
      WrappedLost(next);
      LossIsUnsafe(next);
    } else if !ReachesItsEnd(next) {
      LastPageLost(next);
      LossIsUnsafe(next);
    } else {
      forall curr | Admissible(curr) && !UpdateCallback(next, curr).0.Unchanged?
        ensures Covers(UpdateCallback(next, curr).1, next) && Covers(UpdateCallback(next, curr).1, curr)
      {
        TakesIn(next, curr);
      }
    }
  }

  lemma TakesIn(next: Info, curr: Info)
    requires Mergeable(next.fn) && next.start + next.size < WORD_END && !AllSpaces(next) && ReachesItsEnd(next)
    requires Admissible(curr) && !UpdateCallback(next, curr).0.Unchanged?
    ensures Covers(UpdateCallback(next, curr).1, next) && Covers(UpdateCallback(next, curr).1, curr)
  {
    hide Covers, Flushes, ReachesItsEnd;
    var (outcome, merged) := UpdateCallback(next, curr);
    if outcome.Updated? {
      SameRange(merged, next);
      ReplaceCovers(curr, merged);
    } else {
      SkipCovers(merged, next);
      SameRange(merged, curr);
    }
  }

  /** Neither the senders nor a tag the function ignores makes a difference. */
  lemma SameRange(a: Info, b: Info)
    requires a.start == b.start && a.size == b.size && a.fn == b.fn && Mergeable(a.fn)
    requires (a.fn.SfenceVmaAsid? ==> a.asid == b.asid)
    ensures Covers(a, b) && (ReachesItsEnd(a) <==> ReachesItsEnd(b))
  {
    forall item | Flushes(b, item)
      ensures Flushes(a, item)
    {
      if k: nat :| Reaches(b, item.page, k) {
        assert Reaches(a, item.page, k);
      }
    }
  }

  lemma LossIsUnsafe(next: Info)
    requires exists curr, item :: Loses(next, curr, item)
    ensures !SafeToMerge(next)
  {
    hide Flushes, UpdateCallback;
    var curr, item :| Loses(next, curr, item);
  }

  /** A waiting entry has to be aligned as well: one that is not can swallow a request although it
      misses the request's only page. */
  lemma UnalignedMergeLosesPage(asid: Word, senders: set<nat>)
    ensures var curr := Info(0x1800, 0x1000, asid, 0, SfenceVma, senders);
            var next := Info(0x2000, 0x800, asid, 0, SfenceVma, senders);
            UpdateCallback(next, curr).0.Skip? && !Covers(UpdateCallback(next, curr).1, next)
  {
    var curr := Info(0x1800, 0x1000, asid, 0, SfenceVma, senders);
    var next := Info(0x2000, 0x800, asid, 0, SfenceVma, senders);
    var merged := UpdateCallback(next, curr).1;
    var item := Item(Supervisor, 2, asid, 0);
    assert Reaches(next, 2, 0);
    assert Flushes(next, item);
    assert forall k: nat :: !Reaches(merged, 2, k);
  }

  // ---------------------------------------------------------------- merging any two requests

  /** How far page lies behind first, going up and around. */
  function Ahead(first: PageNumber, page: PageNumber): nat {
    if page >= first then page - first else page - first + PAGES_END
  }

  function FirstPage(info: Info): PageNumber { info.start / PAGE_SIZE }

  /** The pages of any range: an arc of the address space. */
  lemma RangeArc(info: Info, page: PageNumber)
    ensures InRange(info, page) <==> Ahead(FirstPage(info), page) < Pages(info.size)
    ensures Pages(info.size) <= PAGES_END
  {
    hide Pages;
    PagesBound(info.size, PAGES_END);
    if InRange(info, page) {
      var k: nat :| Reaches(info, page, k);
      PagesBound(info.size, k);
      PageAround(info.start, k);
    }
    var k := Ahead(FirstPage(info), page);
    if k < Pages(info.size) {
      PagesBound(info.size, k);
      PageAround(info.start, k);
      assert Reaches(info, page, k);
    }
  }

  lemma PageAround(start: Word, k: nat)
    requires k < PAGES_END
    ensures var p := start / PAGE_SIZE + k;
      (start + k * PAGE_SIZE) % WORD_END / PAGE_SIZE == if p < PAGES_END then p else p - PAGES_END
  {
    var r, p := start % PAGE_SIZE, start / PAGE_SIZE + k;
    assert start + k * PAGE_SIZE == p * PAGE_SIZE + r;
    if p < PAGES_END {
      assert (p * PAGE_SIZE + r) % WORD_END == p * PAGE_SIZE + r;
    } else {
      assert p * PAGE_SIZE + r == (p - PAGES_END) * PAGE_SIZE + r + WORD_END;
      assert (p * PAGE_SIZE + r) % WORD_END == (p - PAGES_END) * PAGE_SIZE + r;
    }
  }

  /** The request flushes every page of the spaces it is about. */
  predicate Wide(info: Info) { AllSpaces(info) || info.size == FLUSH_ALL || Pages(info.size) == PAGES_END }

  /** Whether one sfence request covers another of its kind and ASID, from start and size alone: one that
      flushes nothing is covered; all spaces need all spaces; else all pages need all pages, and an
      arc of pages needs to lie on the other's. */
  predicate CoverTest(big: Info, small: Info) {
    || (small.size == 0 && !AllSpaces(small))
    || (if AllSpaces(small) && small.fn.SfenceVmaAsid? then AllSpaces(big)
        else Wide(big) ||
             (!Wide(small) && Ahead(FirstPage(big), FirstPage(small)) + Pages(small.size) <= Pages(big.size)))
  }

  predicate SameKind(a: Info, b: Info) {
    Mergeable(a.fn) && a.fn == b.fn && (a.fn.SfenceVmaAsid? ==> a.asid == b.asid)
  }

  /** The page after the last one of a range, around the end of the address space. */
  function Beyond(info: Info): PageNumber
    requires Pages(info.size) < PAGES_END
  {
    var p := FirstPage(info) + Pages(info.size);
    if p < PAGES_END then p else p - PAGES_END
  }

  lemma WideFlushes(info: Info, item: Item)
    requires Mergeable(info.fn) && item.stage == Supervisor && TagsMatch(info, item)
    ensures Wide(info) ==> Flushes(info, item)
    ensures !AllSpaces(info) && info.size != FLUSH_ALL ==>
      (Flushes(info, item) <==> Ahead(FirstPage(info), item.page) < Pages(info.size))
  {
    hide Pages;
    RangeArc(info, item.page);
  }

  lemma TestCovers(big: Info, small: Info)
    requires SameKind(big, small) && CoverTest(big, small)
    ensures Covers(big, small)
  {
    hide Pages, Flushes;
    forall item | Flushes(small, item)
      ensures Flushes(big, item)
    {
      FlushedItem(small, item);
      RangeArc(small, item.page);
      RangeArc(big, item.page);
      WideFlushes(small, item);
      TagsCarry(big, small, item);
      WideFlushes(big, item);
      NoPages(small);
    }
  }

  lemma NoPages(info: Info)
    ensures info.size == 0 ==> Pages(info.size) == 0
  {
  }

  lemma FlushedItem(info: Info, item: Item)
    requires Mergeable(info.fn) && Flushes(info, item)
    ensures item.stage == Supervisor && TagsMatch(info, item)
  {
  }

  lemma TagsCarry(big: Info, small: Info, item: Item)
    requires SameKind(big, small) && TagsMatch(small, item)
    requires AllSpaces(small) && small.fn.SfenceVmaAsid? ==> AllSpaces(big)
    ensures TagsMatch(big, item)
  {
  }

  lemma CoversTest(big: Info, small: Info)
    requires SameKind(big, small) && Covers(big, small)
    ensures CoverTest(big, small)
  {
    hide Pages, Flushes;
    var all := AllSpaces(small) && small.fn.SfenceVmaAsid?;
    if all {
      var other: Word := if big.asid == 0 then 1 else 0;
      var item := Item(Supervisor, 0, other, 0);
      WideFlushes(small, item);
      OneSpace(big, item);
    } else if !(small.size == 0 && !AllSpaces(small)) && !Wide(big) {
      RangeArc(big, 0);
      var far := !Wide(small) && Ahead(FirstPage(big), FirstPage(small)) >= Pages(big.size);
      var item := Item(Supervisor, if far then FirstPage(small) else Beyond(big), small.asid, 0);
      WideFlushes(small, item);
      WideFlushes(big, item);
      RangeArc(small, item.page);
      SomePages(small);
    }
  }

  lemma OneSpace(info: Info, item: Item)
    requires info.fn.SfenceVmaAsid? && Flushes(info, item) && item.asid != info.asid
    ensures AllSpaces(info)
  {
  }

  lemma SomePages(info: Info)
    ensures info.size > 0 ==> Pages(info.size) > 0
  {
  }

  lemma CoversExactly(big: Info, small: Info)
    requires SameKind(big, small)
    ensures Covers(big, small) <==> CoverTest(big, small)
  {
    hide Covers, CoverTest;
    if CoverTest(big, small) {
      TestCovers(big, small);
    }
    if Covers(big, small) {
      CoversTest(big, small);
    }
  }

  /** Exactly when merging two requests, aligned or not, wrapping or not, loses nothing. */
  lemma PairSoundExactly(next: Info, curr: Info)
    requires !UpdateCallback(next, curr).0.Unchanged?
    ensures var (outcome, merged) := UpdateCallback(next, curr);
      Covers(merged, next) && Covers(merged, curr) <==>
        if outcome.Updated? then CoverTest(next, curr) else CoverTest(curr, next)
  {
    hide Covers, Pages, ReachesItsEnd;
    var (outcome, merged) := UpdateCallback(next, curr);
    if outcome.Updated? {
      SameRange(merged, next);
      CoversExactly(merged, curr);
      assert CoverTest(merged, curr) == CoverTest(next, curr);
    } else {
      SameRange(merged, curr);
      CoversExactly(merged, next);
      assert CoverTest(merged, next) == CoverTest(curr, next);
    }
  }
}
