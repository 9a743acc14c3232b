/** The frame allocator and the page-table routines of os/src/address.c and os/src/stack.c,
    working in place on physical memory. A panic or a failed assert stops the kernel; the
    routines report it as a status and promise nothing about what would come after. */
module KernelMemory {
  import opened Common
  import opened Sv39

  const MAX_RECYCLED: nat := 10000

  datatype Status = Done | OutOfMemory | AlreadyMapped | EmptyRange

  datatype FreeResult = Freed | NeverAllocated | FreedTwice

  /** Tables were added to the address space `root`; nothing else that is in use changed. */
  ghost predicate Grew(mem0: Memory, loc0: Plan, mem: Memory, loc: Plan, root: nat)
    ensures Grew(mem0, loc0, mem, loc, root) ==> Shape(mem0, loc0) && Shape(mem, loc)
  {
    && Shape(mem0, loc0) && Shape(mem, loc) && |mem| == |mem0|
    && (forall t | t in loc0 :: t in loc && loc[t] == loc0[t])
    && (forall t | t in loc && t !in loc0 :: t.Table? && t.root == root && t.level > 0)
    && (forall t | t in loc0 && !(t.Table? && t.root == root) :: mem[loc0[t]] == mem0[loc0[t]])
  }

  ghost predicate SameLeaves(mem0: Memory, loc0: Plan, mem: Memory, loc: Plan)
    requires PlanOk(mem0, loc0) && PlanOk(mem, loc)
  {
    forall r: nat, v: nat :: Leaf(mem, loc, r, v) == Leaf(mem0, loc0, r, v)
  }

  /** Every page keeps its mapping except page vpn of `root`, which now has entry w. */
  ghost predicate LeafSet(mem0: Memory, loc0: Plan, mem: Memory, loc: Plan, root: nat, vpn: nat, w: Word)
    requires PlanOk(mem0, loc0) && PlanOk(mem, loc)
  {
    forall r: nat, v: nat ::
      Leaf(mem, loc, r, v) == if r == root && v == vpn then w else Leaf(mem0, loc0, r, v)
  }

  lemma GrewNone(mem: Memory, loc: Plan, root: nat)
    requires Shape(mem, loc)
    ensures Grew(mem, loc, mem, loc, root) && SameLeaves(mem, loc, mem, loc)
  {
    hide Shape;
  }

  lemma TagIsOk(mem: Memory, loc: Plan, t: Tag)
    requires PlanOk(mem, loc) && t in loc
    ensures TagOk(loc, t) && loc[t] < |mem| && |mem[loc[t]]| == ENTRIES
    ensures t.Table? && t.level == 0 ==> t.prefix == 0 && loc[t] == t.root
  {
  }

  lemma IndexSmall(vpn: nat, level: nat)
    requires level <= 2
    ensures Index(vpn, level) < ENTRIES
  {
  }

  /** Linking a fresh table only adds that table. */
  lemma TableAdded(mem: Memory, loc: Plan, root: nat, t: Tag, k: nat, f: nat)
    requires CanGrow(mem, loc, t, k, f) && t.root == root
    ensures var loc' := loc[Child(t, k) := f];
      Grew(mem, loc, Grown(mem, loc, t, k, f), loc', root) && SameLeaves(mem, loc, Grown(mem, loc, t, k, f), loc')
  {
    hide Shape, BranchOk, LeafOk, Leaf;
    GrowTable(mem, loc, t, k, f);
  }

  /** The cell a last-level table holds for a page. */
  lemma LeafCell(mem: Memory, loc: Plan, root: nat, vpn: nat)
    requires PlanOk(mem, loc) && Table(root, 2, vpn / 512) in loc
    ensures var f := loc[Table(root, 2, vpn / 512)];
      f < |mem| && |mem[f]| == ENTRIES && vpn % 512 < ENTRIES && mem[f][vpn % 512] == Leaf(mem, loc, root, vpn)
  {
  }

  lemma SameLeaf(mem0: Memory, loc0: Plan, mem: Memory, loc: Plan, root: nat, vpn: nat)
    requires PlanOk(mem0, loc0) && PlanOk(mem, loc) && SameLeaves(mem0, loc0, mem, loc)
    ensures Leaf(mem, loc, root, vpn) == Leaf(mem0, loc0, root, vpn)
  {
  }

  /** Writing 0 where nothing is mapped changes nothing. */
  lemma LeafUnset(mem: Memory, loc: Plan, root: nat, vpn: nat)
    requires PlanOk(mem, loc)
    ensures Leaf(mem, loc, root, vpn) == 0 ==> LeafSet(mem, loc, mem, loc, root, vpn, 0)
  {
    hide PlanOk, Leaf;
  }

  lemma PageMapped(mem0: Memory, loc0: Plan, mem: Memory, loc: Plan, root: nat, vpn: nat, w: Word)
    requires Grew(mem0, loc0, mem, loc, root) && SameLeaves(mem0, loc0, mem, loc)
    requires Table(root, 2, vpn / 512) in loc && IsValid(w)
    ensures var f := loc[Table(root, 2, vpn / 512)];
      && f < |mem| && vpn % 512 < |mem[f]|
      && Grew(mem0, loc0, Poke(mem, f, vpn % 512, w), loc, root)
      && LeafSet(mem0, loc0, Poke(mem, f, vpn % 512, w), loc, root, vpn, w)
  {
    hide Shape, Injective, TagOk, Leaf;
    LeafCell(mem, loc, root, vpn);
    WriteLeaf(mem, loc, root, vpn, w);
  }

  lemma GrewTransitive(mem0: Memory, loc0: Plan, mem1: Memory, loc1: Plan, mem2: Memory, loc2: Plan, root: nat)
    requires Grew(mem0, loc0, mem1, loc1, root) && Grew(mem1, loc1, mem2, loc2, root)
    ensures Grew(mem0, loc0, mem2, loc2, root)
    ensures SameLeaves(mem0, loc0, mem1, loc1) && SameLeaves(mem1, loc1, mem2, loc2) ==>
      SameLeaves(mem0, loc0, mem2, loc2)
  {
  }

  /** The allocator's books: the counter, the recycle stack, what each frame in use is for, and
      the frames dropped because the stack was full. */
  datatype Books = Books(start: nat, current: nat, recycled: seq<nat>, loc: Plan, lost: set<nat>)

  /** Every frame handed out so far is in use, waiting on the stack, or lost; never two of these. */
  ghost predicate BooksOk(b: Books) {
    && b.start <= b.current
    && |b.recycled| <= MAX_RECYCLED
    && (forall i | 0 <= i < |b.recycled| :: b.start <= b.recycled[i] < b.current)
    && (forall i, j | 0 <= i < j < |b.recycled| :: b.recycled[i] != b.recycled[j])
    && Injective(b.loc)
    && (forall t | t in b.loc :: b.start <= b.loc[t] < b.current && b.loc[t] !in b.recycled && b.loc[t] !in b.lost)
    && (forall f | f in b.lost :: b.start <= f < b.current && f !in b.recycled)
    && (forall f | b.start <= f < b.current :: Accounted(b, f))
  }

  ghost predicate Accounted(b: Books, f: nat) {
    f in b.recycled || f in b.lost || exists t :: t in b.loc && b.loc[t] == f
  }

  lemma TakeRecycled(b: Books, tag: Tag)
    requires BooksOk(b) && b.recycled != []
    requires Unused(b.loc, b.recycled[|b.recycled| - 1]) ==> tag !in b.loc
    ensures var n := |b.recycled| - 1;
      var f := b.recycled[n];
      b.start <= f < b.current && Unused(b.loc, f) && BooksOk(b.(recycled := b.recycled[..n], loc := b.loc[tag := f]))
  {
    var n := |b.recycled| - 1;
    var f := b.recycled[n];
    var b' := b.(recycled := b.recycled[..n], loc := b.loc[tag := f]);
    assert forall t | t in b.loc :: b.loc[t] != f;
    forall g | b'.start <= g < b'.current
      ensures Accounted(b', g)
    {
      assert Accounted(b, g);
      if g == f {
        assert b'.loc[tag] == g;
      } else if t :| t in b.loc && b.loc[t] == g {
        assert b'.loc[t] == g;
      }
    }
  }

  lemma TakeNew(b: Books, tag: Tag)
    requires BooksOk(b) && (Unused(b.loc, b.current) ==> tag !in b.loc)
    ensures b.start <= b.current && Unused(b.loc, b.current)
    ensures BooksOk(b.(current := b.current + 1, loc := b.loc[tag := b.current]))
  {
    var b' := b.(current := b.current + 1, loc := b.loc[tag := b.current]);
    assert Unused(b.loc, b.current);
    forall g | b'.start <= g < b'.current
      ensures Accounted(b', g)
    {
      if g == b.current {
        assert b'.loc[tag] == g;
      } else {
        assert Accounted(b, g);
        if t :| t in b.loc && b.loc[t] == g {
          assert b'.loc[t] == g;
        }
      }
    }
  }

  lemma GiveBack(b: Books, tag: Tag)
    requires BooksOk(b) && tag in b.loc
    ensures b.loc[tag] < b.current && b.loc[tag] !in b.recycled
    ensures |b.recycled| < MAX_RECYCLED ==>
      BooksOk(b.(recycled := b.recycled + [b.loc[tag]], loc := b.loc - {tag}))
    ensures BooksOk(b.(lost := b.lost + {b.loc[tag]}, loc := b.loc - {tag}))
  {
    var f := b.loc[tag];
    var b1 := b.(recycled := b.recycled + [f], loc := b.loc - {tag});
    var b2 := b.(lost := b.lost + {f}, loc := b.loc - {tag});
    forall g | b.start <= g < b.current
      ensures Accounted(b1, g) && Accounted(b2, g)
    {
      assert Accounted(b, g);
      assert f in b1.recycled;
      assert g in b.recycled ==> g in b1.recycled;
      if g != f && exists t :: t in b.loc && b.loc[t] == g {
        var t :| t in b.loc && b.loc[t] == g;
        assert t in b1.loc && b1.loc[t] == g;
      }
    }
  }

  class Machine {
    const start: nat
    const end: nat
    var mem: Memory
    var current: nat
    var recycled: seq<nat>
    ghost var loc: Plan
    ghost var lost: set<nat>     // frames dropped because the recycle stack was full

    ghost function Account(): Books
      reads this
    {
      Books(start, current, recycled, loc, lost)
    }

    ghost predicate FramesOk()
      reads this
    {
      BooksOk(Account()) && current <= end <= |mem| <= PPN_END && Uniform(mem)
    }

    ghost predicate Valid()
      reads this
    {
      FramesOk() && Shape(mem, loc)
    }

    /** No frame is left to hand out. */
    ghost predicate Exhausted()
      reads this
    {
      recycled == [] && current >= end
    }

    /** StackFrameAllocator_new, called once by frame_alloctor_init. */
    constructor (start: nat, end: nat, mem: Memory)
      requires start <= end <= |mem| <= PPN_END && Uniform(mem)
      ensures Valid() && this.start == start && this.end == end && loc == map[] && lost == {}
    {
      this.start, this.end, this.mem := start, end, mem;
      current, recycled := start, [];
      loc, lost := map[], {};
    }

    /** StackFrameAllocator_alloc: the frame is recycled or new, cleared, and used by nobody else. */
    method Alloc(ghost purpose: nat -> Tag) returns (ok: bool, ppn: nat)
      requires FramesOk() && forall f | Unused(loc, f) :: purpose(f) !in loc
      modifies `mem, `current, `recycled, `loc
      ensures FramesOk()
      ensures ok <==> old(recycled) != [] || old(current) < end
      ensures !ok ==> mem == old(mem) && loc == old(loc) && recycled == old(recycled) && current == old(current)
      ensures ok ==>
        && start <= ppn < current && Unused(old(loc), ppn)
        && loc == old(loc)[purpose(ppn) := ppn]
        && mem == old(mem)[ppn := ZeroFrame()]
      ensures ok ==> if old(recycled) != [] then old(recycled) == recycled + [ppn] && current == old(current)
                     else recycled == [] && ppn == old(current) && current == ppn + 1
    {
      hide BooksOk, Unused;
      ppn := 0;
      if |recycled| > 0 {
        ppn := recycled[|recycled| - 1];
        TakeRecycled(Account(), purpose(ppn));
        recycled := recycled[..|recycled| - 1];
      } else {
        if current == end {
          return false, ppn;
        }
        ppn := current;
        TakeNew(Account(), purpose(ppn));
        current := current + 1;
      }
      mem := mem[ppn := ZeroFrame()];
      loc := loc[purpose(ppn) := ppn];
      ok := true;
    }

    /** StackFrameAllocator_dealloc and push, as they act on any page number. */
    method Recycle(ppn: nat) returns (r: FreeResult)
      requires |recycled| <= MAX_RECYCLED
      modifies `recycled
      ensures r == NeverAllocated <==> ppn >= current
      ensures r == FreedTwice <==> ppn < current && ppn in old(recycled)
      ensures recycled == if r == Freed && |old(recycled)| < MAX_RECYCLED then old(recycled) + [ppn] else old(recycled)
    {
      if ppn >= current {
        return NeverAllocated;
      }
      var i := 0;
      while i < |recycled|
        invariant 0 <= i <= |recycled| && ppn !in recycled[..i]
      {
        if ppn == recycled[i] {
          return FreedTwice;
        }
        i := i + 1;
      }
      if |recycled| < MAX_RECYCLED {
        recycled := recycled + [ppn];
      }
      r := Freed;
    }

    /** kfree of a frame that is in use: never reaches the double-free panic, and gives up exactly
        the one purpose the frame served. */
    method Free(ppn: nat, ghost tag: Tag) returns (r: FreeResult)
      requires FramesOk() && tag in loc && loc[tag] == ppn
      modifies `recycled, `loc, `lost
      ensures r == Freed
      ensures FramesOk() && loc == old(loc) - {tag}
      ensures if |old(recycled)| < MAX_RECYCLED then recycled == old(recycled) + [ppn] && lost == old(lost)
              else recycled == old(recycled) && lost == old(lost) + {ppn}
    {
      ghost var full := |recycled| == MAX_RECYCLED;
      GiveBack(Account(), tag);
      r := Recycle(ppn);
      loc := loc - {tag};
      if full {
        lost := lost + {ppn};
      }
    }

    /** memcpy into a whole frame, or a write to a part of it. */
    method Overwrite(f: nat, data: Frame)
      requires FramesOk() && f < |mem| && |data| == ENTRIES
      modifies `mem
      ensures FramesOk() && mem == old(mem)[f := data]
    {
      mem := mem[f := data];
    }

    /** One word of a frame. */
    method WriteWord(f: nat, i: nat, w: Word)
      requires FramesOk() && f < |mem| && i < ENTRIES && i < |mem[f]|
      modifies `mem
      ensures FramesOk() && mem == Poke(old(mem), f, i, w)
    {
      hide BooksOk;
      var table: Frame := mem[f][i := w];
      mem := mem[f := table];
    }

    /** find_pte: stops at the first entry that is not valid. */
    method FindPte(root: nat, vpn: nat) returns (c: Option<Cell>)
      requires Valid() && Table(root, 0, 0) in loc && vpn < VPN_END
      ensures c == Walk(mem, root, vpn, 0)
      ensures c.Some? <==> IsValid(Leaf(mem, loc, root, vpn))
      ensures c.Some? ==> Table(root, 2, vpn / 512) in loc && c == Some(Cell(loc[Table(root, 2, vpn / 512)], vpn % 512))
    {
      WalkIsLeaf(mem, loc, root, vpn);
      assert TagOk(loc, Table(root, 0, 0));
      var ppn := root;
      var i := 0;
      while i < 3
        invariant 0 <= i <= 2
        invariant Table(root, i, Prefix(vpn, i)) in loc && ppn == loc[Table(root, i, Prefix(vpn, i))]
        invariant Walk(mem, root, vpn, 0) == Walk(mem, ppn, vpn, i)
        decreases 3 - i
      {
        var pte := mem[ppn][Index(vpn, i)];
        if !IsValid(pte) {
          return None;
        }
        if i == 2 {
          return Some(Cell(ppn, Index(vpn, i)));
        }
        WalkStep(mem, loc, root, vpn, i);
        ppn := PtePpn(pte);
        i := i + 1;
      }
      c := None;
    }

    /** One round of find_pte_create: the table below entry vpn of level i exists afterwards. */
    method EnsureTable(root: nat, vpn: nat, i: nat, ppn: nat) returns (ok: bool, next: nat)
      requires Valid() && vpn < VPN_END && i < 2
      requires Table(root, i, Prefix(vpn, i)) in loc && ppn == loc[Table(root, i, Prefix(vpn, i))]
      modifies `mem, `current, `recycled, `loc
      ensures FramesOk() && (!ok ==> Exhausted())
      ensures ok ==>
        && Grew(old(mem), old(loc), mem, loc, root) && SameLeaves(old(mem), old(loc), mem, loc)
        && Table(root, i + 1, Prefix(vpn, i + 1)) in loc
        && next == loc[Table(root, i + 1, Prefix(vpn, i + 1))]
    {
      hide Shape, BooksOk, Injective, TagOk, Grew, SameLeaves, NewPte, PtePpn, Prefix, Index;
      var k := Index(vpn, i);
      ghost var t := Table(root, i, Prefix(vpn, i));
      IndexSmall(vpn, i);
      WalkStep(mem, loc, root, vpn, i);
      GrewNone(mem, loc, root);
      if !IsValid(mem[ppn][k]) {
        ghost var mem1, loc1 := mem, loc;
        var got, frame := Alloc(_ => Child(t, k));
        if !got {
          return false, 0;
        }
        TableAdded(mem1, loc1, root, t, k, frame);
        WriteWord(ppn, k, NewPte(frame, PTE_V));
        PteRoundTrip(frame, PTE_V);
      }
      return true, PtePpn(mem[ppn][k]);
    }

    /** find_pte_create: adds the missing tables of the path and nothing else. */
    method FindPteCreate(root: nat, vpn: nat) returns (ok: bool, c: Cell)
      requires Valid() && Table(root, 0, 0) in loc && vpn < VPN_END
      modifies `mem, `current, `recycled, `loc
      ensures FramesOk() && (!ok ==> Exhausted())
      ensures ok ==>
        && Grew(old(mem), old(loc), mem, loc, root) && SameLeaves(old(mem), old(loc), mem, loc)
        && Table(root, 2, vpn / 512) in loc && c == Cell(loc[Table(root, 2, vpn / 512)], vpn % 512)
    {
      hide Shape, BooksOk, PlanOk, Grew, SameLeaves;
      TagIsOk(mem, loc, Table(root, 0, 0));
      GrewNone(mem, loc, root);
      var ppn := root;
      var i := 0;
      while i < 2
        invariant 0 <= i <= 2
        invariant FramesOk()
        invariant Grew(old(mem), old(loc), mem, loc, root) && SameLeaves(old(mem), old(loc), mem, loc)
        invariant Table(root, i, Prefix(vpn, i)) in loc && ppn == loc[Table(root, i, Prefix(vpn, i))]
      {
        ghost var mem1, loc1 := mem, loc;
        ok, ppn := EnsureTable(root, vpn, i, ppn);
        if !ok {
          return false, Cell(0, 0);
        }
        GrewTransitive(old(mem), old(loc), mem1, loc1, mem, loc, root);
        i := i + 1;
      }
      return true, Cell(ppn, Index(vpn, i));
    }

    /** PageTable_map_per_page: maps one page that was not mapped, and changes no other mapping. */
    method MapPage(root: nat, vpn: nat, ppn: nat, flags: nat) returns (r: Status)
      requires Valid() && Table(root, 0, 0) in loc && vpn < VPN_END && flags < 256
      modifies `mem, `current, `recycled, `loc
      ensures FramesOk() && (r == OutOfMemory ==> Exhausted())
      ensures r == Done || r == OutOfMemory || r == AlreadyMapped
      ensures r == AlreadyMapped ==> IsValid(old(Leaf(mem, loc, root, vpn)))
      ensures r == Done ==>
        && !IsValid(old(Leaf(mem, loc, root, vpn)))
        && Grew(old(mem), old(loc), mem, loc, root)
        && LeafSet(old(mem), old(loc), mem, loc, root, vpn, NewPte(ppn, WithValid(flags)))
    {
      hide Shape, BooksOk, PlanOk, Grew, SameLeaves, LeafSet, Poke, NewPte;
      ghost var mem0, loc0 := mem, loc;
      var ok, c := FindPteCreate(root, vpn);
      if !ok {
        return OutOfMemory;
      }
      LeafCell(mem, loc, root, vpn);
      SameLeaf(mem0, loc0, mem, loc, root, vpn);
      if IsValid(mem[c.frame][c.index]) {
        return AlreadyMapped;
      }
      ValidAfterNew(ppn, WithValid(flags));
      PageMapped(mem0, loc0, mem, loc, root, vpn, NewPte(ppn, WithValid(flags)));
      WriteWord(c.frame, c.index, NewPte(ppn, WithValid(flags)));
      r := Done;
    }

    /** PageTable_map: adds exactly the pages of the byte range, in order, and changes no other
        mapping; it stops at a page that is mapped. A range past the last page stops at its first
        page, where that one is mapped. */
    method MapRange(root: nat, va: nat, pa: nat, size: nat, flags: nat) returns (r: Status)
      requires Valid() && Table(root, 0, 0) in loc && flags < 256 && va < VPN_END * PAGE_SIZE
      requires va + size <= VPN_END * PAGE_SIZE || IsValid(Leaf(mem, loc, root, va / PAGE_SIZE))
      modifies `mem, `current, `recycled, `loc
      ensures FramesOk() && (r == OutOfMemory ==> Exhausted())
      ensures r == EmptyRange <==> size == 0
      ensures r == AlreadyMapped ==>
        SomeMapped(old(mem), old(loc), root, va / PAGE_SIZE, (va + size - 1) / PAGE_SIZE + 1)
      ensures r == Done ==>
        && va + size <= VPN_END * PAGE_SIZE
        && !SomeMapped(old(mem), old(loc), root, va / PAGE_SIZE, (va + size - 1) / PAGE_SIZE + 1)
        && Grew(old(mem), old(loc), mem, loc, root)
        && RangeSet(old(mem), old(loc), mem, loc, root, va / PAGE_SIZE, (va + size - 1) / PAGE_SIZE + 1,
                    pa / PAGE_SIZE, flags)
    {
      if size == 0 {
        return EmptyRange;
      }
      LastPage(va, size);
      r := MapPages(root, va / PAGE_SIZE, (va + size - 1) / PAGE_SIZE, pa / PAGE_SIZE, flags);
    }

    /** The loop of PageTable_map over the pages first..last. */
    method MapPages(root: nat, first: nat, last: nat, target: nat, flags: nat) returns (r: Status)
      requires Valid() && Table(root, 0, 0) in loc && flags < 256 && first <= last && first < VPN_END
      requires last < VPN_END || IsValid(Leaf(mem, loc, root, first))
      modifies `mem, `current, `recycled, `loc
      ensures FramesOk() && r != EmptyRange && (r == OutOfMemory ==> Exhausted())
      ensures r == AlreadyMapped ==> SomeMapped(old(mem), old(loc), root, first, last + 1)
      ensures r == Done ==>
        && last < VPN_END && !SomeMapped(old(mem), old(loc), root, first, last + 1)
        && Grew(old(mem), old(loc), mem, loc, root)
        && RangeSet(old(mem), old(loc), mem, loc, root, first, last + 1, target, flags)
    {
      hide Shape, BooksOk, TagOk, Injective, Leaf;
      ghost var mem0, loc0 := mem, loc;
      var ppn, vpn := target, first;
      while true
        invariant first <= vpn <= last && (vpn == first || last < VPN_END)
        invariant ppn == target + (vpn - first)
        invariant FramesOk() && Grew(mem0, loc0, mem, loc, root)
        invariant RangeSet(mem0, loc0, mem, loc, root, first, vpn, target, flags)
        invariant forall v: nat | first <= v < vpn :: !IsValid(Leaf(mem0, loc0, root, v))
        decreases last - vpn
      {
        ghost var mem1, loc1 := mem, loc;
        assert Leaf(mem1, loc1, root, vpn) == Leaf(mem0, loc0, root, vpn);
        r := MapPage(root, vpn, ppn, flags);
        if r != Done {
          return;
        }
        GrewTransitive(mem0, loc0, mem1, loc1, mem, loc, root);
        RangeExtend(mem0, loc0, mem1, loc1, mem, loc, root, first, vpn, target, flags);
        vpn := vpn + 1;
        ppn := ppn + 1;
        if vpn > last {
          return;
        }
      }
    }

    /** page_unmap_free: every page of the range that is mapped is unmapped, and its frame is
        released when asked for. `tags` names the purpose of each such frame. */
    method UnmapFree(root: nat, vpn: nat, pages: nat, free: bool, ghost tags: nat -> Tag) returns (r: FreeResult)
      requires Valid() && Table(root, 0, 0) in loc && vpn + pages <= VPN_END
      requires free ==> Releasable(mem, loc, root, vpn, vpn + pages, tags)
      modifies `mem, `recycled, `loc, `lost
      ensures r == Freed && Valid()
      ensures Unmapped(old(mem), old(loc), mem, loc, root, vpn, vpn + pages, free, tags)
    {
      hide Shape, BooksOk, PlanOk, Unmapped, Releasable, LeafSet, Leaf;
      UnmapNone(mem, loc, root, vpn, free, tags);
      r := Freed;
      var i := vpn;
      while i < vpn + pages
        invariant vpn <= i <= vpn + pages
        invariant r == Freed && Valid() && Table(root, 0, 0) in loc
        invariant Unmapped(old(mem), old(loc), mem, loc, root, vpn, i, free, tags)
        invariant free ==> Releasable(mem, loc, root, i, vpn + pages, tags)
      {
        ghost var mem1, loc1 := mem, loc;
        ReleaseThis(mem, loc, root, i, vpn + pages, free, tags);
        r := UnmapOne(root, i, free, tags(i));
        UnmapStep(old(mem), old(loc), mem1, loc1, mem, loc, root, vpn, i, vpn + pages, free, tags);
        i := i + 1;
      }
    }

    /** One round of page_unmap_free. */
    method UnmapOne(root: nat, vpn: nat, free: bool, ghost tag: Tag) returns (r: FreeResult)
      requires Valid() && Table(root, 0, 0) in loc && vpn < VPN_END
      requires free && IsValid(Leaf(mem, loc, root, vpn)) ==>
        tag in loc && !tag.Table? && loc[tag] == PtePpn(Leaf(mem, loc, root, vpn))
      modifies `mem, `recycled, `loc, `lost
      ensures r == Freed && Valid() && |mem| == |old(mem)|
      ensures loc == if free && IsValid(old(Leaf(mem, loc, root, vpn))) then old(loc) - {tag} else old(loc)
      ensures LeafSet(old(mem), old(loc), mem, loc, root, vpn, 0)
      ensures forall t | t in loc && !(t.Table? && t.root == root) :: mem[loc[t]] == old(mem)[old(loc)[t]]
    {
      hide Shape, BooksOk, Injective, TagOk, PtePpn, Leaf;
      r := Freed;
      LeafZeroOrValid(mem, loc, root, vpn);
      LeafUnset(mem, loc, root, vpn);
      ghost var mem1, loc1 := mem, loc;
      var pte := FindPte(root, vpn);
      if pte.Some? {
        var c := pte.value;
        LeafCell(mem, loc, root, vpn);
        if free {
          DropOther(mem1, loc1, tag);
          r := Free(PtePpn(mem[c.frame][c.index]), tag);
        }
        WriteLeaf(mem, loc, root, vpn, 0);
        WriteWord(c.frame, c.index, 0);
      }
    }

    /** free_page_table: releases the table and all tables below it, each exactly once. It meets
        neither a leftover page nor a frame that is already free, and goes down at most two
        levels below the root. */
    method FreeTable(ppn: nat, ghost t: Tag) returns (r: FreeResult)
      requires Valid() && t in loc && t.Table? && ppn == loc[t] && AllClear(mem, loc, t)
      modifies `mem, `recycled, `loc, `lost
      ensures r == Freed && FramesOk() && |mem| == |old(mem)|
      ensures loc == Prune(old(loc), t)
      ensures t.level == 0 ==> Shape(mem, loc)
      ensures t.level > 0 ==> ShapeBut(mem, loc, Parent(t), t.prefix % 512)
      ensures Untouched(old(mem), mem, loc, t)
      decreases 2 - t.level, 1
    {
      hide Shape, BooksOk, PlanOk, Prune, PruneFirst, AllClear, Untouched, TagOk;
      ghost var mem0, loc0 := mem, loc;
      TagIsOk(mem, loc, t);
      PruneNone(loc0, t);
      UntouchedSame(mem, loc, t);
      r := Freed;
      var i := 0;
      while i < ENTRIES
        invariant 0 <= i <= ENTRIES
        invariant r == Freed && Valid() && |mem| == |mem0|
        invariant loc == PruneFirst(loc0, t, i) && t in loc && loc[t] == ppn
        invariant AllClear(mem, loc, t)
        invariant Untouched(mem0, mem, loc, t)
      {
        BranchMeansTable(mem, loc, t, i);
        var pte := mem[ppn][i];
        if IsBranch(pte) {
          ghost var mem1, loc1 := mem, loc;
          r := FreeBelow(ppn, i, t);
          PruneStep(loc0, t, i);
          UntouchedStep(mem0, mem1, loc1, mem, loc, t);
        } else if IsValid(pte) {
          assert false;     // the panic "free_page_table error"
        } else {
          PruneNothing(mem, loc0, loc, t, i);
        }
        i := i + 1;
      }
      PruneAll(loc0, t);
      NoChildLeft(mem, loc0, loc, t);
      DropTable(mem, loc, t);
      UntouchedStep(mem0, mem, loc, mem, loc - {t}, t);
      r := Free(ppn, t);
    }

    /** The branch of free_page_table for an entry that points to a lower table. */
    method FreeBelow(ppn: nat, i: nat, ghost t: Tag) returns (r: FreeResult)
      requires Valid() && t in loc && t.Table? && ppn == loc[t] && i < ENTRIES && AllClear(mem, loc, t)
      requires IsBranch(mem[ppn][i])
      modifies `mem, `recycled, `loc, `lost
      ensures r == Freed && Valid() && |mem| == |old(mem)|
      ensures t.level < 2 && loc == Prune(old(loc), Child(t, i))
      ensures forall u | u in loc :: u in old(loc) && loc[u] == old(loc)[u]
      ensures t in loc && loc[t] == ppn && AllClear(mem, loc, t)
      ensures Untouched(old(mem), mem, loc, t)
      decreases 2 - t.level, 0
    {
      ghost var c := Child(t, i);
      ghost var mem0, loc0 := mem, loc;
      BranchMeansTable(mem, loc, t, i);
      ClearBelow(mem, loc, t, i);
      r := FreeTable(PtePpn(mem[ppn][i]), c);
      SubtreeSplit(t, t, i);
      ParentOfChild(t, i);
      ClearDangling(mem, loc, t, i);
      var table: Frame := mem[ppn][i := 0];
      mem := mem[ppn := table];
      StillClear(mem0, loc0, mem, loc, t);
    }
  }

  lemma LastPage(va: nat, size: nat)
    requires size > 0 && va < VPN_END * PAGE_SIZE
    ensures va / PAGE_SIZE <= (va + size - 1) / PAGE_SIZE && va / PAGE_SIZE < VPN_END
    ensures (va + size - 1) / PAGE_SIZE < VPN_END <==> va + size <= VPN_END * PAGE_SIZE
  {
  }

  lemma LeafZeroOrValid(mem: Memory, loc: Plan, root: nat, vpn: nat)
    requires Shape(mem, loc)
    ensures IsValid(Leaf(mem, loc, root, vpn)) || Leaf(mem, loc, root, vpn) == 0
  {
    var t := Table(root, 2, vpn / 512);
    assert t in loc ==> LeafOk(mem, loc, t, vpn % 512);
  }

  /** Frames in use for anything but t itself and tables below t kept their contents. */
  ghost predicate Untouched(mem0: Memory, mem: Memory, loc: Plan, t: Tag) {
    forall u | u in loc && u != t && loc[u] < |mem0| && loc[u] < |mem| :: mem[loc[u]] == mem0[loc[u]]
  }

  lemma UntouchedSame(mem: Memory, loc: Plan, t: Tag)
    ensures Untouched(mem, mem, loc, t)
  {
  }

  lemma UntouchedStep(mem0: Memory, mem1: Memory, loc1: Plan, mem2: Memory, loc2: Plan, t: Tag)
    requires |mem0| == |mem1| == |mem2|
    requires Untouched(mem0, mem1, loc1, t) && (mem2 == mem1 || Untouched(mem1, mem2, loc2, t))
    requires forall u | u in loc2 :: u in loc1 && loc1[u] == loc2[u]
    ensures Untouched(mem0, mem2, loc2, t)
  {
  }

  /** In a table whose subtree maps nothing, an entry is clear or points to the table below it. */
  lemma BranchMeansTable(mem: Memory, loc: Plan, t: Tag, i: nat)
    requires Shape(mem, loc) && t in loc && t.Table? && i < ENTRIES && AllClear(mem, loc, t)
    ensures loc[t] < |mem| && t.level <= 2
    ensures IsValid(mem[loc[t]][i]) <==> IsBranch(mem[loc[t]][i])
    ensures IsBranch(mem[loc[t]][i]) <==> t.level < 2 && Child(t, i) in loc
    ensures IsBranch(mem[loc[t]][i]) ==> PtePpn(mem[loc[t]][i]) == loc[Child(t, i)]
  {
    assert TagOk(loc, t);
    if t.level < 2 {
      assert BranchOk(mem, loc, t, i);
      if Child(t, i) in loc {
        PteRoundTrip(loc[Child(t, i)], PTE_V);
      }
    } else {
      assert InSubtree(t, t);
    }
  }

  lemma ClearBelow(mem: Memory, loc: Plan, t: Tag, i: nat)
    requires PlanOk(mem, loc) && t.Table? && t.level < 2 && i < ENTRIES && AllClear(mem, loc, t)
    ensures AllClear(mem, loc, Child(t, i))
  {
    forall u | InSubtree(u, Child(t, i))
      ensures InSubtree(u, t)
    {
      SubtreeSplit(u, t, i);
    }
  }

  lemma StillClear(mem0: Memory, loc0: Plan, mem: Memory, loc: Plan, t: Tag)
    requires PlanOk(mem0, loc0) && PlanOk(mem, loc) && t.Table? && t.level < 2 && AllClear(mem0, loc0, t)
    requires forall u | u in loc :: u in loc0 && loc[u] == loc0[u]
    requires Untouched(mem0, mem, loc, t) && |mem| == |mem0|
    ensures AllClear(mem, loc, t)
  {
  }

  lemma PruneNone(loc: Plan, t: Tag)
    ensures PruneFirst(loc, t, 0) == loc
  {
  }

  /** Where there is no table below an entry, there is nothing to prune. */
  lemma PruneNothing(mem: Memory, loc0: Plan, loc: Plan, t: Tag, i: nat)
    requires PlanOk(mem, loc) && t in loc && t.Table? && i < ENTRIES && loc == PruneFirst(loc0, t, i)
    requires t.level < 2 ==> Child(t, i) !in loc
    ensures loc == PruneFirst(loc0, t, i + 1)
  {
    assert TagOk(loc, t);
    if t.level < 2 {
      PruneStep(loc0, t, i);
      forall u | u in loc
        ensures !InSubtree(u, Child(t, i))
      {
        NothingBelow(mem, loc, u, Child(t, i));
      }
    }
  }

  lemma NothingBelow(mem: Memory, loc: Plan, u: Tag, c: Tag)
    requires PlanOk(mem, loc) && u in loc && c !in loc
    ensures !InSubtree(u, c)
    decreases if u.Table? then u.level else 0
  {
    assert TagOk(loc, u);
    if u.Table? && u.level > 0 {
      NothingBelow(mem, loc, Parent(u), c);
    }
  }

  lemma NoChildLeft(mem: Memory, loc0: Plan, loc: Plan, t: Tag)
    requires PlanOk(mem, loc) && t in loc && t.Table? && loc == PruneFirst(loc0, t, ENTRIES)
    ensures forall j | 0 <= j < ENTRIES :: Child(t, j) !in loc
  {
    assert TagOk(loc, t);
    forall j | 0 <= j < ENTRIES
      ensures Child(t, j) !in loc
    {
      if t.level < 2 { SubtreeSplit(Child(t, j), t, j); }
    }
  }

  /** Some page of lo..hi is mapped. */
  ghost predicate SomeMapped(mem: Memory, loc: Plan, root: nat, lo: nat, hi: nat)
    requires PlanOk(mem, loc)
  {
    exists v: nat :: lo <= v < hi && IsValid(Leaf(mem, loc, root, v))
  }

  /** Pages lo..hi of `root` map to consecutive frames; every other page is as before. */
  ghost predicate RangeSet(mem0: Memory, loc0: Plan, mem: Memory, loc: Plan, root: nat, lo: nat, hi: nat, ppn: nat,
                           flags: nat)
    requires PlanOk(mem0, loc0) && PlanOk(mem, loc) && flags < 256
  {
    forall r: nat, v: nat ::
      Leaf(mem, loc, r, v) == if r == root && lo <= v < hi then NewPte(ppn + (v - lo), WithValid(flags))
                              else Leaf(mem0, loc0, r, v)
  }

  lemma RangeExtend(mem0: Memory, loc0: Plan, mem1: Memory, loc1: Plan, mem2: Memory, loc2: Plan, root: nat, lo: nat,
                    v: nat, ppn: nat, flags: nat)
    requires PlanOk(mem0, loc0) && PlanOk(mem1, loc1) && PlanOk(mem2, loc2) && flags < 256 && lo <= v
    requires RangeSet(mem0, loc0, mem1, loc1, root, lo, v, ppn, flags)
    requires LeafSet(mem1, loc1, mem2, loc2, root, v, NewPte(ppn + (v - lo), WithValid(flags)))
    ensures RangeSet(mem0, loc0, mem2, loc2, root, lo, v + 1, ppn, flags)
  {
  }

  /** The frames behind the mapped pages of the range serve the purposes `tags` names, one each. */
  ghost predicate Releasable(mem: Memory, loc: Plan, root: nat, lo: nat, hi: nat, tags: nat -> Tag)
    requires PlanOk(mem, loc)
  {
    && (forall v: nat | lo <= v < hi && IsValid(Leaf(mem, loc, root, v)) ::
          tags(v) in loc && !tags(v).Table? && loc[tags(v)] == PtePpn(Leaf(mem, loc, root, v)))
    && (forall v: nat, w: nat | lo <= v < w < hi :: tags(v) != tags(w))
  }

  ghost function Released(mem: Memory, loc: Plan, root: nat, lo: nat, hi: nat, tags: nat -> Tag): set<Tag>
    requires PlanOk(mem, loc)
  {
    set v: nat | lo <= v < hi && IsValid(Leaf(mem, loc, root, v)) :: tags(v)
  }

  /** The outcome of unmapping pages lo..hi of `root`. */
  ghost predicate Unmapped(mem0: Memory, loc0: Plan, mem: Memory, loc: Plan, root: nat, lo: nat, hi: nat, free: bool,
                           tags: nat -> Tag) {
    && PlanOk(mem0, loc0) && PlanOk(mem, loc) && |mem| == |mem0|
    && loc == (if free then loc0 - Released(mem0, loc0, root, lo, hi, tags) else loc0)
    && (forall r: nat, v: nat ::
          Leaf(mem, loc, r, v) == if r == root && lo <= v < hi then 0 else Leaf(mem0, loc0, r, v))
    && (forall t | t in loc && !(t.Table? && t.root == root) :: mem[loc[t]] == mem0[loc0[t]])
  }

  lemma UnmapNone(mem: Memory, loc: Plan, root: nat, lo: nat, free: bool, tags: nat -> Tag)
    requires PlanOk(mem, loc)
    ensures Unmapped(mem, loc, mem, loc, root, lo, lo, free, tags)
  {
    hide PlanOk, Leaf;
    assert Released(mem, loc, root, lo, lo, tags) == {};
  }

  lemma ReleaseThis(mem: Memory, loc: Plan, root: nat, v: nat, hi: nat, free: bool, tags: nat -> Tag)
    requires PlanOk(mem, loc) && v < hi && (free ==> Releasable(mem, loc, root, v, hi, tags))
    ensures free && IsValid(Leaf(mem, loc, root, v)) ==>
      tags(v) in loc && !tags(v).Table? && loc[tags(v)] == PtePpn(Leaf(mem, loc, root, v))
  {
    hide PlanOk, Leaf, PtePpn;
  }

  lemma UnmapStep(mem0: Memory, loc0: Plan, mem1: Memory, loc1: Plan, mem2: Memory, loc2: Plan,
                  root: nat, lo: nat, v: nat, hi: nat, free: bool, tags: nat -> Tag)
    requires lo <= v < hi && PlanOk(mem2, loc2) && |mem2| == |mem1|
    requires Unmapped(mem0, loc0, mem1, loc1, root, lo, v, free, tags)
    requires free ==> Releasable(mem1, loc1, root, v, hi, tags)
    requires loc2 == if free && IsValid(Leaf(mem1, loc1, root, v)) then loc1 - {tags(v)} else loc1
    requires LeafSet(mem1, loc1, mem2, loc2, root, v, 0)
    requires forall t | t in loc2 && !(t.Table? && t.root == root) :: mem2[loc2[t]] == mem1[loc1[t]]
    ensures Unmapped(mem0, loc0, mem2, loc2, root, lo, v + 1, free, tags)
    ensures free ==> Releasable(mem2, loc2, root, v + 1, hi, tags)
    ensures Table(root, 0, 0) in loc1 ==> Table(root, 0, 0) in loc2
  {
    hide PlanOk, Leaf, PtePpn;
    assert Leaf(mem1, loc1, root, v) == Leaf(mem0, loc0, root, v);
    if free {
      var gone := Released(mem0, loc0, root, lo, v, tags);
      var gone' := Released(mem0, loc0, root, lo, v + 1, tags);
      assert gone' == gone + (if IsValid(Leaf(mem1, loc1, root, v)) then {tags(v)} else {});
    }
  }

  lemma ValidAfterNew(ppn: nat, flags: nat)
    requires flags < 256 && flags % 2 == 1
    ensures IsValid(NewPte(ppn, flags))
  {
    var shifted := (ppn * 1024) % WORD_END;
    var k := ppn * 1024 / WORD_END;
    assert shifted == 256 * (4 * ppn - k * (WORD_END / 256));
    assert shifted % 256 == 0;
  }
}
