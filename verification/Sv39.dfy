/** Sv39 page tables of os/src/address.c as they lie in physical memory, and the ghost account
    of which frame serves what purpose. */
module Sv39 {
  import opened Common

  const ENTRIES: nat := 512
  const PPN_END: nat := 0x1000_0000_0000
  const VPN_END: nat := 0x800_0000
  const PTE_V: nat := 1

  type Frame = seq<Word>
  /** Physical memory, one sequence of 512 words for each frame. */
  type Memory = seq<Frame>

  // ---------------------------------------------------------------- page-table entries

  /** PageTableEntry_new: (ppn << 10) | flags on 64-bit words; the low ten bits of the shifted
      number are clear, so the or is a sum. */
  function NewPte(ppn: nat, flags: nat): Word
    requires flags < 256
  {
    (ppn * 1024) % WORD_END + flags
  }

  function PtePpn(e: Word): nat { (e / 1024) % PPN_END }
  function PteFlags(e: Word): (flags: nat)
    ensures flags < 256
  {
    e % 256
  }
  predicate IsValid(e: Word) { PteFlags(e) % 2 == 1 }
  /** free_page_table's test for an entry that points to a lower table: V set, R, W and X clear. */
  predicate IsBranch(e: Word) { IsValid(e) && (e / 2) % 8 == 0 }

  /** PTE_V | flags. */
  function WithValid(flags: nat): (r: nat)
    requires flags < 256
    ensures r < 256
  {
    if flags % 2 == 1 then flags else flags + 1
  }

  lemma PteRoundTrip(ppn: nat, flags: nat)
    requires ppn < PPN_END && flags < 256
    ensures PtePpn(NewPte(ppn, flags)) == ppn && PteFlags(NewPte(ppn, flags)) == flags
    ensures NewPte(ppn, PTE_V) != 0 && IsBranch(NewPte(ppn, PTE_V))
  {
    SmallProduct(ppn);
    var e := NewPte(ppn, flags);
    assert e == ppn * 1024 + flags;
    assert e / 1024 == ppn;
    assert e == 256 * (4 * ppn) + flags;
    LowByte(4 * ppn, flags);
    var b := NewPte(ppn, PTE_V);
    assert b == ppn * 1024 + 1;
    LowByte(4 * ppn, 1);
    assert b / 2 == 8 * (64 * ppn);
  }

  lemma SmallProduct(ppn: nat)
    requires ppn < PPN_END
    ensures (ppn * 1024) % WORD_END == ppn * 1024
  {
  }

  lemma LowByte(k: nat, low: nat)
    requires low < 256
    ensures (256 * k + low) % 256 == low
  {
  }

  // ---------------------------------------------------------------- walking

  /** get_page_offset: the table index used at each of the three levels. */
  function Index(vpn: nat, level: nat): (i: nat)
    ensures i < ENTRIES
  {
    if level == 0 then vpn / 262144 % 512 else if level == 1 then vpn / 512 % 512 else vpn % 512
  }

  /** Address of a page-table entry: a frame and an index into it. */
  datatype Cell = Cell(frame: nat, index: nat)

  predicate Uniform(mem: Memory) { forall f | 0 <= f < |mem| :: |mem[f]| == ENTRIES }

  /** The reference walk: from `frame`, a table of the given level, to the entry of a page. */
  function Walk(mem: Memory, frame: nat, vpn: nat, level: nat): Option<Cell>
    requires Uniform(mem) && level <= 2
    decreases 2 - level
  {
    if frame >= |mem| || !IsValid(mem[frame][Index(vpn, level)]) then None
    else if level == 2 then Some(Cell(frame, Index(vpn, 2)))
    else Walk(mem, PtePpn(mem[frame][Index(vpn, level)]), vpn, level + 1)
  }

  // ---------------------------------------------------------------- who uses which frame

  /** The purpose of an allocated frame. A table of level l is reached from its root by the
      l leading nine-bit digits `prefix` of a page number. */
  datatype Tag =
    | Table(root: nat, level: nat, prefix: nat)
    | Page(root: nat, vpn: nat)
    | Trap(slot: nat)
    | Stack(slot: nat)
    | Spare                  // a frame taken just before the kernel stops

  /** Where each purpose is served. */
  type Plan = map<Tag, nat>

  function Child(t: Tag, i: nat): Tag
    requires t.Table?
  {
    Table(t.root, t.level + 1, t.prefix * 512 + i)
  }

  function Parent(t: Tag): Tag
    requires t.Table? && t.level > 0
  {
    Table(t.root, t.level - 1, t.prefix / 512)
  }

  /** One frame never serves two purposes. */
  ghost predicate Injective(loc: Plan) {
    forall a, b | a in loc && b in loc && loc[a] == loc[b] :: a == b
  }

  ghost predicate Unused(loc: Plan, f: nat) { forall t | t in loc :: loc[t] != f }

  ghost predicate TagOk(loc: Plan, t: Tag)
    requires t in loc
  {
    t.Table? ==>
      && t.level <= 2
      && t.prefix < (if t.level == 0 then 1 else if t.level == 1 then 512 else 262144)
      && (t.level == 0 ==> loc[t] == t.root)
      && (t.level > 0 ==> Parent(t) in loc)
  }

  /** An upper-level entry points to the table below it exactly when there is one. */
  ghost predicate BranchOk(mem: Memory, loc: Plan, t: Tag, i: nat)
    requires t in loc && t.Table? && loc[t] < |mem| && Uniform(mem) && i < ENTRIES
  {
    mem[loc[t]][i] == if Child(t, i) in loc then NewPte(loc[Child(t, i)], PTE_V) else 0
  }

  /** A last-level entry is clear or valid. */
  ghost predicate LeafOk(mem: Memory, loc: Plan, t: Tag, i: nat)
    requires t in loc && t.Table? && loc[t] < |mem| && Uniform(mem) && i < ENTRIES
  {
    IsValid(mem[loc[t]][i]) || mem[loc[t]][i] == 0
  }

  ghost predicate PlanOk(mem: Memory, loc: Plan) {
    && Uniform(mem) && |mem| <= PPN_END
    && Injective(loc)
    && (forall t | t in loc :: loc[t] < |mem| && TagOk(loc, t))
  }

  /** Memory holds the page tables of the plan, except that entry `i` of table `hole` may be off. */
  ghost predicate ShapeBut(mem: Memory, loc: Plan, hole: Tag, i: nat) {
    && PlanOk(mem, loc)
    && (forall t, j | t in loc && t.Table? && t.level < 2 && 0 <= j < ENTRIES && (t != hole || j != i) ::
          BranchOk(mem, loc, t, j))
    && (forall t, j | t in loc && t.Table? && t.level == 2 && 0 <= j < ENTRIES :: LeafOk(mem, loc, t, j))
  }

  /** Memory holds exactly the page tables of the plan. */
  ghost predicate Shape(mem: Memory, loc: Plan)
    ensures Shape(mem, loc) ==> PlanOk(mem, loc)
  {
    && PlanOk(mem, loc)
    && (forall t, j | t in loc && t.Table? && t.level < 2 && 0 <= j < ENTRIES :: BranchOk(mem, loc, t, j))
    && (forall t, j | t in loc && t.Table? && t.level == 2 && 0 <= j < ENTRIES :: LeafOk(mem, loc, t, j))
  }

  /** What a page table maps: the entry of a page, or 0. */
  ghost function Leaf(mem: Memory, loc: Plan, root: nat, vpn: nat): Word
    requires PlanOk(mem, loc)
  {
    var t := Table(root, 2, vpn / 512);
    if t in loc then mem[loc[t]][vpn % 512] else 0
  }

  function Prefix(vpn: nat, level: nat): nat {
    if level == 0 then 0 else if level == 1 then vpn / 262144 else vpn / 512
  }

  lemma NextDigit(vpn: nat, level: nat)
    requires vpn < VPN_END && level < 2
    ensures Prefix(vpn, level) * 512 + Index(vpn, level) == Prefix(vpn, level + 1)
  {
  }

  /** The walk through memory finds the planned tables. */
  lemma WalkStep(mem: Memory, loc: Plan, root: nat, vpn: nat, level: nat)
    requires Shape(mem, loc) && vpn < VPN_END && level < 2
    requires Table(root, level, Prefix(vpn, level)) in loc
    ensures var t := Table(root, level, Prefix(vpn, level));
      var c := Table(root, level + 1, Prefix(vpn, level + 1));
      var e := mem[loc[t]][Index(vpn, level)];
      && Child(t, Index(vpn, level)) == c
      && (IsValid(e) <==> c in loc)
      && (c !in loc ==> e == 0)
      && (c in loc ==> e == NewPte(loc[c], PTE_V) && PtePpn(e) == loc[c] && IsBranch(e))
  {
    var t := Table(root, level, Prefix(vpn, level));
    NextDigit(vpn, level);
    hide Prefix, Index;
    var c := Child(t, Index(vpn, level));
    assert BranchOk(mem, loc, t, Index(vpn, level));
    if c in loc {
      PteRoundTrip(loc[c], PTE_V);
    }
  }

  /** No table of the path is missing above one that is there. */
  lemma PathAbove(mem: Memory, loc: Plan, root: nat, vpn: nat)
    requires PlanOk(mem, loc) && Table(root, 2, vpn / 512) in loc
    ensures Table(root, 1, vpn / 262144) in loc && Table(root, 0, 0) in loc
  {
    assert TagOk(loc, Table(root, 2, vpn / 512));
    assert Parent(Table(root, 2, vpn / 512)) == Table(root, 1, vpn / 262144);
    assert TagOk(loc, Table(root, 1, vpn / 262144));
    assert Parent(Table(root, 1, vpn / 262144)) == Table(root, 0, vpn / 262144 / 512);
    assert TagOk(loc, Table(root, 0, vpn / 262144 / 512));
  }

  /** Refinement: the three-level walk finds an entry exactly for the mapped pages, and it is
      the one that holds the mapping. */
  lemma WalkIsLeaf(mem: Memory, loc: Plan, root: nat, vpn: nat)
    requires Shape(mem, loc) && vpn < VPN_END && Table(root, 0, 0) in loc
    ensures Walk(mem, root, vpn, 0).Some? <==> IsValid(Leaf(mem, loc, root, vpn))
    ensures Walk(mem, root, vpn, 0).Some? ==>
      var c := Walk(mem, root, vpn, 0).value;
      && c.frame < |mem| && c.index < ENTRIES && mem[c.frame][c.index] == Leaf(mem, loc, root, vpn)
      && Table(root, 2, vpn / 512) in loc && c == Cell(loc[Table(root, 2, vpn / 512)], vpn % 512)
  {
    assert TagOk(loc, Table(root, 0, 0));
    WalkStep(mem, loc, root, vpn, 0);
    if Table(root, 1, vpn / 262144) in loc {
      WalkStep(mem, loc, root, vpn, 1);
    }
    if Table(root, 2, vpn / 512) in loc {
      PathAbove(mem, loc, root, vpn);
    }
  }

  lemma ParentOfChild(t: Tag, i: nat)
    requires t.Table? && i < ENTRIES
    ensures Parent(Child(t, i)) == t && Child(t, i).prefix % 512 == i
  {
  }

  lemma ChildOfParent(t: Tag)
    requires t.Table? && t.level > 0
    ensures Child(Parent(t), t.prefix % 512) == t
  {
  }

  /** Below a table that is not there, there is none. */
  lemma NoOrphan(mem: Memory, loc: Plan, t: Tag, i: nat)
    requires PlanOk(mem, loc) && t.Table? && t !in loc && i < ENTRIES
    ensures Child(t, i) !in loc
  {
    assert Parent(Child(t, i)) == t;
  }

  // ---------------------------------------------------------------- single writes

  ghost function Poke(mem: Memory, f: nat, i: nat, w: Word): Memory
    requires f < |mem| && i < |mem[f]|
  {
    var frame: Frame := mem[f][i := w];
    mem[f := frame]
  }

  function ZeroFrame(): (z: Frame)
    ensures |z| == ENTRIES && forall i | 0 <= i < ENTRIES :: z[i] == 0
  {
    seq(512, _ => 0)
  }

  /** The outcome of hanging a cleared, unused frame f below an empty upper-level entry. */
  ghost predicate CanGrow(mem: Memory, loc: Plan, t: Tag, i: nat, f: nat) {
    && Shape(mem, loc) && t in loc && t.Table? && t.level < 2 && i < ENTRIES
    && Child(t, i) !in loc && f < |mem| && Unused(loc, f)
  }

  ghost function Grown(mem: Memory, loc: Plan, t: Tag, i: nat, f: nat): (mem': Memory)
    requires CanGrow(mem, loc, t, i, f)
    ensures |mem'| == |mem| && Uniform(mem')
  {
    Poke(mem[f := ZeroFrame()], loc[t], i, NewPte(f, PTE_V))
  }

  lemma GrowPlan(mem: Memory, loc: Plan, t: Tag, i: nat, f: nat)
    requires CanGrow(mem, loc, t, i, f)
    ensures PlanOk(Grown(mem, loc, t, i, f), loc[Child(t, i) := f])
  {
    var c := Child(t, i);
    var loc' := loc[c := f];
    assert TagOk(loc, t);
    assert Parent(c) == t;
    forall u | u in loc'
      ensures loc'[u] < |mem| && TagOk(loc', u)
    {
      if u != c { assert TagOk(loc, u); }
    }
  }

  lemma GrowBranch(mem: Memory, loc: Plan, t: Tag, i: nat, f: nat, u: Tag, j: nat)
    requires CanGrow(mem, loc, t, i, f)
    requires u in loc[Child(t, i) := f] && u.Table? && u.level < 2 && j < ENTRIES
    ensures PlanOk(Grown(mem, loc, t, i, f), loc[Child(t, i) := f])
    ensures BranchOk(Grown(mem, loc, t, i, f), loc[Child(t, i) := f], u, j)
  {
    GrowPlan(mem, loc, t, i, f);
    var c := Child(t, i);
    if u == c {
      NoOrphan(mem, loc, c, j);
    } else {
      assert BranchOk(mem, loc, u, j);
      assert Child(u, j) == c ==> u == t && j == i;
    }
  }

  lemma GrowTable(mem: Memory, loc: Plan, t: Tag, i: nat, f: nat)
    requires CanGrow(mem, loc, t, i, f)
    ensures var mem' := Grown(mem, loc, t, i, f);
      var loc' := loc[Child(t, i) := f];
      && Shape(mem', loc')
      && (forall r: nat, v: nat :: Leaf(mem', loc', r, v) == Leaf(mem, loc, r, v))
      && (forall u | u in loc && u != t :: mem'[loc[u]] == mem[loc[u]])
  {
    var mem' := Grown(mem, loc, t, i, f);
    var c := Child(t, i);
    var loc' := loc[c := f];
    GrowPlan(mem, loc, t, i, f);
    forall u, j | u in loc' && u.Table? && u.level < 2 && 0 <= j < ENTRIES
      ensures BranchOk(mem', loc', u, j)
    {
      GrowBranch(mem, loc, t, i, f, u, j);
    }
    forall u, j | u in loc' && u.Table? && u.level == 2 && 0 <= j < ENTRIES
      ensures LeafOk(mem', loc', u, j)
    {
      if u != c { assert LeafOk(mem, loc, u, j); }
    }
  }

  /** Writing a last-level entry changes the mapping of that page and of no other. */
  lemma WriteLeaf(mem: Memory, loc: Plan, root: nat, vpn: nat, w: Word)
    requires Shape(mem, loc) && Table(root, 2, vpn / 512) in loc && (IsValid(w) || w == 0)
    ensures var mem' := Poke(mem, loc[Table(root, 2, vpn / 512)], vpn % 512, w);
      && Shape(mem', loc)
      && (forall r: nat, v: nat :: Leaf(mem', loc, r, v) == if r == root && v == vpn then w else Leaf(mem, loc, r, v))
      && (forall u | u in loc && u != Table(root, 2, vpn / 512) :: mem'[loc[u]] == mem[loc[u]])
  {
    var t := Table(root, 2, vpn / 512);
    var mem' := Poke(mem, loc[t], vpn % 512, w);
    forall u, j | u in loc && u.Table? && u.level < 2 && 0 <= j < ENTRIES
      ensures BranchOk(mem', loc, u, j)
    {
      assert BranchOk(mem, loc, u, j);
    }
    forall u, j | u in loc && u.Table? && u.level == 2 && 0 <= j < ENTRIES
      ensures LeafOk(mem', loc, u, j)
    {
      assert LeafOk(mem, loc, u, j);
    }
    forall r: nat, v: nat
      ensures Leaf(mem', loc, r, v) == if r == root && v == vpn then w else Leaf(mem, loc, r, v)
    {
      if r == root && v / 512 == vpn / 512 && v != vpn {
        assert v % 512 != vpn % 512;
      }
    }
  }

  /** Writing a frame that holds no table leaves every page table as it was. */
  lemma WriteData(mem: Memory, loc: Plan, f: nat, data: Frame)
    requires Shape(mem, loc) && f < |mem| && |data| == ENTRIES
    requires forall t | t in loc && t.Table? :: loc[t] != f
    ensures Shape(mem[f := data], loc)
    ensures forall r: nat, v: nat :: Leaf(mem[f := data], loc, r, v) == Leaf(mem, loc, r, v)
  {
    var mem' := mem[f := data];
    forall u, j | u in loc && u.Table? && u.level < 2 && 0 <= j < ENTRIES
      ensures BranchOk(mem', loc, u, j)
    {
      assert BranchOk(mem, loc, u, j);
    }
    forall u, j | u in loc && u.Table? && u.level == 2 && 0 <= j < ENTRIES
      ensures LeafOk(mem', loc, u, j)
    {
      assert LeafOk(mem, loc, u, j);
    }
  }

  /** Giving an unused frame a purpose other than a table leaves every page table as it was. */
  lemma AddOther(mem: Memory, loc: Plan, t: Tag, f: nat)
    requires Shape(mem, loc) && t !in loc && !t.Table? && f < |mem| && Unused(loc, f)
    ensures Shape(mem, loc[t := f])
    ensures forall r: nat, v: nat :: Leaf(mem, loc[t := f], r, v) == Leaf(mem, loc, r, v)
  {
    var loc' := loc[t := f];
    forall u | u in loc'
      ensures loc'[u] < |mem| && TagOk(loc', u)
    {
      if u != t { assert TagOk(loc, u); }
    }
    forall u, j | u in loc' && u.Table? && u.level < 2 && 0 <= j < ENTRIES
      ensures BranchOk(mem, loc', u, j)
    {
      assert BranchOk(mem, loc, u, j);
    }
    forall u, j | u in loc' && u.Table? && u.level == 2 && 0 <= j < ENTRIES
      ensures LeafOk(mem, loc', u, j)
    {
      assert LeafOk(mem, loc, u, j);
    }
  }

  /** A cleared, unused frame as the root of a new address space. */
  lemma AddRoot(mem: Memory, loc: Plan, f: nat)
    requires Shape(mem, loc) && f < |mem| && Unused(loc, f) && mem[f] == ZeroFrame()
    requires Table(f, 0, 0) !in loc
    ensures Shape(mem, loc[Table(f, 0, 0) := f])
    ensures forall r: nat, v: nat :: Leaf(mem, loc[Table(f, 0, 0) := f], r, v) == Leaf(mem, loc, r, v)
  {
    var t := Table(f, 0, 0);
    var loc' := loc[t := f];
    forall u | u in loc'
      ensures loc'[u] < |mem| && TagOk(loc', u)
    {
      if u != t { assert TagOk(loc, u); }
    }
    forall u, j | u in loc' && u.Table? && u.level < 2 && 0 <= j < ENTRIES
      ensures BranchOk(mem, loc', u, j)
    {
      if u == t {
        NoOrphan(mem, loc, t, j);
      } else {
        assert BranchOk(mem, loc, u, j);
      }
    }
    forall u, j | u in loc' && u.Table? && u.level == 2 && 0 <= j < ENTRIES
      ensures LeafOk(mem, loc', u, j)
    {
      assert LeafOk(mem, loc, u, j);
    }
  }

  /** Dropping a purpose other than a table leaves every page table as it was. */
  lemma DropOther(mem: Memory, loc: Plan, t: Tag)
    requires Shape(mem, loc) && !t.Table?
    ensures Shape(mem, loc - {t})
    ensures forall r: nat, v: nat :: Leaf(mem, loc - {t}, r, v) == Leaf(mem, loc, r, v)
  {
    var loc' := loc - {t};
    forall u | u in loc'
      ensures loc'[u] < |mem| && TagOk(loc', u)
    {
      assert TagOk(loc, u);
    }
    forall u, j | u in loc' && u.Table? && u.level < 2 && 0 <= j < ENTRIES
      ensures BranchOk(mem, loc', u, j)
    {
      assert BranchOk(mem, loc, u, j);
    }
    forall u, j | u in loc' && u.Table? && u.level == 2 && 0 <= j < ENTRIES
      ensures LeafOk(mem, loc', u, j)
    {
      assert LeafOk(mem, loc, u, j);
    }
  }

  // ---------------------------------------------------------------- taking tables away

  function Up(prefix: nat, k: nat): nat {
    if k == 0 then prefix else if k == 1 then prefix / 512 else prefix / 262144
  }

  /** u is t or a table below t. */
  predicate InSubtree(u: Tag, t: Tag) {
    && u.Table? && t.Table? && u.root == t.root && t.level <= u.level <= 2
    && Up(u.prefix, u.level - t.level) == t.prefix
  }

  /** u lies below one of the first i entries of t. */
  predicate BelowFirst(u: Tag, t: Tag, i: nat) {
    InSubtree(u, t) && u.level > t.level && Up(u.prefix, u.level - t.level - 1) % 512 < i
  }

  ghost function Prune(loc: Plan, t: Tag): Plan {
    map u | u in loc && !InSubtree(u, t) :: loc[u]
  }

  ghost function PruneFirst(loc: Plan, t: Tag, i: nat): Plan {
    map u | u in loc && !BelowFirst(u, t, i) :: loc[u]
  }

  lemma SubtreeSplit(u: Tag, t: Tag, i: nat)
    requires t.Table? && t.level < 2 && i < ENTRIES
    ensures BelowFirst(u, t, i + 1) <==> BelowFirst(u, t, i) || InSubtree(u, Child(t, i))
    ensures !InSubtree(t, Child(t, i))
  {
  }

  lemma SubtreeEnd(u: Tag, t: Tag)
    requires t.Table? && t.level <= 2
    ensures InSubtree(u, t) <==> BelowFirst(u, t, ENTRIES) || u == t
  {
  }

  lemma PruneStep(loc: Plan, t: Tag, i: nat)
    requires t.Table? && t.level < 2 && i < ENTRIES
    ensures PruneFirst(loc, t, i + 1) == Prune(PruneFirst(loc, t, i), Child(t, i))
  {
    forall u { SubtreeSplit(u, t, i); }
  }

  lemma PruneAll(loc: Plan, t: Tag)
    requires t.Table? && t.level <= 2
    ensures Prune(loc, t) == PruneFirst(loc, t, ENTRIES) - {t}
  {
    forall u { SubtreeEnd(u, t); }
  }

  /** No last-level entry below t is in use. */
  ghost predicate AllClear(mem: Memory, loc: Plan, t: Tag)
    requires PlanOk(mem, loc)
  {
    forall u, j | u in loc && InSubtree(u, t) && u.level == 2 && 0 <= j < ENTRIES :: mem[loc[u]][j] == 0
  }

  /** Removing a table that has nothing below it leaves at most its parent's entry dangling. */
  lemma DropTable(mem: Memory, loc: Plan, t: Tag)
    requires Shape(mem, loc) && t in loc && t.Table?
    requires forall j | 0 <= j < ENTRIES :: Child(t, j) !in loc
    ensures t.level == 0 ==> Shape(mem, loc - {t})
    ensures t.level > 0 ==> ShapeBut(mem, loc - {t}, Parent(t), t.prefix % 512)
  {
    var loc' := loc - {t};
    assert TagOk(loc, t);
    forall u | u in loc'
      ensures loc'[u] < |mem| && TagOk(loc', u)
    {
      assert TagOk(loc, u);
      if u.Table? && u.level > 0 { ChildOfParent(u); }
    }
    forall u, j | u in loc' && u.Table? && u.level < 2 && 0 <= j < ENTRIES
                  && !(t.level > 0 && u == Parent(t) && j == t.prefix % 512)
      ensures BranchOk(mem, loc', u, j)
    {
      assert BranchOk(mem, loc, u, j);
      ParentOfChild(u, j);
    }
    forall u, j | u in loc' && u.Table? && u.level == 2 && 0 <= j < ENTRIES
      ensures LeafOk(mem, loc', u, j)
    {
      assert LeafOk(mem, loc, u, j);
    }
  }

  /** Clearing the dangling entry repairs the page tables. */
  lemma ClearDangling(mem: Memory, loc: Plan, t: Tag, i: nat)
    requires ShapeBut(mem, loc, t, i) && t in loc && t.Table? && t.level < 2 && i < ENTRIES
    requires Child(t, i) !in loc
    ensures Shape(Poke(mem, loc[t], i, 0), loc)
    ensures forall u | u in loc && u != t :: Poke(mem, loc[t], i, 0)[loc[u]] == mem[loc[u]]
  {
    var mem' := Poke(mem, loc[t], i, 0);
    forall u, j | u in loc && u.Table? && u.level < 2 && 0 <= j < ENTRIES
      ensures BranchOk(mem', loc, u, j)
    {
      if u != t || j != i { assert BranchOk(mem, loc, u, j); }
    }
    forall u, j | u in loc && u.Table? && u.level == 2 && 0 <= j < ENTRIES
      ensures LeafOk(mem', loc, u, j)
    {
      assert LeafOk(mem, loc, u, j);
    }
  }
}
