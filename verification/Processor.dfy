/**
  The processor's own page walk: 4-level paging with 4 KB pages as in section 4.5 of the Intel SDM,
  Volume 3A, for a supervisor's data access that may write. It knows nothing of the code that builds
  the tables.
 */
module Processor {
  import opened Words
  import opened PageTable

  /** A physical address, a page fault, or a page larger than 4 KB. */
  datatype Access = Reached(address: nat) | Fault | LargePage

  /** Bit 0: present. */
  predicate Present(entry: nat) {
    entry % 2 == 1
  }

  /** Bit 1: writes are allowed. */
  predicate Writable(entry: nat) {
    entry / 2 % 2 == 1
  }

  /** Bit 7: the entry of a PDPT or page directory maps a page itself. */
  predicate Large(entry: nat) {
    entry / 0x80 % 2 == 1
  }

  /** Bits 51 to 12. */
  function Base(entry: nat): nat {
    entry / 0x1000 % 0x100_0000_0000 * 0x1000
  }

  /** The eight bytes at a, least significant first; zero where nothing is backed. */
  function Quad(m: Memory, a: nat): nat {
    if Backed(m, a, 8) then FromLe(Slice(m, a, 8)) else 0
  }

  /** CR3, then the PML4E by bits 47 to 39, the PDPTE by 38 to 30, the PDE by 29 to 21 and the PTE by 20 to 12. */
  function ProcessorWalk(m: Memory, cr3: nat, la: nat): Access {
    var pml4e := Quad(m, Base(cr3) + 8 * (la / 0x80_0000_0000 % 0x200));
    if !Present(pml4e) || !Writable(pml4e) then Fault
    else
      var pdpte := Quad(m, Base(pml4e) + 8 * (la / 0x4000_0000 % 0x200));
      if !Present(pdpte) || !Writable(pdpte) then Fault
      else if Large(pdpte) then LargePage
      else
        var pde := Quad(m, Base(pdpte) + 8 * (la / 0x20_0000 % 0x200));
        if !Present(pde) || !Writable(pde) then Fault
        else if Large(pde) then LargePage
        else
          var pte := Quad(m, Base(pde) + 8 * (la / 0x1000 % 0x200));
          if !Present(pte) || !Writable(pte) then Fault else Reached(Base(pte) + la % 0x1000)
  }

  /** What the processor should find: the page map's translation, and a fault everywhere else. */
  function Expected(pages: map<nat, nat>, la: nat): Access {
    if Vpn(la) in pages then Reached(Translate(pages, la)) else Fault
  }

  ghost predicate ProcessorSees(m: Memory, cr3: nat, pages: map<nat, nat>) {
    forall la: nat :: ProcessorWalk(m, cr3, la) == Expected(pages, la)
  }

  // ---- the tables as the processor reads them ----

  /** Every entry on a page's path: the next table's or the page's address with bits 0 and 1 set, or zero. */
  lemma {:induction false} EntryOnPath(m: Memory, tree: Tree, v: nat, level: nat)
    requires Radix(m, tree) && 1 <= level <= 4 && NodeAt(v, level) in tree
    ensures var e := Quad(m, 0x1000 * tree[NodeAt(v, level)] + 8 * Index(v, level));
            e == if NodeAt(v, level - 1) in tree then 0x1000 * tree[NodeAt(v, level - 1)] + 3 else 0
    ensures level > 1 && NodeAt(v, level - 1) in tree ==> tree[NodeAt(v, level - 1)] < 0x100_0000_0000
  {
    hide FromLe, Slice, Above, OwnPages;
    var n, i := NodeAt(v, level), Index(v, level);
    assert TableOk(m, tree, n);
    ChildOfNodeAt(v, level);
    assert Entry(m, tree[n], i) == EntryOf(tree, NodeAt(v, level - 1));
    if level > 1 && NodeAt(v, level - 1) in tree {
      assert TableOk(m, tree, NodeAt(v, level - 1));
    }
  }

  /** An entry made of a page address and 3. */
  lemma Flags(t: nat)
    ensures var e := 0x1000 * t + 3;
            Present(e) && Writable(e) && !Large(e) && Base(e) == 0x1000 * (t % 0x100_0000_0000)
    ensures t < 0x100_0000_0000 ==> t % 0x100_0000_0000 == t
    ensures Base(0x1000 * t) == 0x1000 * (t % 0x100_0000_0000) && !Present(0)
  {
    Remainder(0x1000 * t + 3, 0x1000, t, 3);
    Remainder(0x1000 * t + 3, 2, 0x800 * t + 1, 1);
    Remainder(0x800 * t + 1, 2, 0x400 * t, 1);
    Remainder(0x1000 * t + 3, 0x80, 0x20 * t, 3);
    Remainder(0x20 * t, 2, 0x10 * t, 0);
    Remainder(0x1000 * t, 0x1000, t, 0);
  }

  /** The bit fields of an address are the entries of its page number. */
  lemma Fields(la: nat)
    ensures var v := Vpn(la);
            && la / 0x80_0000_0000 % 0x200 == Index(v, 4) && la / 0x4000_0000 % 0x200 == Index(v, 3)
            && la / 0x20_0000 % 0x200 == Index(v, 2) && la / 0x1000 % 0x200 == Index(v, 1)
  {
    hide Index, Vpn;
    DecodeIsIndex(la);
  }

  /** A page whose table is missing is not mapped. */
  lemma {:induction false} MissingTable(m: Memory, tree: Tree, v: nat, level: nat)
    requires Radix(m, tree) && level <= 3 && NodeAt(v, level) !in tree
    ensures v !in PagesOf(tree)
  {
    hide Radix, Shape, NodeAt;
    PageNode(v);
    if NodeAt(v, 0) in tree { PathInTree(m, tree, v); }
  }

  lemma {:induction false} HasRootTable(m: Memory, tree: Tree)
    requires Radix(m, tree)
    ensures ROOT in tree && tree[ROOT] < 0x100_0000_0000
  {
    hide OwnPages;
    assert TableOk(m, tree, ROOT);
  }

  /**
    On the tables in memory the processor finds exactly the page map: every mapped page, writable and at
    its frame, and a page fault for every other address.
   */
  lemma {:induction false} ProcessorFindsPages(m: Memory, tree: Tree, la: nat)
    requires Radix(m, tree)
    ensures ROOT in tree && ProcessorWalk(m, 0x1000 * tree[ROOT], la) == Expected(PagesOf(tree), la)
  {
    hide Radix, Quad, Base, Present, Writable, Large, Index, Vpn, Shape, NodeAt;
    var v := Vpn(la);
    HasRootTable(m, tree);
    Flags(0);
    Flags(tree[ROOT]);
    Fields(la);
    assert NodeAt(v, 4) == ROOT by { VpnTop(la); }
    EntryOnPath(m, tree, v, 4);
    PageNode(v);
    var l := PathDown(m, tree, v);
    if l > 0 { MissingTable(m, tree, v, l - 1); }
    Leads(m, tree, v, 3, l);
    Leads(m, tree, v, 2, l);
    Leads(m, tree, v, 1, l);
    Leads(m, tree, v, 0, l);
  }

  /** The processor accepts the entry that leads to level k. */
  lemma Leads(m: Memory, tree: Tree, v: nat, k: nat, l: nat)
    requires k <= 3 && forall j :: l <= j <= 4 ==> NodeAt(v, j) in tree
    requires forall j :: l <= j < 4 ==> EntryTo(m, tree, v, j)
    ensures l <= k ==>
      var e := Quad(m, 0x1000 * tree[NodeAt(v, k + 1)] + 8 * Index(v, k + 1));
      && Present(e) && Writable(e) && !Large(e) && Base(e) == 0x1000 * (tree[NodeAt(v, k)] % 0x100_0000_0000)
      && (k > 0 ==> Base(e) == 0x1000 * tree[NodeAt(v, k)])
  {
    hide Quad, Base, Present, Writable, Large, Index, NodeAt;
    if l <= k {
      assert EntryTo(m, tree, v, k);
      Flags(tree[NodeAt(v, k)]);
    }
  }

  lemma PageNode(v: nat)
    ensures NodeAt(v, 0) == Node(0, v)
  {
  }

  lemma VpnTop(la: nat)
    ensures NodeAt(Vpn(la), 4) == ROOT
  {
    hide Above;
    AboveFour(Vpn(la));
  }

  /** How far down the path of page v the tables go, and what the entries on the way are. */
  lemma {:induction false} PathDown(m: Memory, tree: Tree, v: nat) returns (l: nat)
    requires Radix(m, tree) && NodeAt(v, 4) in tree
    ensures l <= 4 && (l > 0 ==> NodeAt(v, l - 1) !in tree)
    ensures forall k :: l <= k <= 4 ==> NodeAt(v, k) in tree
    ensures forall k :: l <= k < 4 ==> EntryTo(m, tree, v, k)
    ensures l > 0 ==> Quad(m, 0x1000 * tree[NodeAt(v, l)] + 8 * Index(v, l)) == 0
  {
    hide Radix, Quad, Index, NodeAt;
    l := 4;
    while l > 0 && NodeAt(v, l - 1) in tree
      invariant l <= 4
      invariant forall k :: l <= k <= 4 ==> NodeAt(v, k) in tree
      invariant forall k :: l <= k < 4 ==> EntryTo(m, tree, v, k)
    {
      EntryOnPath(m, tree, v, l);
      Flags(tree[NodeAt(v, l - 1)]);
      l := l - 1;
    }
    if l > 0 { EntryOnPath(m, tree, v, l); }
  }

  /** The entry that leads to level k. */
  ghost predicate EntryTo(m: Memory, tree: Tree, v: nat, k: nat)
    requires NodeAt(v, k) in tree && NodeAt(v, k + 1) in tree
  {
    && Quad(m, 0x1000 * tree[NodeAt(v, k + 1)] + 8 * Index(v, k + 1)) == 0x1000 * tree[NodeAt(v, k)] + 3
    && (k > 0 ==> tree[NodeAt(v, k)] < 0x100_0000_0000)
  }
}
