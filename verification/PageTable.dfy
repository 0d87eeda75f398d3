/**
  The four-level page table as a value: which table pages exist, what their
  entries hold in guest memory, and what the walk reads out of them.

  Levels are numbered as in section 4.5 of the Intel SDM, Volume 3A: level 4 is
  the PML4, level 1 a page table, and level 0 a mapped 4 KB page.
 */
module PageTable {
  import opened Words

  /** The part of the table tree that serves all page numbers v with Above(v, level) == prefix. */
  datatype Node = Node(level: nat, prefix: nat)

  /** Physical page number of every table (levels 1 to 4) and target of every mapped page (level 0). */
  type Tree = map<Node, nat>

  const ROOT: Node := Node(4, 0)

  // ---- address arithmetic ----

  datatype VirtualAddress = VirtualAddress(pml4Idx: nat, pdptIdx: nat, pdIdx: nat, ptIdx: nat, offset: nat)

  function DecodeGva(gva: nat): VirtualAddress {
    VirtualAddress(
      gva / 0x80_0000_0000 % 0x200 * 8,
      gva / 0x4000_0000 % 0x200 * 8,
      gva / 0x20_0000 % 0x200 * 8,
      gva / 0x1000 % 0x200 * 8,
      gva % 0x1000)
  }

  /** The 36-bit virtual page number. */
  function Vpn(gva: nat): nat {
    gva / 0x1000 % 0x10_0000_0000
  }

  /** Bits 12 to 51 of an entry. */
  function Frame(entry: nat): nat {
    entry / 0x1000 % 0x100_0000_0000 * 0x1000
  }

  function Above(v: nat, level: nat): nat {
    if level == 0 then v else Above(v, level - 1) / 512
  }

  /** The entry that page v uses in its table at the given level. */
  function Index(v: nat, level: nat): nat
    requires level >= 1
  {
    Above(v, level - 1) % 512
  }

  function NodeAt(v: nat, level: nat): Node {
    Node(level, Above(v, level))
  }

  function Parent(n: Node): Node {
    Node(n.level + 1, n.prefix / 512)
  }

  function Child(n: Node, i: nat): Node
    requires n.level >= 1
  {
    Node(n.level - 1, n.prefix * 512 + i)
  }

  lemma ChildOfNodeAt(v: nat, level: nat)
    requires level >= 1
    ensures Index(v, level) < 512
    ensures Child(NodeAt(v, level), Index(v, level)) == NodeAt(v, level - 1)
    ensures Parent(NodeAt(v, level - 1)) == NodeAt(v, level)
  {
  }

  lemma AboveValues(v: nat)
    ensures Above(v, 0) == v
    ensures Above(v, 1) == v / 512
    ensures Above(v, 2) == v / 512 / 512
    ensures Above(v, 3) == v / 512 / 512 / 512
    ensures Above(v, 4) == v / 512 / 512 / 512 / 512
  {
    assert Above(v, 4) == Above(v, 3) / 512;
    assert Above(v, 3) == Above(v, 2) / 512;
    assert Above(v, 2) == Above(v, 1) / 512;
  }

  lemma FourDivisions(v: nat)
    ensures v / 512 / 512 / 512 / 512 == 0 <==> v < 0x10_0000_0000
  {
  }

  lemma {:induction false} AboveFour(v: nat)
    ensures Above(v, 4) == 0 <==> v < 0x10_0000_0000
  {
    AboveValues(v);
    FourDivisions(v);
  }

  /** A number is known by its quotient and remainder. */
  lemma Remainder(x: int, k: nat, j: int, r: int)
    requires 0 <= r < k && x == k * j + r
    ensures x % k == r && x / k == j
  {
    var q, s := x / k, x % k;
    assert k * (q - j) == r - s;
    if q != j {
      FarApart(k, q - j);
    }
  }

  lemma FarApart(k: int, e: int)
    requires k >= 0 && e != 0
    ensures k * e >= k || k * e <= -k
  {
    if e > 0 {
      assert k * e == k + k * (e - 1);
    } else {
      assert k * e == -k - k * (-e - 1);
    }
  }

  /** Keeping low bits first does not change the lowest nine, and commutes with dropping them. */
  lemma Low9(x: nat, k: nat, n: nat)
    requires k > 0 && n == 512 * k
    ensures x % n % 512 == x % 512
    ensures x % n / 512 == x / 512 % k
  {
    var j, y := x / n, x % n;
    assert x == n * j + y;
    assert n * j == 512 * (k * j);
    var b, r := y / 512, y % 512;
    assert x == 512 * (k * j + b) + r;
    Remainder(x, 512, k * j + b, r);
    assert 0 <= b < k;
    Remainder(k * j + b, k, j, b);
  }

  lemma Digits(q: nat)
    ensures var v := q % 0x10_0000_0000;
            && v % 512 == q % 512
            && v / 512 % 512 == q / 512 % 512
            && v / 512 / 512 % 512 == q / 512 / 512 % 512
            && v / 512 / 512 / 512 % 512 == q / 512 / 512 / 512 % 512
            && v / 512 / 512 / 512 / 512 == 0
  {
    var v := q % 0x10_0000_0000;
    Low9(q, 0x800_0000, 0x10_0000_0000);
    Low9(q / 512, 0x4_0000, 0x800_0000);
    Low9(q / 512 / 512, 512, 0x4_0000);
    FourDivisions(v);
  }

  lemma ShiftsCompose(gva: nat)
    ensures gva / 0x20_0000 == gva / 0x1000 / 512
    ensures gva / 0x4000_0000 == gva / 0x1000 / 512 / 512
    ensures gva / 0x80_0000_0000 == gva / 0x1000 / 512 / 512 / 512
  {
  }

  /** decode_gva picks, at each level, eight times the entry of the page number. */
  lemma {:induction false} DecodeIsIndex(gva: nat)
    ensures var d := DecodeGva(gva); var v := Vpn(gva);
            && d.pml4Idx == 8 * Index(v, 4) && d.pdptIdx == 8 * Index(v, 3)
            && d.pdIdx == 8 * Index(v, 2) && d.ptIdx == 8 * Index(v, 1)
            && d.offset == gva % 0x1000
  {
    hide Above;
    AboveValues(Vpn(gva));
    ShiftsCompose(gva);
    Digits(gva / 0x1000);
  }

  /** The five parts put together give back the page number and offset: all but the bits above 48. */
  lemma {:induction false} DecodeKeeps48(gva: nat)
    ensures var d := DecodeGva(gva);
            && Vpn(gva) == ((d.pml4Idx / 8 * 512 + d.pdptIdx / 8) * 512 + d.pdIdx / 8) * 512 + d.ptIdx / 8
            && gva % 0x1000 == d.offset
  {
    hide Above, DecodeGva, Vpn;
    DecodeIsIndex(gva);
    IndexAndTop(gva);
    FourDigits(Vpn(gva));
  }

  lemma IndexAndTop(gva: nat)
    ensures var v := Vpn(gva);
            && Index(v, 1) == v % 512 && Index(v, 2) == v / 512 % 512 && Index(v, 3) == v / 512 / 512 % 512
            && Index(v, 4) == v / 512 / 512 / 512 % 512
            && v / 512 / 512 / 512 / 512 == 0
  {
    hide Above;
    AboveValues(Vpn(gva));
    FourDivisions(Vpn(gva));
  }

  lemma FourDigits(v: nat)
    requires v / 512 / 512 / 512 / 512 == 0
    ensures v == ((v / 512 / 512 / 512 % 512 * 512 + v / 512 / 512 % 512) * 512 + v / 512 % 512) * 512 + v % 512
  {
    var a, b, c := v / 512, v / 512 / 512, v / 512 / 512 / 512;
    assert v == a * 512 + v % 512 && a == b * 512 + a % 512 && b == c * 512 + b % 512 && c % 512 == c;
  }

  // ---- the tree in memory ----

  /** Address of entry i of the table in physical page t. */
  function EntryAddr(t: nat, i: nat): nat {
    0x1000 * t + 8 * i
  }

  ghost predicate BackedPage(m: Memory, t: nat) {
    Backed(m, 0x1000 * t, 0x1000)
  }

  /** Entry i of the table in physical page t. */
  ghost function Entry(m: Memory, t: nat, i: nat): nat
    requires BackedPage(m, t) && i < 512
  {
    FromLe(Slice(m, EntryAddr(t, i), 8))
  }

  /** PRESENT and WRITE with the address of page t. */
  function EntryFor(t: nat): nat {
    0x1000 * t + 3
  }

  function EntryOf(tree: Tree, n: Node): nat {
    if n in tree then EntryFor(tree[n]) else 0
  }

  ghost predicate TableOk(m: Memory, tree: Tree, n: Node)
    requires n in tree && n.level >= 1
  {
    && tree[n] < 0x100_0000_0000
    && BackedPage(m, tree[n])
    && forall i {:trigger Entry(m, tree[n], i)} :: 0 <= i < 512 ==> Entry(m, tree[n], i) == EntryOf(tree, Child(n, i))
  }

  ghost predicate Shape(tree: Tree) {
    && ROOT in tree
    && (forall n :: n in tree ==> n.level <= 4 && tree[n] < 0x10_0000_0000_0000)
    && (forall n {:trigger Hangs(tree, n)} :: n in tree ==> Hangs(tree, n))
    && OwnPages(tree)
  }

  /** n is the root or hangs below a table of the tree. */
  ghost predicate Hangs(tree: Tree, n: Node) {
    if n.level == 4 then n == ROOT else Parent(n) in tree
  }

  ghost predicate OwnPages(tree: Tree) {
    forall n, k {:trigger tree[n], tree[k]} ::
      n in tree && k in tree && n.level >= 1 && k.level >= 1 && tree[n] == tree[k] ==> n == k
  }

  /** Guest memory m holds exactly the tables of the tree, each in a page of its own. */
  ghost predicate Radix(m: Memory, tree: Tree) {
    && Shape(tree)
    && forall n {:trigger TableOk(m, tree, n)} :: n in tree && n.level >= 1 ==> TableOk(m, tree, n)
  }

  /** Address a lies in one of the tree's tables. */
  ghost predicate InTables(tree: Tree, a: int) {
    exists n :: n in tree && n.level >= 1 && 0x1000 * tree[n] <= a < 0x1000 * tree[n] + 0x1000
  }

  ghost predicate ZeroPage(m: Memory, t: nat) {
    forall a :: 0x1000 * t <= a < 0x1000 * t + 0x1000 ==> a in m && m[a] == 0
  }

  /** Page t holds no table of the tree. */
  ghost predicate Unused(tree: Tree, t: nat) {
    forall n :: n in tree && n.level >= 1 ==> tree[n] != t
  }

  /** Memory after storing the entry for page addr. */
  ghost function SetEntry(m: Memory, t: nat, i: nat, addr: nat): Memory
    requires BackedPage(m, t) && i < 512
  {
    Put(m, EntryAddr(t, i), Le(EntryFor(addr), 8))
  }

  lemma {:induction false} FromLeZero(s: seq<Byte>)
    requires forall i :: 0 <= i < |s| ==> s[i] == 0
    ensures FromLe(s) == 0
  {
    if s != [] { FromLeZero(s[1..]); }
  }

  lemma {:induction false} ZeroEntries(m: Memory, t: nat, i: nat)
    requires ZeroPage(m, t) && i < 512
    ensures BackedPage(m, t) && Entry(m, t, i) == 0
  {
    FromLeZero(Slice(m, EntryAddr(t, i), 8));
  }

  /** An entry store changes that entry and no other entry of any table. */
  lemma {:induction false} EntryAfterSet(m: Memory, t: nat, i: nat, addr: nat, u: nat, j: nat)
    requires BackedPage(m, t) && i < 512 && addr < 0x10_0000_0000_0000
    requires BackedPage(m, u) && j < 512
    ensures BackedPage(SetEntry(m, t, i, addr), u)
    ensures Entry(SetEntry(m, t, i, addr), u, j) == if t == u && i == j then EntryFor(addr) else Entry(m, u, j)
  {
    hide FromLe, Le, Pow256;
    var b := Le(EntryFor(addr), 8);
    if t == u && i == j {
      Pow256Values();
      FromLeLe(EntryFor(addr), 8);
      SliceOfPutSame(m, EntryAddr(t, i), b);
    } else {
      SliceOfPut(m, EntryAddr(t, i), b, EntryAddr(u, j), 8);
    }
  }

  /** A page of zeros is an empty table: the first table becomes the root. */
  lemma {:induction false} RadixRoot(m: Memory, t: nat)
    requires t < 0x100_0000_0000 && ZeroPage(m, t)
    ensures Radix(m, map[ROOT := t])
  {
    forall i | 0 <= i < 512 ensures BackedPage(m, t) && Entry(m, t, i) == 0 {
      ZeroEntries(m, t, i);
    }
    var tree := map[ROOT := t];
    assert BackedPage(m, t);
    assert TableOk(m, tree, ROOT);
  }

  /** Radix depends on the table pages only. */
  lemma {:induction false} RadixFrame(m: Memory, m': Memory, tree: Tree)
    requires Radix(m, tree)
    requires forall a :: a in m && InTables(tree, a) ==> a in m' && m'[a] == m[a]
    ensures Radix(m', tree)
  {
    hide FromLe;
    forall n | n in tree && n.level >= 1 ensures TableOk(m', tree, n) {
      assert TableOk(m, tree, n);
      var b := 0x1000 * tree[n];
      forall a | b <= a < b + 0x1000 ensures a in m' && m'[a] == m[a] {
        assert a in m && InTables(tree, a);
      }
      forall i | 0 <= i < 512 ensures BackedPage(m', tree[n]) && Entry(m', tree[n], i) == Entry(m, tree[n], i) {
        assert Slice(m', EntryAddr(tree[n], i), 8) == Slice(m, EntryAddr(tree[n], i), 8);
      }
    }
  }

  lemma ChildInjective(n: Node, i: nat, p: Node, j: nat)
    requires n.level >= 1 && p.level >= 1 && i < 512 && j < 512
    ensures Child(n, i) == Child(p, j) <==> n == p && i == j
    ensures Parent(Child(n, i)) == n
  {
  }

  /**
    What may be stored in entry i of table p: any page below level 1, otherwise the child table or a
    fresh zero page.
   */
  ghost predicate Storable(m: Memory, tree: Tree, p: Node, i: nat, addr: nat)
    requires p.level >= 1
  {
    && addr < 0x10_0000_0000_0000
    && (p.level > 1 ==>
          if Child(p, i) in tree then tree[Child(p, i)] == addr
          else addr < 0x100_0000_0000 && ZeroPage(m, addr) && Unused(tree, addr))
  }

  /**
    Storing an entry extends the tree by one child, and all other entries of all tables keep
    their meaning.
   */
  lemma {:induction false} RadixSet(m: Memory, tree: Tree, p: Node, i: nat, addr: nat)
    requires Radix(m, tree)
    requires p in tree && p.level >= 1 && i < 512 && Storable(m, tree, p, i, addr)
    ensures TableOk(m, tree, p)
    ensures Radix(SetEntry(m, tree[p], i, addr), tree[Child(p, i) := addr])
  {
    hide SetEntry, Entry, Shape;
    var c := Child(p, i);
    assert TableOk(m, tree, p);
    var m', tree' := SetEntry(m, tree[p], i, addr), tree[c := addr];
    ChildShape(m, tree, p, i, addr);
    forall n | n in tree && n.level >= 1 && n != c ensures TableOk(m', tree', n) {
      OldTable(m, tree, p, i, addr, n);
    }
    if c.level >= 1 {
      ChildTable(m, tree, p, i, addr);
    }
  }

  lemma {:induction false} ChildShape(m: Memory, tree: Tree, p: Node, i: nat, addr: nat)
    requires Shape(tree)
    requires p in tree && p.level >= 1 && i < 512 && Storable(m, tree, p, i, addr)
    ensures Shape(tree[Child(p, i) := addr])
  {
    hide ZeroPage;
    ChildInjective(p, i, p, i);
    var tree' := tree[Child(p, i) := addr];
    assert OwnPages(tree');
    forall n | n in tree' ensures Hangs(tree', n) {
      assert n in tree ==> Hangs(tree, n);
    }
  }

  lemma {:induction false} OldTable(m: Memory, tree: Tree, p: Node, i: nat, addr: nat, n: Node)
    requires Radix(m, tree)
    requires p in tree && p.level >= 1 && i < 512 && Storable(m, tree, p, i, addr)
    requires n in tree && n.level >= 1 && n != Child(p, i)
    ensures TableOk(m, tree, p)
    ensures TableOk(SetEntry(m, tree[p], i, addr), tree[Child(p, i) := addr], n)
  {
    hide SetEntry, Entry;
    assert TableOk(m, tree, p) && TableOk(m, tree, n);
    var m', tree' := SetEntry(m, tree[p], i, addr), tree[Child(p, i) := addr];
    EntryAfterSet(m, tree[p], i, addr, tree[n], 0);
    forall j | 0 <= j < 512 ensures Entry(m', tree'[n], j) == EntryOf(tree', Child(n, j)) {
      EntryAfterSet(m, tree[p], i, addr, tree[n], j);
      ChildInjective(n, j, p, i);
    }
  }

  /** Nothing hangs below a table that was absent, so the zero page is right for it. */
  lemma {:induction false} ChildTable(m: Memory, tree: Tree, p: Node, i: nat, addr: nat)
    requires Radix(m, tree)
    requires p in tree && p.level > 1 && i < 512 && Storable(m, tree, p, i, addr)
    ensures TableOk(m, tree, p)
    ensures TableOk(SetEntry(m, tree[p], i, addr), tree[Child(p, i) := addr], Child(p, i))
  {
    hide SetEntry, Entry;
    var c := Child(p, i);
    assert TableOk(m, tree, p);
    var m', tree' := SetEntry(m, tree[p], i, addr), tree[c := addr];
    ChildInjective(p, i, p, i);
    if c in tree {
      assert TableOk(m, tree, c);
    } else {
      ZeroEntries(m, addr, 0);
    }
    assert addr != tree[p];
    EntryAfterSet(m, tree[p], i, addr, addr, 0);
    forall j | 0 <= j < 512 ensures Entry(m', addr, j) == EntryOf(tree', Child(c, j)) {
      EntryAfterSet(m, tree[p], i, addr, addr, j);
      ChildInjective(c, j, p, i);
      if c !in tree {
        ZeroEntries(m, addr, j);
        assert Child(c, j) in tree ==> Hangs(tree, Child(c, j));
      }
    }
  }

  lemma {:induction false} StoreBack(m: Memory, a: int, n: nat)
    requires Backed(m, a, n)
    ensures Put(m, a, Le(FromLe(Slice(m, a, n)), n)) == m
  {
    LeFromLe(Slice(m, a, n));
    PutSlice(m, a, n);
  }

  lemma PutSlice(m: Memory, a: int, n: nat)
    requires Backed(m, a, n)
    ensures Put(m, a, Slice(m, a, n)) == m
  {
  }

  /** Rewriting an entry that is already there stores the same bytes. */
  lemma {:induction false} SetEntrySame(m: Memory, tree: Tree, p: Node, i: nat)
    requires Radix(m, tree)
    requires p in tree && p.level >= 1 && i < 512 && Child(p, i) in tree
    ensures TableOk(m, tree, p)
    ensures SetEntry(m, tree[p], i, tree[Child(p, i)]) == m
  {
    hide FromLe, Le, Slice, OwnPages;
    assert TableOk(m, tree, p);
    assert Entry(m, tree[p], i) == EntryOf(tree, Child(p, i));
    StoreBack(m, EntryAddr(tree[p], i), 8);
  }

  /** Among the entries above the page level, a table is named by its parent's entry and by no other. */
  lemma {:induction false} OneReference(m: Memory, tree: Tree, c: Node, n: Node, i: nat)
    requires Radix(m, tree)
    requires c in tree && 1 <= c.level
    requires n in tree && n.level >= 2 && i < 512
    ensures TableOk(m, tree, n)
    ensures Entry(m, tree[n], i) == EntryFor(tree[c]) <==> c.level < 4 && n == Parent(c) && i == c.prefix % 512
  {
    hide Entry;
    assert TableOk(m, tree, n);
    ChildInjective(n, i, n, i);
    assert Entry(m, tree[n], i) == EntryOf(tree, Child(n, i));
  }

  // ---- the walk ----

  /** Eight bytes at a; what is not backed keeps its previous value. */
  function Load(m: Memory, a: int, stale: seq<Byte>): (s: seq<Byte>)
    requires |stale| == 8
    ensures |s| == 8
  {
    var k := BackedLen(m, a, 8);
    Slice(m, a, k) + stale[k..]
  }

  /** The address the walk computes from root. */
  function Walk(m: Memory, root: nat, gva: nat, stale: seq<Byte>): nat
    requires |stale| == 8
  {
    WalkFrom(m, root, DecodeGva(gva), stale)
  }

  function WalkFrom(m: Memory, root: nat, d: VirtualAddress, stale: seq<Byte>): nat
    requires |stale| == 8
  {
    var e4 := Load(m, root + d.pml4Idx, stale);
    var e1 := Next(m, d.ptIdx, Next(m, d.pdIdx, Next(m, d.pdptIdx, e4)));
    Frame(FromLe(e1)) + d.offset
  }

  /** The entry at offset idx of the table that entry e names. */
  function Next(m: Memory, idx: nat, e: seq<Byte>): (r: seq<Byte>)
    requires |e| == 8
    ensures |r| == 8
  {
    Load(m, Frame(FromLe(e)) + idx, e)
  }

  lemma NextIs(m: Memory, idx: nat, e: seq<Byte>, a: int)
    requires |e| == 8 && a == Frame(FromLe(e)) + idx
    ensures Load(m, a, e) == Next(m, idx, e)
  {
    hide FromLe, Frame, Load;
  }

  /** The pages the tree maps: virtual page number to the page number stored for it. */
  function PagesOf(tree: Tree): map<nat, nat> {
    map n | n in tree && n.level == 0 :: n.prefix := tree[n]
  }

  /** Translation by a plain page map; an entry keeps 40 bits of page number. */
  function Translate(pages: map<nat, nat>, gva: nat): nat
    requires Vpn(gva) in pages
  {
    pages[Vpn(gva)] % 0x100_0000_0000 * 0x1000 + gva % 0x1000
  }

  lemma LoadBacked(m: Memory, a: int, stale: seq<Byte>)
    requires Backed(m, a, 8) && |stale| == 8
    ensures Load(m, a, stale) == Slice(m, a, 8)
  {
    BackedLenUnique(m, a, 8, 8);
    assert stale[8..] == [];
  }

  lemma FrameOfEntry(t: nat)
    ensures Frame(EntryFor(t)) == 0x1000 * (t % 0x100_0000_0000)
    ensures t < 0x100_0000_0000 ==> Frame(EntryFor(t)) == 0x1000 * t
  {
    assert EntryFor(t) / 0x1000 == t;
  }

  /** One step of the walk of page v lands on the table below, whatever the buffer held before. */
  lemma {:induction false} WalkStep(m: Memory, tree: Tree, v: nat, level: nat, a: int, stale: seq<Byte>)
    requires Radix(m, tree)
    requires 1 <= level <= 4 && |stale| == 8
    requires NodeAt(v, level) in tree && NodeAt(v, level - 1) in tree
    requires a == 0x1000 * tree[NodeAt(v, level)] + 8 * Index(v, level)
    ensures FromLe(Load(m, a, stale)) == EntryFor(tree[NodeAt(v, level - 1)])
    ensures level > 1 ==> Frame(FromLe(Load(m, a, stale))) == 0x1000 * tree[NodeAt(v, level - 1)]
  {
    hide FromLe, Load, Above, Frame, Slice, OwnPages;
    var n, i, t := NodeAt(v, level), Index(v, level), tree[NodeAt(v, level - 1)];
    assert TableOk(m, tree, n);
    ChildOfNodeAt(v, level);
    assert Entry(m, tree[n], i) == EntryOf(tree, NodeAt(v, level - 1));
    LoadBacked(m, a, stale);
    FrameOfEntry(t);
    if level > 1 {
      assert TableOk(m, tree, NodeAt(v, level - 1));
    }
  }

  /** The next table up is in the tree too. */
  lemma PathUp(tree: Tree, v: nat, level: nat)
    requires Shape(tree) && level < 4 && NodeAt(v, level) in tree
    ensures NodeAt(v, level + 1) in tree
  {
    hide OwnPages, Above;
    ChildOfNodeAt(v, level + 1);
    assert Hangs(tree, NodeAt(v, level));
  }

  lemma PathTop(tree: Tree, v: nat)
    requires Shape(tree) && NodeAt(v, 4) in tree
    ensures NodeAt(v, 4) == ROOT
  {
    hide OwnPages, Above;
    assert Hangs(tree, NodeAt(v, 4));
  }

  lemma {:induction false} PathInTree(m: Memory, tree: Tree, v: nat)
    requires Radix(m, tree) && NodeAt(v, 0) in tree
    ensures forall l :: 0 <= l <= 4 ==> NodeAt(v, l) in tree
    ensures NodeAt(v, 4) == ROOT && v < 0x10_0000_0000
  {
    hide Shape, NodeAt, TableOk;
    PathUp(tree, v, 0);
    PathUp(tree, v, 1);
    PathUp(tree, v, 2);
    PathUp(tree, v, 3);
    PathTop(tree, v);
    TopIsZero(v);
  }

  lemma TopIsZero(v: nat)
    requires NodeAt(v, 4) == ROOT
    ensures v < 0x10_0000_0000
  {
    hide Above;
    AboveFour(v);
  }

  lemma {:induction false} NextStep(m: Memory, tree: Tree, v: nat, level: nat, idx: nat, e: seq<Byte>)
    requires Radix(m, tree)
    requires 1 <= level <= 3 && |e| == 8
    requires NodeAt(v, level) in tree && NodeAt(v, level - 1) in tree
    requires FromLe(e) == EntryFor(tree[NodeAt(v, level)])
    requires idx == 8 * Index(v, level)
    ensures FromLe(Next(m, idx, e)) == EntryFor(tree[NodeAt(v, level - 1)])
  {
    hide FromLe, Load, Above, Index, EntryFor, Frame, OwnPages;
    assert TableOk(m, tree, NodeAt(v, level));
    FrameOfEntry(tree[NodeAt(v, level)]);
    WalkStep(m, tree, v, level, Frame(FromLe(e)) + idx, e);
  }

  lemma {:induction false} WalkToLeaf(m: Memory, tree: Tree, v: nat, d: VirtualAddress, stale: seq<Byte>)
    requires Radix(m, tree) && |stale| == 8
    requires NodeAt(v, 0) in tree
    requires d.pml4Idx == 8 * Index(v, 4) && d.pdptIdx == 8 * Index(v, 3)
    requires d.pdIdx == 8 * Index(v, 2) && d.ptIdx == 8 * Index(v, 1)
    ensures WalkFrom(m, 0x1000 * tree[ROOT], d, stale) == Frame(EntryFor(tree[NodeAt(v, 0)])) + d.offset
  {
    hide FromLe, Frame, Load, Next, Above, Index, EntryFor, Radix, Shape;
    PathInTree(m, tree, v);
    var e4 := Load(m, 0x1000 * tree[ROOT] + d.pml4Idx, stale);
    WalkStep(m, tree, v, 4, 0x1000 * tree[ROOT] + d.pml4Idx, stale);
    var e3 := Next(m, d.pdptIdx, e4);
    NextStep(m, tree, v, 3, d.pdptIdx, e4);
    var e2 := Next(m, d.pdIdx, e3);
    NextStep(m, tree, v, 2, d.pdIdx, e3);
    NextStep(m, tree, v, 1, d.ptIdx, e2);
  }

  /** The walk through the tables in memory is the lookup in the page map. */
  lemma {:induction false} WalkIsTranslate(m: Memory, tree: Tree, gva: nat, stale: seq<Byte>)
    requires Radix(m, tree) && |stale| == 8
    requires Vpn(gva) in PagesOf(tree)
    ensures Walk(m, 0x1000 * tree[ROOT], gva, stale) == Translate(PagesOf(tree), gva)
  {
    hide WalkFrom, Vpn, DecodeGva, Index, OwnPages;
    assert NodeAt(Vpn(gva), 0) in tree;
    DecodeIsIndex(gva);
    WalkToLeaf(m, tree, Vpn(gva), DecodeGva(gva), stale);
    FrameOfEntry(tree[NodeAt(Vpn(gva), 0)]);
  }
}
