/** The abstract page map that map_gva overrides, and how many tables it takes. */
module PageMap {
  import opened Words
  import opened PageTable

  function VirtAt(v: nat, i: nat): nat {
    (v + i) % 0x10_0000_0000
  }

  function PhysAt(p: nat, i: nat): nat {
    (p + i) % 0x10_0000_0000_0000
  }

  /** Page v + i goes to page p + i for all i < n; virtual page numbers wrap at 36 bits, later ones win. */
  function MapRun(pages: map<nat, nat>, v: nat, p: nat, n: nat): map<nat, nat> {
    if n == 0 then pages
    else MapRun(pages, v, p, n - 1)[VirtAt(v, n - 1) := PhysAt(p, n - 1)]
  }

  /** How far page u lies above page v in the 36-bit space. */
  function Distance(u: nat, v: nat): nat {
    (u - v) % 0x10_0000_0000
  }

  lemma DistanceOf(u: nat, v: nat, i: nat)
    requires u < 0x10_0000_0000 && i < 0x10_0000_0000
    ensures VirtAt(v, i) == u <==> Distance(u, v) == i
  {
    var m := 0x10_0000_0000;
    if VirtAt(v, i) == u {
      Remainder(u - v, m, -((v + i) / m), i);
    }
    if Distance(u, v) == i {
      Remainder(v + i, m, -((u - v) / m), u);
    }
  }

  /**
    A run no longer than the address space maps its i-th page to the i-th frame and leaves every
    other page as it was.
   */
  lemma {:induction false} MapRunLookup(pages: map<nat, nat>, v: nat, p: nat, n: nat, u: nat)
    requires n <= 0x10_0000_0000 && u < 0x10_0000_0000
    ensures Distance(u, v) < n ==> u in MapRun(pages, v, p, n) && MapRun(pages, v, p, n)[u] == PhysAt(p, Distance(u, v))
    ensures Distance(u, v) >= n ==> (u in MapRun(pages, v, p, n) <==> u in pages)
    ensures Distance(u, v) >= n && u in pages ==> MapRun(pages, v, p, n)[u] == pages[u]
    decreases n
  {
    hide VirtAt, PhysAt, Distance;
    if n > 0 {
      MapRunLookup(pages, v, p, n - 1, u);
      DistanceOf(u, v, n - 1);
    }
  }

  // ---- tables and the pages they serve ----

  ghost predicate Serves(tree: Tree, n: Node) {
    exists u :: NodeAt(u, 0) in tree && NodeAt(u, n.level) == n
  }

  /** Every table below the root lies on the path of a mapped page. */
  ghost predicate Minimal(tree: Tree) {
    forall n :: n in tree && 1 <= n.level <= 3 ==> Serves(tree, n)
  }

  /** The same while page v is being mapped: its path may already exist. */
  ghost predicate MinimalBut(tree: Tree, v: nat) {
    forall n :: n in tree && 1 <= n.level <= 3 ==> n == NodeAt(v, n.level) || Serves(tree, n)
  }

  lemma {:induction false} MinimalStep(tree: Tree, v: nat, level: nat, t: nat)
    requires MinimalBut(tree, v)
    ensures MinimalBut(tree[NodeAt(v, level) := t], v)
    ensures level == 0 ==> Minimal(tree[NodeAt(v, level) := t])
  {
    hide Above;
    var tree' := tree[NodeAt(v, level) := t];
    forall n | n in tree' && 1 <= n.level <= 3 && n != NodeAt(v, n.level) ensures Serves(tree', n) {
      assert n in tree;
      var u :| NodeAt(u, 0) in tree && NodeAt(u, n.level) == n;
      assert NodeAt(u, 0) in tree';
    }
    if level == 0 {
      forall n | n in tree' && 1 <= n.level <= 3 && n == NodeAt(v, n.level) ensures Serves(tree', n) {
        assert NodeAt(v, 0) in tree';
      }
    }
  }

  lemma PagesAfterLeaf(tree: Tree, v: nat, t: nat)
    ensures PagesOf(tree[NodeAt(v, 0) := t]) == PagesOf(tree)[v := t]
  {
  }

  lemma PagesAfterTable(tree: Tree, n: Node, t: nat)
    requires n.level >= 1
    ensures PagesOf(tree[n := t]) == PagesOf(tree)
  {
  }

  function Tables(tree: Tree): set<Node> {
    set n | n in tree && n.level >= 1
  }

  function TablesAt(tree: Tree, level: nat): set<Node> {
    set n | n in tree && n.level == level
  }

  /** The prefixes at one level of a set of pages. */
  function Prefixes(vs: set<nat>, level: nat): set<nat> {
    set v | v in vs :: Above(v, level)
  }

  function NodesFor(qs: set<nat>, level: nat): set<Node> {
    set q | q in qs :: Node(level, q)
  }

  lemma {:induction false} NodesForSize(qs: set<nat>, level: nat)
    ensures |NodesFor(qs, level)| == |qs|
  {
    if qs == {} {
      assert NodesFor(qs, level) == {};
    } else {
      var q :| q in qs;
      NodesForSize(qs - {q}, level);
      assert NodesFor(qs, level) == NodesFor(qs - {q}, level) + {Node(level, q)};
    }
  }

  lemma {:induction false} TablesAtArePrefixes(m: Memory, tree: Tree, level: nat)
    requires Radix(m, tree) && Minimal(tree) && 1 <= level <= 3
    ensures TablesAt(tree, level) == NodesFor(Prefixes(PagesOf(tree).Keys, level), level)
  {
    hide OwnPages, Above;
    var vs := PagesOf(tree).Keys;
    forall n | n in TablesAt(tree, level) ensures n in NodesFor(Prefixes(vs, level), level) {
      assert Serves(tree, n);
      var u :| NodeAt(u, 0) in tree && NodeAt(u, level) == n;
      AboveValues(u);
      assert u in vs;
      assert Above(u, level) in Prefixes(vs, level);
    }
    forall q | q in Prefixes(vs, level) ensures Node(level, q) in tree {
      var v :| v in vs && Above(v, level) == q;
      AboveValues(v);
      assert NodeAt(v, 0) in tree;
      PathInTree(m, tree, v);
      assert NodeAt(v, level) in tree;
    }
  }

  lemma TablesByLevel(tree: Tree)
    requires Shape(tree)
    ensures |Tables(tree)| == 1 + |TablesAt(tree, 3)| + |TablesAt(tree, 2)| + |TablesAt(tree, 1)|
  {
    hide OwnPages;
    var a, b, c := TablesAt(tree, 1), TablesAt(tree, 2), TablesAt(tree, 3);
    forall n | n in Tables(tree) ensures n in a + b + c + {ROOT} {
      assert Hangs(tree, n);
    }
    assert Tables(tree) == a + b + c + {ROOT};
    DisjointSize(a, b);
    DisjointSize(a + b, c);
    DisjointSize(a + b + c, {ROOT});
  }

  lemma DisjointSize(a: set<Node>, b: set<Node>)
    requires a !! b
    ensures |a + b| == |a| + |b|
  {
  }

  /** One table for the root and one for each distinct 9-, 18- and 27-bit prefix of the mapped pages. */
  lemma {:induction false} TableCount(m: Memory, tree: Tree)
    requires Radix(m, tree) && Minimal(tree)
    ensures var vs := PagesOf(tree).Keys;
            |Tables(tree)| == 1 + |Prefixes(vs, 3)| + |Prefixes(vs, 2)| + |Prefixes(vs, 1)|
  {
    hide Shape, Minimal, TablesAt, Tables, Prefixes, PagesOf;
    var vs := PagesOf(tree).Keys;
    forall l | 1 <= l <= 3 ensures |TablesAt(tree, l)| == |Prefixes(vs, l)| {
      TablesAtArePrefixes(m, tree, l);
      NodesForSize(Prefixes(vs, l), l);
    }
    TablesByLevel(tree);
  }

  /** The prefixes are the page number shifted right by 9, 18 and 27 bits. */
  lemma PrefixShifts(v: nat)
    ensures Above(v, 1) == v / 0x200 && Above(v, 2) == v / 0x4_0000 && Above(v, 3) == v / 0x800_0000
  {
    AboveValues(v);
  }

  // ---- page arithmetic of the mapping loop ----

  lemma ModMod(x: nat, m: nat, k: nat)
    requires m > 0 && k > 0
    ensures m * k > 0
    ensures x % (m * k) % m == x % m
  {
    var n := m * k;
    var j, y := x / n, x % n;
    assert x == n * j + y;
    assert n * j == m * (k * j);
    var b, r := y / m, y % m;
    assert x == m * (k * j + b) + r;
    Remainder(x, m, k * j + b, r);
  }

  /** Stepping by pages through a 64-bit address steps through page numbers. */
  lemma WrapPage(x: nat)
    ensures Wrap(0x1000 * x) == 0x1000 * (x % 0x10_0000_0000_0000)
    ensures Wrap(0x1000 * x) / 0x1000 == x % 0x10_0000_0000_0000
    ensures Vpn(Wrap(0x1000 * x)) == x % 0x10_0000_0000
  {
    var j, y := x / 0x10_0000_0000_0000, x % 0x10_0000_0000_0000;
    Remainder(0x1000 * x, 0x1_0000_0000_0000_0000, j, 0x1000 * y);
    ModMod(x, 0x10_0000_0000, 0x1_0000);
  }

  lemma WrapNext(x: nat)
    ensures Wrap(Wrap(0x1000 * x) + 0x1000) == Wrap(0x1000 * (x + 1))
  {
    var j, y := 0x1000 * x / 0x1_0000_0000_0000_0000, 0x1000 * x % 0x1_0000_0000_0000_0000;
    var k, z := (y + 0x1000) / 0x1_0000_0000_0000_0000, (y + 0x1000) % 0x1_0000_0000_0000_0000;
    Remainder(0x1000 * (x + 1), 0x1_0000_0000_0000_0000, j + k, z);
  }

  lemma WrapSmall(x: nat)
    requires x < 0x1_0000_0000_0000_0000
    ensures Wrap(x) == x
  {
  }

  // ---- one store of map_gva as a change of memory and tree ----

  /** Every byte outside the old tables keeps its value and does not become part of a table. */
  ghost predicate Kept(m: Memory, tree: Tree, m': Memory, tree': Tree) {
    forall a :: a in m && !InTables(tree, a) ==> a in m' && m'[a] == m[a] && !InTables(tree', a)
  }

  /** m with a page of zeros added at page t, where nothing was backed. */
  ghost predicate AddsZeroPage(m: Memory, m': Memory, t: nat) {
    && ZeroPage(m', t)
    && (forall a :: a in m ==> a in m' && m'[a] == m[a] && !(0x1000 * t <= a < 0x1000 * t + 0x1000))
  }

  lemma {:induction false} EntryRead(m: Memory, tree: Tree, p: Node, i: nat)
    requires Radix(m, tree) && p in tree && p.level >= 1 && i < 512
    ensures BackedLen(m, EntryAddr(tree[p], i), 8) == 8
    ensures FromLe(Slice(m, EntryAddr(tree[p], i), 8)) == EntryOf(tree, Child(p, i))
    ensures BackedPage(m, tree[p]) && tree[p] < 0x100_0000_0000
  {
    hide OwnPages, FromLe, Slice;
    assert TableOk(m, tree, p);
    BackedLenUnique(m, EntryAddr(tree[p], i), 8, 8);
    assert Entry(m, tree[p], i) == EntryOf(tree, Child(p, i));
  }

  lemma {:induction false} FreshTable(m: Memory, m': Memory, tree: Tree, t: nat)
    requires Radix(m, tree) && AddsZeroPage(m, m', t)
    ensures Radix(m', tree)
    ensures Kept(m, tree, m', tree)
    ensures Unused(tree, t)
  {
    hide OwnPages, Entry, Radix;
    RadixFrame(m, m', tree);
    forall n | n in tree && n.level >= 1 ensures tree[n] != t {
      TableBacked(m, tree, n);
      assert 0x1000 * tree[n] in m;
    }
  }

  lemma TableBacked(m: Memory, tree: Tree, n: Node)
    requires Radix(m, tree) && n in tree && n.level >= 1
    ensures BackedPage(m, tree[n])
  {
    hide OwnPages, Entry;
    assert TableOk(m, tree, n);
  }

  lemma {:induction false} KeptAfterSet(m: Memory, m': Memory, tree: Tree, p: Node, i: nat, c: Node, t: nat)
    requires p in tree && p.level >= 1 && i < 512 && BackedPage(m', tree[p])
    requires Kept(m, tree, m', tree)
    requires c.level >= 1 ==> (c in tree && tree[c] == t) || AddsZeroPage(m, m', t)
    ensures Kept(m, tree, SetEntry(m', tree[p], i, t), tree[c := t])
  {
    hide Le, InTables;
    var tree', r := tree[c := t], SetEntry(m', tree[p], i, t);
    forall a | a in m && !InTables(tree, a) ensures a in r && r[a] == m[a] && !InTables(tree', a) {
      InTablesAfter(tree, c, t, a);
      InTablesOf(tree, p, a);
    }
  }

  lemma InTablesOf(tree: Tree, p: Node, a: int)
    requires p in tree && p.level >= 1
    ensures 0x1000 * tree[p] <= a < 0x1000 * tree[p] + 0x1000 ==> InTables(tree, a)
  {
  }

  lemma InTablesAfter(tree: Tree, c: Node, t: nat, a: int)
    requires !InTables(tree, a)
    ensures InTables(tree[c := t], a) ==> c.level >= 1 && 0x1000 * t <= a < 0x1000 * t + 0x1000
    ensures c.level >= 1 && c in tree && tree[c] == t ==> !InTables(tree[c := t], a)
  {
    if c.level >= 1 && c in tree && tree[c] == t {
      assert tree[c := t] == tree;
    }
  }

  lemma KeptTwice(m: Memory, tree: Tree, m1: Memory, tree1: Tree, m2: Memory, tree2: Tree)
    requires Kept(m, tree, m1, tree1) && Kept(m1, tree1, m2, tree2)
    ensures Kept(m, tree, m2, tree2)
  {
    hide InTables;
  }

  lemma TablesGrow(tree: Tree, c: Node, t: nat)
    ensures |Tables(tree[c := t])| == |Tables(tree)| + if c.level >= 1 && c !in tree then 1 else 0
  {
    if c.level >= 1 {
      assert Tables(tree[c := t]) == Tables(tree) + {c};
    } else {
      assert Tables(tree[c := t]) == Tables(tree);
    }
  }

  /** Following or creating entry i of table p, then storing it: the tree gains at most that child. */
  lemma {:induction false} StoreChild(m: Memory, m': Memory, tree: Tree, p: Node, i: nat, t: nat)
    requires Radix(m, tree) && p in tree && 2 <= p.level <= 4 && i < 512
    requires if Child(p, i) in tree then m' == m && t == tree[Child(p, i)]
             else AddsZeroPage(m, m', t) && t < 0x100_0000_0000
    ensures Radix(m', tree) && BackedPage(m', tree[p]) && BackedLen(m', EntryAddr(tree[p], i), 8) == 8
    ensures Radix(SetEntry(m', tree[p], i, t), tree[Child(p, i) := t])
    ensures Kept(m, tree, SetEntry(m', tree[p], i, t), tree[Child(p, i) := t])
    ensures Child(p, i) in tree ==> tree[Child(p, i) := t] == tree
  {
    hide Radix, SetEntry, Kept, InTables, ZeroPage;
    var c := Child(p, i);
    if c in tree {
      assert tree[c := t] == tree;
      assert Kept(m, tree, m', tree) by { KeptSame(m, tree); }
      TargetFits(m, tree, c);
    } else {
      FreshTable(m, m', tree, t);
    }
    EntryRead(m', tree, p, i);
    RadixSet(m', tree, p, i, t);
    KeptAfterSet(m, m', tree, p, i, c, t);
  }

  lemma KeptSame(m: Memory, tree: Tree)
    ensures Kept(m, tree, m, tree)
  {
  }

  lemma TargetFits(m: Memory, tree: Tree, c: Node)
    requires Radix(m, tree) && c in tree
    ensures tree[c] < 0x10_0000_0000_0000
    ensures c.level >= 1 ==> tree[c] < 0x100_0000_0000
  {
    hide OwnPages;
    assert c.level >= 1 ==> TableOk(m, tree, c);
  }

  /** Storing the entry of a mapped page. */
  lemma {:induction false} StoreLeaf(m: Memory, tree: Tree, p: Node, i: nat, t: nat)
    requires Radix(m, tree) && p in tree && p.level == 1 && i < 512 && t < 0x10_0000_0000_0000
    ensures BackedPage(m, tree[p]) && BackedLen(m, EntryAddr(tree[p], i), 8) == 8
    ensures Radix(SetEntry(m, tree[p], i, t), tree[Child(p, i) := t])
    ensures Kept(m, tree, SetEntry(m, tree[p], i, t), tree[Child(p, i) := t])
  {
    hide Radix, SetEntry, Kept, InTables;
    KeptSame(m, tree);
    EntryRead(m, tree, p, i);
    RadixSet(m, tree, p, i, t);
    KeptAfterSet(m, m, tree, p, i, Child(p, i), t);
  }

  /** x | PRESENT | WRITE. */
  function PresentWrite(x: nat): nat {
    x / 4 * 4 + 3
  }

  lemma OrPresentWrite(t: nat)
    ensures PresentWrite(0x1000 * t) == EntryFor(t)
    ensures EntryFor(t) / 0x1000 * 0x1000 == 0x1000 * t
  {
    Remainder(0x1000 * t, 4, 0x400 * t, 0);
    Remainder(EntryFor(t), 0x1000, t, 3);
  }

  lemma EntryFits(s: seq<Byte>)
    requires |s| == 8
    ensures FromLe(s) < 0x1_0000_0000_0000_0000
  {
    hide FromLe, Le, Pow256;
    LeFromLe(s);
    Pow256Values();
  }

  lemma PathEntry(m: Memory, tree: Tree, v: nat, level: nat)
    requires Radix(m, tree) && 1 <= level <= 4 && NodeAt(v, level) in tree
    ensures Index(v, level) < 512
    ensures Child(NodeAt(v, level), Index(v, level)) == NodeAt(v, level - 1)
    ensures 0x1000 * tree[NodeAt(v, level)] + 8 * Index(v, level) < 0x1_0000_0000_0000_0000
  {
    hide OwnPages, Above;
    ChildOfNodeAt(v, level);
    TargetFits(m, tree, NodeAt(v, level));
  }

  /** The PML4 is on every page's path. */
  lemma RootOnPath(v: nat)
    requires v < 0x10_0000_0000
    ensures NodeAt(v, 4) == ROOT
  {
    AboveFour(v);
  }

  lemma MinimalIsBut(tree: Tree, v: nat)
    requires Minimal(tree)
    ensures MinimalBut(tree, v)
  {
  }

  lemma VpnBound(gva: nat)
    ensures Vpn(gva) < 0x10_0000_0000
  {
  }

  lemma TablesSame(tree: Tree, c: Node, t: nat)
    requires c.level == 0
    ensures Tables(tree[c := t]) == Tables(tree)
  {
  }

  lemma RootFits(m: Memory, tree: Tree)
    requires Radix(m, tree)
    ensures ROOT in tree && Wrap(0x1000 * tree[ROOT]) == 0x1000 * tree[ROOT]
  {
    TargetFits(m, tree, ROOT);
  }

  lemma RunStep(x: nat, i: nat)
    ensures Vpn(Wrap(0x1000 * (x + i))) == VirtAt(x, i)
    ensures Wrap(0x1000 * (x + i)) / 0x1000 == PhysAt(x, i)
  {
    hide Vpn, Wrap;
    WrapPage(x + i);
  }

  lemma OnlyRoot(t: nat)
    ensures Minimal(map[ROOT := t]) && PagesOf(map[ROOT := t]) == map[] && PagesOf(map[]) == map[]
    ensures Tables(map[ROOT := t]) == {ROOT} && Tables(map[]) == {}
  {
  }

  /** The first table is a zero page: no entries, nothing else touched. */
  lemma {:induction false} FirstTable(m: Memory, m': Memory, t: nat)
    requires AddsZeroPage(m, m', t) && t < 0x100_0000_0000
    ensures Radix(m', map[ROOT := t]) && Minimal(map[ROOT := t])
    ensures Kept(m, map[], m', map[ROOT := t])
    ensures PagesOf(map[ROOT := t]) == map[] && PagesOf(map[]) == map[]
    ensures Tables(map[ROOT := t]) == {ROOT} && Tables(map[]) == {}
  {
    hide Radix, Minimal, PagesOf, Tables;
    RadixRoot(m', t);
    OnlyRoot(t);
  }

  /** Backing more addresses does not disturb the tables. */
  lemma RadixGrows(m: Memory, m': Memory, tree: Tree)
    requires Radix(m, tree)
    requires forall a :: a in m ==> a in m' && m'[a] == m[a]
    ensures Radix(m', tree)
  {
    hide Radix, InTables;
    RadixFrame(m, m', tree);
  }

  lemma InTablesBacked(m: Memory, tree: Tree, a: int)
    requires Radix(m, tree) && InTables(tree, a)
    ensures a in m
  {
    hide Radix;
    var n :| n in tree && n.level >= 1 && 0x1000 * tree[n] <= a < 0x1000 * tree[n] + 0x1000;
    TableBacked(m, tree, n);
  }

  /** The j-th address of a virtual range. */
  function GvaPlus(gva: nat, j: nat): U64 {
    Wrap(gva + j)
  }

  lemma GvaPlusNext(gva: nat, j: nat)
    ensures Wrap(GvaPlus(gva, j) + 1) == GvaPlus(gva, j + 1)
  {
    var x, y := (gva + j) / 0x1_0000_0000_0000_0000, (gva + j) % 0x1_0000_0000_0000_0000;
    var k, z := (y + 1) / 0x1_0000_0000_0000_0000, (y + 1) % 0x1_0000_0000_0000_0000;
    Remainder(gva + j + 1, 0x1_0000_0000_0000_0000, x + k, z);
  }

  lemma NotInTables(m: Memory, tree: Tree, started: bool, a: int)
    requires if started then Radix(m, tree) else tree == map[]
    requires a !in m
    ensures !InTables(tree, a)
  {
    hide Radix;
    if InTables(tree, a) && started {
      InTablesBacked(m, tree, a);
    }
  }

  lemma KeptAt(m: Memory, tree: Tree, m': Memory, tree': Tree, a: int)
    requires Kept(m, tree, m', tree') && a in m && !InTables(tree, a)
    ensures a in m' && m'[a] == m[a] && !InTables(tree', a)
  {
    hide InTables;
  }

  lemma GvaPlusZero(gva: U64)
    ensures GvaPlus(gva, 0) == gva
  {
  }

  /** No table lies in [lo, hi). */
  ghost predicate NoTables(tree: Tree, lo: int, hi: int) {
    forall x :: lo <= x < hi ==> !InTables(tree, x)
  }

  /** A store that avoids the tables does not disturb them. */
  lemma StoreKeepsRadix(m: Memory, tree: Tree, a: int, s: seq<Byte>)
    requires Radix(m, tree)
    requires NoTables(tree, a, a + |s|)
    ensures Radix(Store(m, a, s), tree)
  {
    hide Radix, InTables;
    RadixFrame(m, Store(m, a, s), tree);
  }
}
