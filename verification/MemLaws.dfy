/** Laws of guest memory and translation that follow from the manager's contracts. */
module MemLaws {
  import opened Words
  import opened PageTable
  import opened PageMap
  import opened VmMem
  import opened Hvexec
  import Boot
  import Identity
  import opened Vcpu
  import Loader

  // ---- transfers ----

  /**
    Reading where one has written returns what was stored, for exactly as far as memory is backed;
    nothing else changes.
   */
  lemma {:induction false} ReadAfterWrite(m: Memory, a: int, s: seq<Byte>)
    ensures var r, n := Store(m, a, s), BackedLen(m, a, |s|);
            && BackedLen(r, a, |s|) == n && Slice(r, a, n) == s[..n]
            && forall x :: x in m && !(a <= x < a + n) ==> x in r && r[x] == m[x]
  {
    var n := BackedLen(m, a, |s|);
    var r := Store(m, a, s);
    SliceOfPutSame(m, a, s[..n]);
    assert forall x :: x in m <==> x in m.Keys;
    assert forall x :: x in r <==> x in r.Keys;
    BackedLenUnique(r, a, |s|, n);
  }

  /** After a sequence of writes, the last one is what is read, and what it does not touch is as it was before it. */
  lemma {:induction false} LastWriteWins(m: Memory, writes: seq<(int, seq<Byte>)>, a: int, s: seq<Byte>)
    requires Backed(m, a, |s|)
    ensures HoldsBytes(StoreAll(m, writes + [(a, s)]), a, s)
    ensures forall x :: x in m && !(a <= x < a + |s|) ==>
      x in StoreAll(m, writes + [(a, s)]) && x in StoreAll(m, writes)
      && StoreAll(m, writes + [(a, s)])[x] == StoreAll(m, writes)[x]
  {
    hide HoldsBytes;
    var w, before := writes + [(a, s)], StoreAll(m, writes);
    assert w[..|w| - 1] == writes;
    assert forall x :: x in m <==> x in m.Keys;
    assert forall x :: x in before <==> x in before.Keys;
    StoredIsHeld(before, a, s);
  }

  lemma {:induction false} WritesKeepTables(m: Memory, tree: Tree, writes: seq<(int, seq<Byte>)>)
    requires Radix(m, tree) && Avoids(tree, writes)
    ensures Radix(StoreAll(m, writes), tree)
    decreases |writes|
  {
    hide Radix, NoTables;
    if writes != [] {
      var w := writes[|writes| - 1];
      assert w in writes;
      WritesKeepTables(m, tree, writes[..|writes| - 1]);
      StoreKeepsRadix(StoreAll(m, writes[..|writes| - 1]), tree, w.0, w.1);
    }
  }

  /** No write touches a table. */
  ghost predicate Avoids(tree: Tree, writes: seq<(int, seq<Byte>)>) {
    forall w :: w in writes ==> NoTables(tree, w.0, w.0 + |w.1|)
  }

  /** Writes that avoid the tables change no translation: every mapped page still walks to its frame. */
  lemma {:induction false} WritesKeepTranslation(m: Memory, tree: Tree, writes: seq<(int, seq<Byte>)>, gva: U64,
        stale: seq<Byte>)
    requires Radix(m, tree) && |stale| == 8 && Vpn(gva) in PagesOf(tree) && Avoids(tree, writes)
    ensures Radix(StoreAll(m, writes), tree)
    ensures Walk(StoreAll(m, writes), 0x1000 * tree[ROOT], gva, stale) == Translate(PagesOf(tree), gva)
  {
    hide Radix, Walk, PagesOf, Translate, Vpn, Avoids;
    WritesKeepTables(m, tree, writes);
    WalkIsTranslate(StoreAll(m, writes), tree, gva, stale);
  }

  // ---- translation after map_gva ----

  /** Byte off of page i of a run of addresses that starts at page x. */
  function InRun(x: nat, i: nat, off: nat): int {
    Wrap(0x1000 * (x + i)) + off
  }

  lemma RunAddress(x: nat, i: nat, off: nat)
    requires off < 0x1000
    ensures InRun(x, i, off) >= 0 && Vpn(InRun(x, i, off)) == VirtAt(x, i) && InRun(x, i, off) % 0x1000 == off
    ensures InRun(x, i, off) == 0x1000 * PhysAt(x, i) + off
  {
    hide Vpn, Wrap;
    WrapPage(x + i);
    SamePage(0x1000 * PhysAt(x, i), PhysAt(x, i), off);
    RunStep(x, i);
  }

  lemma SamePage(a: nat, p: nat, off: nat)
    requires a == 0x1000 * p && off < 0x1000
    ensures Vpn(a + off) == Vpn(a) && (a + off) % 0x1000 == off
  {
    Remainder(a + off, 0x1000, p, off);
    Remainder(a, 0x1000, p, 0);
  }

  /**
    After mapping n pages from page v to page p, each byte of page i of the run translates to the same
    byte of its target page, exactly when that target lies below 2^52.
   */
  lemma {:induction false} RunTranslates(pages: map<nat, nat>, v: nat, p: nat, n: nat, i: nat, off: nat)
    requires i < n <= 0x10_0000_0000 && off < 0x1000
    ensures InRun(v, i, off) >= 0 && Vpn(InRun(v, i, off)) in MapRun(pages, v, p, n)
    ensures Translate(MapRun(pages, v, p, n), InRun(v, i, off)) == InRun(p, i, off) <==>
      InRun(p, i, off) < 0x10_0000_0000_0000
  {
    hide InRun, MapRun, Vpn;
    RunAddress(v, i, off);
    RunAddress(p, i, off);
    var u := VirtAt(v, i);
    DistanceOf(u, v, i);
    hide VirtAt, Distance;
    MapRunLookup(pages, v, p, n, u);
    Masked(PhysAt(p, i), off);
  }

  lemma Masked(t: nat, off: nat)
    requires off < 0x1000
    ensures t % 0x100_0000_0000 * 0x1000 + off == 0x1000 * t + off <==> 0x1000 * t + off < 0x10_0000_0000_0000
  {
  }

  /** Pages outside the run translate as before. */
  lemma {:induction false} OthersTranslate(pages: map<nat, nat>, v: nat, p: nat, n: nat, gva: U64)
    requires n <= 0x10_0000_0000 && Distance(Vpn(gva), v) >= n
    ensures Vpn(gva) in MapRun(pages, v, p, n) <==> Vpn(gva) in pages
    ensures Vpn(gva) in pages ==> Translate(MapRun(pages, v, p, n), gva) == Translate(pages, gva)
  {
    hide MapRun, Vpn, Distance;
    VpnBound(gva);
    MapRunLookup(pages, v, p, n, Vpn(gva));
  }

  // ---- host contiguity ----

  /** The n bytes at gva lie on consecutively mapped pages, below 2^48. */
  ghost predicate Affine(pages: map<nat, nat>, gva: nat, n: nat) {
    && gva + n <= 0x1_0000_0000_0000 && gva / 0x1000 in pages
    && forall v :: gva / 0x1000 <= v && 0x1000 * v < gva + n ==>
         v in pages && pages[v] == pages[gva / 0x1000] + (v - gva / 0x1000) && pages[v] < 0x100_0000_0000
  }

  lemma AffineByte(pages: map<nat, nat>, gva: nat, n: nat, j: nat)
    requires Affine(pages, gva, n) && j < n
    ensures GvaPlus(gva, j) == gva + j
    ensures Vpn(gva) in pages && Vpn(gva + j) in pages
    ensures Translate(pages, gva + j) == Translate(pages, gva) + j
  {
    hide Vpn;
    Identity.PageOf(gva);
    Identity.PageOf(gva + j);
    WrapSmall(gva + j);
    var v, w := gva / 0x1000, (gva + j) / 0x1000;
    Identity.SmallMod(pages[v]);
    Identity.SmallMod(pages[w]);
  }

  lemma OneRegion(rs: seq<Region>, i: nat, k: nat, a: int)
    requires WellFormed(rs) && i < |rs| && k < |rs| && rs[i].Has(a) && rs[k].Has(a)
    ensures i == k
  {
    Later(rs, k);
  }

  /**
    A guest buffer on an affinely mapped run inside one region: every byte has a host address, and
    they are consecutive. What the host reads from the first one on is what the guest stored there.
   */
  lemma {:induction false} HostContiguous(rs: seq<Region>, m: Memory, pages: map<nat, nat>, k: nat, gva: nat,
        n: nat, j: nat)
    requires WellFormed(rs) && Holds(rs, m) && Affine(pages, gva, n) && j < n && k < |rs|
    requires Vpn(gva) in pages && rs[k].Has(Translate(pages, gva)) && rs[k].Has(Translate(pages, gva) + n - 1)
    ensures Vpn(GvaPlus(gva, j)) in pages && Translate(pages, GvaPlus(gva, j)) in m
    ensures var t := Translate(pages, gva);
            && 0 <= t - rs[k].gpa + j < rs[k].hva.Length
            && m[Translate(pages, GvaPlus(gva, j))] == rs[k].hva[t - rs[k].gpa + j]
            && forall p :: PointsTo(rs, Translate(pages, GvaPlus(gva, j)), p) <==> p == At(rs[k].hva, t - rs[k].gpa + j)
  {
    hide Affine, Translate, Vpn, InRegions, Before;
    AffineByte(pages, gva, n, j);
    var a := Translate(pages, gva) + j;
    assert rs[k].Has(a) && Proper(rs[k]);
    forall p | PointsTo(rs, a, p) ensures p == At(rs[k].hva, a - rs[k].gpa) {
      var i :| 0 <= i < |rs| && rs[i].Has(a) && p == At(rs[i].hva, a - rs[i].gpa);
      OneRegion(rs, i, k, a);
    }
  }

  /** The n bytes from address a on lie in one region. */
  ghost predicate InOneRegion(rs: seq<Region>, a: int, n: nat) {
    exists k :: 0 <= k < |rs| && rs[k].Has(a) && rs[k].Has(a + n - 1)
  }

  /** Every byte of the buffer is on a mapped page. */
  ghost predicate Mapped(pages: map<nat, nat>, gva: nat, n: nat) {
    forall j :: 0 <= j < n ==> Vpn(GvaPlus(gva, j)) in pages
  }

  /** The bytes of the buffer translate to consecutive addresses. */
  ghost predicate Straight(pages: map<nat, nat>, gva: nat, n: nat)
    requires Mapped(pages, gva, n) && n >= 1
  {
    forall j :: 0 <= j < n ==> Translate(pages, GvaPlus(gva, j)) == Translate(pages, GvaPlus(gva, 0)) + j
  }

  lemma {:induction false} AffineStraight(pages: map<nat, nat>, gva: U64, n: nat)
    requires Affine(pages, gva, n) && n >= 1
    ensures Mapped(pages, gva, n) && Straight(pages, gva, n)
  {
    hide Affine, Translate, Vpn, GvaPlus;
    AffineByte(pages, gva, n, 0);
    forall j | 0 <= j < n
      ensures Vpn(GvaPlus(gva, j)) in pages && Translate(pages, GvaPlus(gva, j)) == Translate(pages, gva) + j
    {
      AffineByte(pages, gva, n, j);
    }
  }

  /** The host finds every byte of the guest's buffer at its index from p. */
  ghost predicate Contiguous(rs: seq<Region>, pages: map<nat, nat>, gva: nat, n: nat, p: HostPtr)
    requires Mapped(pages, gva, n) && p.At?
  {
    forall j :: 0 <= j < n ==> PointsTo(rs, Translate(pages, GvaPlus(gva, j)), At(p.buf, p.off + j))
  }

  /** Two regions with the same buffer are the same. */
  lemma SameBuffer(rs: seq<Region>, i: nat, k: nat)
    requires WellFormed(rs) && i < |rs| && k < |rs| && rs[i].hva == rs[k].hva
    ensures i == k
  {
    assert i < k ==> Before(rs[i], rs[k]);
    assert k < i ==> Before(rs[k], rs[i]);
  }

  /** A place in region k's buffer stands for one address of that region and no other. */
  lemma PlaceInRegion(rs: seq<Region>, k: nat, a: int, off: nat)
    requires WellFormed(rs) && k < |rs|
    ensures PointsTo(rs, a, At(rs[k].hva, off)) <==> rs[k].Has(a) && off == a - rs[k].gpa
  {
    if PointsTo(rs, a, At(rs[k].hva, off)) {
      var i :| 0 <= i < |rs| && rs[i].Has(a) && At(rs[k].hva, off) == At(rs[i].hva, a - rs[i].gpa);
      SameBuffer(rs, i, k);
    }
  }

  /**
    What the host reads or writes from p on is the guest's buffer, byte for byte, exactly when the
    buffer is straight and lies in one region. A straight buffer in two regions runs past the end of the
    first one's host buffer.
   */
  lemma {:induction false} HostContiguousIff(rs: seq<Region>, pages: map<nat, nat>, gva: nat, n: nat, p: HostPtr)
    requires WellFormed(rs) && Mapped(pages, gva, n) && n >= 1
    requires PointsTo(rs, Translate(pages, GvaPlus(gva, 0)), p)
    ensures Contiguous(rs, pages, gva, n, p) <==>
            Straight(pages, gva, n) && InOneRegion(rs, Translate(pages, GvaPlus(gva, 0)), n)
    ensures Straight(pages, gva, n) ==> (Contiguous(rs, pages, gva, n, p) <==> p.off + n <= p.buf.Length)
  {
    hide Translate, Vpn, Before, GvaPlus, PointsTo, InOneRegion;
    var a := Translate(pages, GvaPlus(gva, 0));
    var k := RegionOf(rs, a, p);
    forall j | 0 <= j < n
      ensures var t := Translate(pages, GvaPlus(gva, j));
              PointsTo(rs, t, At(p.buf, p.off + j)) <==> rs[k].Has(t) && t == a + j
    {
      PlaceInRegion(rs, k, Translate(pages, GvaPlus(gva, j)), p.off + j);
    }
    OneRegionMeans(rs, a, n, k);
    if Contiguous(rs, pages, gva, n, p) {
      forall j | 0 <= j < n ensures Translate(pages, GvaPlus(gva, j)) == a + j && rs[k].Has(a + j) {
        assert PointsTo(rs, Translate(pages, GvaPlus(gva, j)), At(p.buf, p.off + j));
      }
      assert Translate(pages, GvaPlus(gva, n - 1)) == a + (n - 1);
    }
  }

  lemma RegionOf(rs: seq<Region>, a: int, p: HostPtr) returns (k: nat)
    requires WellFormed(rs) && PointsTo(rs, a, p)
    ensures k < |rs| && rs[k].Has(a) && p == At(rs[k].hva, a - rs[k].gpa) && p.buf.Length == 0x1000 * rs[k].npages
  {
    hide Before;
    k :| 0 <= k < |rs| && rs[k].Has(a) && p == At(rs[k].hva, a - rs[k].gpa);
    assert Proper(rs[k]);
  }

  lemma OneRegionMeans(rs: seq<Region>, a: int, n: nat, k: nat)
    requires WellFormed(rs) && k < |rs| && rs[k].Has(a) && n >= 1
    ensures InOneRegion(rs, a, n) <==> rs[k].Has(a + n - 1)
  {
    hide Before;
    if InOneRegion(rs, a, n) {
      var i :| 0 <= i < |rs| && rs[i].Has(a) && rs[i].Has(a + n - 1);
      OneRegion(rs, i, k, a);
    }
  }

  // ---- start-up and translation together ----

  /**
    After a successful start, under any later writes that avoid the tables: every byte of the first 64 KB
    and of the page-rounded image is walked to itself, exactly when the image ends at or below 2^48.
   */
  lemma {:induction false} StartedWalks(vm: VmMem, cpu: Cpu, kernel: seq<Byte>, image: seq<Byte>,
        argv: seq<seq<Byte>>, entry: nat, writes: seq<(int, seq<Byte>)>, stale: seq<Byte>)
    requires Started(vm, cpu, kernel, image, argv, entry) && Avoids(vm.tree, writes) && |stale| == 8
    ensures Loader.IMAGE_GPA + |Loader.Padded(image)| <= 0x1_0000_0000_0000 <==>
            forall x :: 0 <= x < 0x10000 || Loader.IMAGE_GPA <= x < Loader.IMAGE_GPA + |Loader.Padded(image)| ==>
              Walk(StoreAll(vm.mem, writes), vm.pml4Gpa, x, stale) == x
  {
    hide Walk, Radix, PagesOf, Translate, Vpn, Avoids, Launched, NoTables, Identity.StartupPages, Loader.Padded,
      Minimal;
    var k, m := Loader.PageCount(|image|), StoreAll(vm.mem, writes);
    var pages := Identity.StartupPages(16, k);
    vm.PagingMeans();
    Identity.StartupIdentityIff(16, k);
    WritesKeepTables(vm.mem, vm.tree, writes);
    forall x | (0 <= x < 0x10000 || 0x1_0000_0000 <= x < 0x1_0000_0000 + 0x1000 * k)
      ensures Vpn(x) in pages && Walk(m, vm.pml4Gpa, x, stale) == Translate(pages, x)
    {
      Identity.StartupMaps(16, k, x);
      WalkIsTranslate(m, vm.tree, x, stale);
    }
  }

  // ---- start-up and hand-off together ----

  /**
    The guest that start-up leaves, wherever its kernel keeps the six cells: after the pops they hold
    entry, argc and argv, the argument strings are still in place, and CR3 is the PML4 address exactly
    when that lies below 4 GB.
   */
  lemma {:induction false} LaunchedHandOff(m: Memory, kernel: seq<Byte>, image: seq<Byte>, argv: seq<seq<Byte>>,
        entry: U64, pml4Gpa: U64, cells: nat)
    requires Launched(m, kernel, image, argv, entry, pml4Gpa) && Fits(kernel, argv)
    requires 0x8000 <= cells && cells + 24 <= 0x8000 + |kernel|
    ensures Backed(m, cells, 24) && Backed(m, 0x6FE4, 28)
    ensures var m' := Put(m, cells, Slice(m, 0x6FE4, 24));
            && Backed(m', cells, 24)
            && Boot.Load64(m', cells) == entry && Boot.Load64(m', cells + 8) == |argv|
            && Boot.Load64(m', cells + 16) == 0x7100
            && ArgvHeld(m', argv, |argv|)
    ensures FromLe(Slice(m, 0x6FE4 + 24, 4)) == pml4Gpa <==> pml4Gpa < 0x1_0000_0000
  {
    hide FromLe, Le, Store, Boot.Load64, BootStack, ArgvHeld, ArgAddr;
    var m' := Put(m, cells, Slice(m, 0x6FE4, 24));
    Boot.HandOffRecovers(m, m', 0x6FE4, cells, entry, |argv|, pml4Gpa);
    CellsAreStore(m, cells, Slice(m, 0x6FE4, 24));
    FitsWindow(kernel, argv);
    StoreKeepsArgv(m, argv, |argv|, cells, Slice(m, 0x6FE4, 24));
  }

  /**
    The hand-off of a started guest: CR3 is the PML4 address, and because the pops store into the kernel,
    which holds no table, every byte still walks to itself.
   */
  lemma {:induction false} HandOffWalks(vm: VmMem, cpu: Cpu, kernel: seq<Byte>, image: seq<Byte>,
        argv: seq<seq<Byte>>, entry: U64, cells: nat, x: nat, stale: seq<Byte>)
    requires Started(vm, cpu, kernel, image, argv, entry) && Fits(kernel, argv) && |stale| == 8
    requires Loader.IMAGE_GPA + |Loader.Padded(image)| <= 0x1_0000_0000_0000
    requires 0x8000 <= cells && cells + 24 <= 0x8000 + |kernel|
    requires 0 <= x < 0x10000 || Loader.IMAGE_GPA <= x < Loader.IMAGE_GPA + |Loader.Padded(image)|
    ensures Backed(vm.mem, cells, 24) && Backed(vm.mem, 0x6FE4, 28)
    ensures FromLe(Slice(vm.mem, 0x6FE4 + 24, 4)) == vm.pml4Gpa
    ensures Walk(Put(vm.mem, cells, Slice(vm.mem, 0x6FE4, 24)), vm.pml4Gpa, x, stale) == x
  {
    hide Walk, Radix, Minimal, Launched, InTables, Loader.Padded, Store, Put, FromLe, Identity.StartupPages, PagesOf;
    LaunchedHandOff(vm.mem, kernel, image, argv, entry, vm.pml4Gpa, cells);
    assert Backed(vm.mem, 0x6FE4, 24);
    var s := Slice(vm.mem, 0x6FE4, 24);
    CellsAreStore(vm.mem, cells, s);
    FitsWindow(kernel, argv);
    var writes := [(cells, s)];
    OneStore(vm.mem, cells, s);
    NoTablesWithin(vm.tree, 0, 0x10000, cells, cells + 24);
    StartedWalks(vm, cpu, kernel, image, argv, entry, writes, stale);
  }

  lemma OneStore(m: Memory, a: int, s: seq<Byte>)
    ensures StoreAll(m, [(a, s)]) == Store(m, a, s)
  {
    assert [(a, s)][..0] == [];
  }

  lemma CellsAreStore(m: Memory, a: int, s: seq<Byte>)
    requires Backed(m, a, |s|)
    ensures Put(m, a, s) == Store(m, a, s)
  {
    StoredIsHeld(m, a, s);
  }
}
