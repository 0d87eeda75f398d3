/** Start-up: memory, CPU, kernel, application, arguments, and the values left on the boot stack. */
module Hvexec {
  import opened Words
  import opened PageTable
  import opened PageMap
  import opened VmMem
  import opened Identity
  import opened Vcpu
  import opened Loader
  import MachO

  const CONF_INIT_NUM_PAGES: int := 16
  const CONF_ARGV_ADDR: int := 0x7100

  // ---- argv ----

  /** Where string i goes: after the strings before it and their NULs. */
  function ArgAddr(argv: seq<seq<Byte>>, i: nat): nat
    requires i <= |argv|
  {
    if i == 0 then 0x7200 else ArgAddr(argv, i - 1) + |argv[i - 1]| + 1
  }

  function PtrAddr(i: nat): nat {
    0x7100 + 8 * i
  }

  /** Memory after the first i rounds of the loop. */
  function ArgvImage(m: Memory, argv: seq<seq<Byte>>, i: nat): (r: Memory)
    requires i <= |argv|
    ensures r.Keys == m.Keys
  {
    if i == 0 then m
    else
      Store(Store(ArgvImage(m, argv, i - 1), PtrAddr(i - 1), Le(ArgAddr(argv, i - 1), 8)),
            ArgAddr(argv, i - 1), argv[i - 1] + [0])
  }

  /** Pointer and string of argument i lie in backed memory. */
  predicate ArgBacked(m: Memory, argv: seq<seq<Byte>>, i: nat)
    requires i < |argv|
  {
    Backed(m, PtrAddr(i), 8) && Backed(m, ArgAddr(argv, i), |argv[i]| + 1)
  }

  lemma {:induction false} ArgAddrGrows(argv: seq<seq<Byte>>, j: nat, i: nat)
    requires j < i <= |argv|
    ensures 0x7200 <= ArgAddr(argv, j) && ArgAddr(argv, j) + |argv[j]| + 1 <= ArgAddr(argv, i)
    decreases i
  {
    if j < i - 1 {
      ArgAddrGrows(argv, j, i - 1);
    } else if j > 0 {
      ArgAddrGrows(argv, j - 1, j);
    }
  }

  lemma NoRounds(m: Memory, argv: seq<seq<Byte>>)
    ensures ArgvImage(m, argv, 0) == m && PtrAddr(0) == 0x7100 && ArgAddr(argv, 0) == 0x7200
  {
  }

  /** What one round stores, and that it stays inside the window. */
  lemma RoundOfLoop(m: Memory, tree: Tree, argv: seq<seq<Byte>>, i: nat, clear: bool)
    requires i < |argv|
    requires clear ==> NoTables(tree, 0x7100, Max(PtrAddr(|argv|), ArgAddr(argv, |argv|)))
    ensures ArgvImage(m, argv, i + 1) ==
            Store(Store(ArgvImage(m, argv, i), PtrAddr(i), Le(ArgAddr(argv, i), 8)), ArgAddr(argv, i), argv[i] + [0])
    ensures clear ==> NoTables(tree, PtrAddr(i), PtrAddr(i) + 8)
    ensures clear ==> NoTables(tree, ArgAddr(argv, i), ArgAddr(argv, i) + |argv[i] + [0]|)
  {
    hide Store, Le, InTables;
    ArgAddrGrows(argv, i, |argv|);
  }

  /** The loop that writes argv: it fails exactly when some pointer or string has no room. */
  method LayoutArgv(vm: VmMem, argv: seq<seq<Byte>>) returns (err: int)
    requires vm.Valid() && forall s :: s in argv ==> |s| + 1 < 0x8000_0000
    modifies vm`mem, Buffers(vm.spine)
    ensures vm.Valid() && (err == 0 || err == -1)
    ensures err == 0 <==> forall i :: 0 <= i < |argv| ==> ArgBacked(old(vm.mem), argv, i)
    ensures err == 0 ==> vm.mem == ArgvImage(old(vm.mem), argv, |argv|)
    ensures vm.mem.Keys == old(vm.mem.Keys)
    ensures old(vm.Paging()) && NoTables(vm.tree, 0x7100, Max(PtrAddr(|argv|), ArgAddr(argv, |argv|))) ==> vm.Paging()
  {
    hide Store, Le, Backed, NoTables, ArgvImage, VmMem.Paging, VmMem.Valid, WellFormed, Linked, Holds;
    ghost var clear := old(vm.Paging()) && NoTables(vm.tree, 0x7100, Max(PtrAddr(|argv|), ArgAddr(argv, |argv|)));
    var argvAddr, argsAddr := 0x7100, 0x7200;
    NoRounds(vm.mem, argv);
    var i := 0;
    while i < |argv|
      invariant i <= |argv| && vm.Valid()
      invariant vm.spine == old(vm.spine)
      invariant argvAddr == PtrAddr(i) && argsAddr == ArgAddr(argv, i)
      invariant vm.mem == ArgvImage(old(vm.mem), argv, i)
      invariant forall j :: 0 <= j < i ==> ArgBacked(old(vm.mem), argv, j)
      invariant clear ==> vm.Paging()
    {
      RoundOfLoop(old(vm.mem), vm.tree, argv, i, clear);
      SameBacked(old(vm.mem), vm.mem, argvAddr, 8);
      var n := vm.VmMemWrite(argvAddr, Le(argsAddr, 8));
      assert clear ==> vm.Paging();
      if n != 8 {
        assert !ArgBacked(old(vm.mem), argv, i);
        return -1;
      }
      SameBacked(old(vm.mem), vm.mem, argsAddr, |argv[i]| + 1);
      n := vm.VmMemWrite(argsAddr, argv[i] + [0]);
      assert clear ==> vm.Paging();
      if n != |argv[i]| + 1 {
        assert !ArgBacked(old(vm.mem), argv, i);
        return -1;
      }
      argvAddr := argvAddr + 8;
      argsAddr := argsAddr + |argv[i]| + 1;
      i := i + 1;
    }
    err := 0;
  }

  lemma SameBacked(m: Memory, m': Memory, a: int, n: nat)
    requires m.Keys == m'.Keys
    ensures Backed(m, a, n) <==> BackedLen(m', a, n) == n
  {
    assert forall x :: x in m <==> x in m.Keys;
    assert forall x :: x in m' <==> x in m'.Keys;
    if Backed(m, a, n) { BackedLenUnique(m', a, n, n); }
  }

  /** Every pointer names its string, and every string is there with its NUL. */
  ghost predicate ArgvHeld(m: Memory, argv: seq<seq<Byte>>, n: nat)
    requires n <= |argv|
  {
    forall j :: 0 <= j < n ==>
      HoldsBytes(m, PtrAddr(j), Le(ArgAddr(argv, j), 8)) && HoldsBytes(m, ArgAddr(argv, j), argv[j] + [0])
  }

  lemma {:induction false} StoreKeepsArgv(m: Memory, argv: seq<seq<Byte>>, n: nat, a: int, s: seq<Byte>)
    requires n <= |argv| && ArgvHeld(m, argv, n)
    requires PtrAddr(n) <= a || a + |s| <= 0x7100
    requires ArgAddr(argv, n) <= a || a + |s| <= 0x7200
    ensures ArgvHeld(Store(m, a, s), argv, n)
  {
    hide Store, HoldsBytes, Le;
    forall j | 0 <= j < n
      ensures HoldsBytes(Store(m, a, s), PtrAddr(j), Le(ArgAddr(argv, j), 8))
      ensures HoldsBytes(Store(m, a, s), ArgAddr(argv, j), argv[j] + [0])
    {
      ArgAddrGrows(argv, j, n);
      StoreKeeps(m, a, s, PtrAddr(j), Le(ArgAddr(argv, j), 8));
      StoreKeeps(m, a, s, ArgAddr(argv, j), argv[j] + [0]);
    }
  }

  /** m' differs from m inside [lo, hi) only. */
  ghost predicate SameOutside(m: Memory, m': Memory, lo: int, hi: int) {
    m.Keys == m'.Keys && forall a :: a in m && !(lo <= a < hi) ==> m'[a] == m[a]
  }

  lemma StoreSameOutside(m: Memory, m1: Memory, a: int, s: seq<Byte>, lo: int, hi: int)
    requires SameOutside(m, m1, lo, hi) && lo <= a && a + |s| <= hi
    ensures SameOutside(m, Store(m1, a, s), lo, hi)
  {
  }

  /**
    With at most 32 arguments whose strings and NULs take at most 0xE00 bytes, the loop leaves every
    pointer and string in place and touches nothing outside 0x7100 to 0x8000.
   */
  lemma {:induction false} ArgvLayout(m: Memory, argv: seq<seq<Byte>>, i: nat)
    requires 8 * |argv| <= 0x100 && ArgAddr(argv, |argv|) <= 0x8000
    requires Backed(m, 0x7100, 0xF00) && i <= |argv|
    ensures ArgvHeld(ArgvImage(m, argv, i), argv, i)
    ensures SameOutside(m, ArgvImage(m, argv, i), 0x7100, 0x8000)
    decreases i
  {
    hide Store, Le, SameOutside, Backed, ArgvHeld, ArgAddr;
    if i > 0 {
      ArgvLayout(m, argv, i - 1);
      ArgAddrGrows(argv, i - 1, |argv|);
      ArgvRound(m, ArgvImage(m, argv, i - 1), argv, i - 1);
    } else {
      SameItself(m);
      NoArgs(m, argv);
    }
  }

  lemma NoArgs(m: Memory, argv: seq<seq<Byte>>)
    ensures ArgvHeld(m, argv, 0)
  {
  }

  lemma SameItself(m: Memory)
    ensures SameOutside(m, m, 0x7100, 0x8000)
  {
  }

  lemma {:induction false} ArgvRound(m: Memory, m1: Memory, argv: seq<seq<Byte>>, i: nat)
    requires i < |argv| && 8 * |argv| <= 0x100 && ArgAddr(argv, i) + |argv[i]| + 1 <= 0x8000
    requires m1.Keys == m.Keys && Backed(m, 0x7100, 0xF00) && 0x7200 <= ArgAddr(argv, i)
    requires ArgvHeld(m1, argv, i) && SameOutside(m, m1, 0x7100, 0x8000)
    ensures var m3 := Store(Store(m1, PtrAddr(i), Le(ArgAddr(argv, i), 8)), ArgAddr(argv, i), argv[i] + [0]);
            ArgvHeld(m3, argv, i + 1) && SameOutside(m, m3, 0x7100, 0x8000)
  {
    hide Store, HoldsBytes, Le, SameOutside, ArgAddr;
    var p, s := Le(ArgAddr(argv, i), 8), argv[i] + [0];
    var m2 := Store(m1, PtrAddr(i), p);
    var m3 := Store(m2, ArgAddr(argv, i), s);
    PartBacked(m, m1, PtrAddr(i), 8);
    PartBacked(m, m2, ArgAddr(argv, i), |s|);
    StoreKeepsArgv(m1, argv, i, PtrAddr(i), p);
    StoredIsHeld(m1, PtrAddr(i), p);
    StoreKeepsArgv(m2, argv, i, ArgAddr(argv, i), s);
    StoreKeeps(m2, ArgAddr(argv, i), s, PtrAddr(i), p);
    StoredIsHeld(m2, ArgAddr(argv, i), s);
    StoreSameOutside(m, m1, PtrAddr(i), p, 0x7100, 0x8000);
    StoreSameOutside(m, m2, ArgAddr(argv, i), s, 0x7100, 0x8000);
  }

  lemma PartBacked(m: Memory, m': Memory, a: int, n: nat)
    requires m.Keys == m'.Keys && Backed(m, 0x7100, 0xF00)
    requires 0x7100 <= a && a + n <= 0x8000
    ensures Backed(m', a, n)
  {
    forall x | a <= x < a + n ensures x in m' {
      assert x in m.Keys;
    }
  }

  // ---- what start-up leaves in memory ----

  function LowImage(m: Memory, pml4Gpa: nat, kernel: seq<Byte>): (r: Memory)
    ensures r.Keys == m.Keys
  {
    Store(SetupImage(m, pml4Gpa), 0x8000, kernel)
  }

  /** The three pushes below the PML4 address. */
  function StackImage(m: Memory, argc: nat, entry: nat): Memory {
    Store(Store(Store(m, 0x6FF4, Le(CONF_ARGV_ADDR, 8)), 0x6FEC, Le(argc, 8)), 0x6FE4, Le(entry, 8))
  }

  /** The four descriptors at address 0. */
  function Gdt(): (s: seq<Byte>)
    ensures |s| == 32
  {
    Le(GDT_NULL, 8) + (Le(GDT_NULL, 8) + (Le(GDT_CODE, 8) + Le(GDT_DATA, 8)))
  }

  /** The boot stack, from its top. */
  function BootStack(entry: nat, argc: nat, pml4Gpa: nat): (s: seq<Byte>)
    ensures |s| == 28
  {
    Le(entry, 8) + (Le(argc, 8) + (Le(CONF_ARGV_ADDR, 8) + Le(pml4Gpa, 8)[..4]))
  }

  /** Storing t right behind what is held at a extends it. */
  lemma {:induction false} HeldExtend(m: Memory, a: nat, s: seq<Byte>, t: seq<Byte>)
    requires Backed(m, 0, 0x10000) && a + |s| + |t| <= 0x10000 && HoldsBytes(m, a, s)
    ensures HoldsBytes(Store(m, a + |s|, t), a, s + t) && Store(m, a + |s|, t).Keys == m.Keys
    ensures Backed(Store(m, a + |s|, t), 0, 0x10000)
  {
    hide Store, HoldsBytes, Backed;
    LowBacked(m, m, a + |s|, |t|);
    LowBacked(m, Store(m, a + |s|, t), 0, 0x10000);
    StoredIsHeld(m, a + |s|, t);
    StoreKeeps(m, a + |s|, t, a, s);
    HeldJoin(Store(m, a + |s|, t), a, s, t);
  }

  lemma {:induction false} GdtHeld(m: Memory)
    requires Backed(m, 0, 0x10000)
    ensures HoldsBytes(GdtImage(m), 0, Gdt())
  {
    hide Store, Le, Backed;
    var n, c, d := Le(GDT_NULL, 8), Le(GDT_CODE, 8), Le(GDT_DATA, 8);
    LowBacked(m, m, 0, 0);
    assert HoldsBytes(m, 0, []);
    hide HoldsBytes;
    HeldExtend(m, 0, [], n);
    assert [] + n == n;
    var m1 := Store(m, 0, n);
    HeldExtend(m1, 0, n, n);
    var m2 := Store(m1, 8, n);
    HeldExtend(m2, 0, n + n, c);
    var m3 := Store(m2, 16, c);
    HeldExtend(m3, 0, n + n + c, d);
    assert n + n + c + d == Gdt();
  }

  lemma {:induction false} LowHeld(m: Memory, pml4Gpa: nat, kernel: seq<Byte>)
    requires Backed(m, 0, 0x10000) && |kernel| <= 0x8000
    ensures var r := LowImage(m, pml4Gpa, kernel);
            && r.Keys == m.Keys
            && HoldsBytes(r, 0, Gdt())
            && HoldsBytes(r, 0x6FFC, Le(pml4Gpa, 8)[..4])
            && HoldsBytes(r, 0x8000, kernel)
  {
    hide Store, HoldsBytes, Le, Backed, Gdt;
    var p, g := Le(pml4Gpa, 8)[..4], GdtImage(m);
    var m1 := SetupImage(m, pml4Gpa);
    GdtHeld(m);
    LowBacked(m, g, 0x6FFC, 4);
    LowBacked(m, m1, 0x8000, |kernel|);
    StoreKeeps(g, 0x6FFC, p, 0, Gdt());
    StoredIsHeld(g, 0x6FFC, p);
    StoreKeeps(m1, 0x8000, kernel, 0, Gdt());
    StoreKeeps(m1, 0x8000, kernel, 0x6FFC, p);
    StoredIsHeld(m1, 0x8000, kernel);
  }

  lemma LowBacked(m: Memory, m': Memory, a: nat, n: nat)
    requires m.Keys == m'.Keys && Backed(m, 0, 0x10000) && a + n <= 0x10000
    ensures Backed(m', a, n)
  {
    forall x | a <= x < a + n ensures x in m' {
      assert x in m.Keys;
    }
  }

  lemma {:induction false} StackHeld(m: Memory, argc: nat, entry: nat, pml4Gpa: nat)
    requires Backed(m, 0, 0x10000) && HoldsBytes(m, 0x6FFC, Le(pml4Gpa, 8)[..4])
    ensures HoldsBytes(StackImage(m, argc, entry), 0x6FE4, BootStack(entry, argc, pml4Gpa))
  {
    hide Store, HoldsBytes, Le, Backed;
    var v, c, e, p := Le(CONF_ARGV_ADDR, 8), Le(argc, 8), Le(entry, 8), Le(pml4Gpa, 8)[..4];
    var m1 := Store(m, 0x6FF4, v);
    var m2 := Store(m1, 0x6FEC, c);
    var m3 := Store(m2, 0x6FE4, e);
    LowBacked(m, m, 0x6FF4, 8);
    LowBacked(m, m1, 0x6FEC, 8);
    LowBacked(m, m2, 0x6FE4, 8);
    StoreKeeps(m, 0x6FF4, v, 0x6FFC, p);
    StoredIsHeld(m, 0x6FF4, v);
    HeldJoin(m1, 0x6FF4, v, p);
    StoreKeeps(m1, 0x6FEC, c, 0x6FF4, v + p);
    StoredIsHeld(m1, 0x6FEC, c);
    HeldJoin(m2, 0x6FEC, c, v + p);
    StoreKeeps(m2, 0x6FE4, e, 0x6FEC, c + (v + p));
    StoredIsHeld(m2, 0x6FE4, e);
    HeldJoin(m3, 0x6FE4, e, c + (v + p));
  }

  lemma {:induction false} StackKeeps(m: Memory, argc: nat, entry: nat, b: int, t: seq<Byte>)
    requires HoldsBytes(m, b, t) && (b + |t| <= 0x6FE4 || 0x7000 <= b)
    ensures HoldsBytes(StackImage(m, argc, entry), b, t)
  {
    hide Store, HoldsBytes, Le;
    var m1 := Store(m, 0x6FF4, Le(CONF_ARGV_ADDR, 8));
    var m2 := Store(m1, 0x6FEC, Le(argc, 8));
    StoreKeeps(m, 0x6FF4, Le(CONF_ARGV_ADDR, 8), b, t);
    StoreKeeps(m1, 0x6FEC, Le(argc, 8), b, t);
    StoreKeeps(m2, 0x6FE4, Le(entry, 8), b, t);
  }

  lemma {:induction false} StackKeepsArgv(m: Memory, argc: nat, entry: nat, argv: seq<seq<Byte>>)
    requires ArgvHeld(m, argv, |argv|)
    ensures ArgvHeld(StackImage(m, argc, entry), argv, |argv|)
  {
    hide Store, ArgvHeld, Le;
    var m1 := Store(m, 0x6FF4, Le(CONF_ARGV_ADDR, 8));
    var m2 := Store(m1, 0x6FEC, Le(argc, 8));
    StoreKeepsArgv(m, argv, |argv|, 0x6FF4, Le(CONF_ARGV_ADDR, 8));
    StoreKeepsArgv(m1, argv, |argv|, 0x6FEC, Le(argc, 8));
    StoreKeepsArgv(m2, argv, |argv|, 0x6FE4, Le(entry, 8));
  }

  /** What the guest finds when it starts. */
  ghost predicate Launched(m: Memory, kernel: seq<Byte>, image: seq<Byte>, argv: seq<seq<Byte>>, entry: nat,
        pml4Gpa: nat) {
    && HoldsBytes(m, 0, Gdt())
    && HoldsBytes(m, 0x6FE4, BootStack(entry, |argv|, pml4Gpa))
    && ArgvHeld(m, argv, |argv|)
    && HoldsBytes(m, 0x8000, kernel)
    && HoldsBytes(m, IMAGE_GPA, Padded(image))
  }

  /** The inputs leave each other's memory and the page tables alone. */
  predicate Fits(kernel: seq<Byte>, argv: seq<seq<Byte>>) {
    |kernel| <= 0x8000 && 8 * |argv| <= 0x100 && ArgAddr(argv, |argv|) <= 0x8000
  }

  /** The order of start-up: low memory, then the image, then the arguments, then the pushes. */
  lemma {:induction false} LaunchMemory(m0: Memory, m3: Memory, kernel: seq<Byte>, image: seq<Byte>,
        argv: seq<seq<Byte>>, entry: nat, pml4Gpa: nat)
    requires Backed(m0, 0, 0x10000) && Fits(kernel, argv)
    requires forall a :: 0 <= a < 0x10000 ==> a in m3 && m3[a] == LowImage(m0, pml4Gpa, kernel)[a]
    requires HoldsBytes(m3, IMAGE_GPA, Padded(image))
    ensures Launched(StackImage(ArgvImage(m3, argv, |argv|), |argv|, entry), kernel, image, argv, entry, pml4Gpa)
  {
    hide Store, HoldsBytes, Le, LowImage, StackImage, ArgvImage, ArgvHeld, BootStack, Gdt, Padded, ArgAddr;
    var low, m4 := LowImage(m0, pml4Gpa, kernel), ArgvImage(m3, argv, |argv|);
    LowHeld(m0, pml4Gpa, kernel);
    var p := Le(pml4Gpa, 8)[..4];
    HeldSame(low, m3, 0, Gdt());
    HeldSame(low, m3, 0x6FFC, p);
    HeldSame(low, m3, 0x8000, kernel);
    ArgvLayout(m3, argv, |argv|);
    KeptOutside(m3, m4, 0, Gdt());
    KeptOutside(m3, m4, 0x6FFC, p);
    KeptOutside(m3, m4, 0x8000, kernel);
    KeptOutside(m3, m4, IMAGE_GPA, Padded(image));
    LowBacked(m3, m4, 0, 0x10000);
    StackHeld(m4, |argv|, entry, pml4Gpa);
    StackKeeps(m4, |argv|, entry, 0, Gdt());
    StackKeeps(m4, |argv|, entry, 0x8000, kernel);
    StackKeeps(m4, |argv|, entry, IMAGE_GPA, Padded(image));
    StackKeepsArgv(m4, |argv|, entry, argv);
  }

  lemma KeptOutside(m: Memory, m': Memory, b: int, t: seq<Byte>)
    requires HoldsBytes(m, b, t) && SameOutside(m, m', 0x7100, 0x8000)
    requires b + |t| <= 0x7100 || 0x8000 <= b
    ensures HoldsBytes(m', b, t)
  {
    forall i | b <= i < b + |t| ensures i in m' && m'[i] == m[i] {
      assert i in m && i in m'.Keys;
    }
    HeldSame(m, m', b, t);
  }

  /**
    Pages, regions, memory, registers and control fields after a successful start. No table lies in low
    memory or in the image, and the PML4 is one of the four pages behind low memory.
   */
  ghost predicate Started(vm: VmMem, cpu: Cpu, kernel: seq<Byte>, image: seq<Byte>, argv: seq<seq<Byte>>, entry: nat)
    reads vm, cpu
  {
    && vm.Paging() && vm.pml4 != null
    && vm.Pages() == StartupPages(16, PageCount(|image|))
    && NoTables(vm.tree, 0, 0x10000) && NoTables(vm.tree, IMAGE_GPA, IMAGE_GPA + |Padded(image)|)
    && HasRegion(vm.spine, 0, 16) && HasRegion(vm.spine, IMAGE_GPA, PageCount(|image|))
    && IMAGE_GPA + |Padded(image)| <= 0x10_0000_0000_0000
    && vm.pml4Gpa < 0x14000
    && Launched(vm.mem, kernel, image, argv, entry, vm.pml4Gpa)
    && cpu.regs == InitialRegs(cpu.regs).(rsp := 0x6FE4)
    && cpu.efer == 0 && cpu.entryCtls == 0x91ff && cpu.cr0Shadow == 0x21
  }

  /** The three pushes at the end of main; their results are not checked. */
  method PushStartup(vm: VmMem, cpu: Cpu, argc: nat, entry: U64)
    requires vm.Valid() && cpu.regs.rsp == 0x6FFC && argc < 0x8000_0000
    modifies cpu`regs, vm`mem, Buffers(vm.spine)
    ensures vm.Valid() && vm.mem.Keys == old(vm.mem.Keys)
    ensures Backed(old(vm.mem), 0, 0x10000) ==>
      && vm.mem == StackImage(old(vm.mem), argc, entry)
      && cpu.regs == old(cpu.regs).(rsp := 0x6FE4)
      && (old(vm.Paging()) && NoTables(vm.tree, 0, 0x10000) ==> vm.Paging())
  {
    hide Store, Le, NoTables, Backed, VmMem.Paging, VmMem.Valid, WellFormed, Linked, Holds;
    ghost var low := Backed(vm.mem, 0, 0x10000);
    ghost var clear := old(vm.Paging()) && NoTables(vm.tree, 0, 0x10000);
    if low { LowBacked(vm.mem, vm.mem, 0x6FF4, 8); }
    if clear {
      NoTablesWithin(vm.tree, 0, 0x10000, 0x6FF4, 0x6FFC);
      NoTablesWithin(vm.tree, 0, 0x10000, 0x6FEC, 0x6FF4);
      NoTablesWithin(vm.tree, 0, 0x10000, 0x6FE4, 0x6FEC);
    }
    assert Below(0x6FFC, 8) == 0x6FF4 && Below(0x6FF4, 8) == 0x6FEC && Below(0x6FEC, 8) == 0x6FE4;
    var err := cpu.Push64(vm, CONF_ARGV_ADDR);
    assert clear && low ==> vm.Paging();
    if low { LowBacked(old(vm.mem), vm.mem, 0x6FEC, 8); }
    err := cpu.Push64(vm, argc);
    assert clear && low ==> vm.Paging();
    if low { LowBacked(old(vm.mem), vm.mem, 0x6FE4, 8); }
    err := cpu.Push64(vm, entry);
  }

  lemma NoTablesWithin(tree: Tree, lo: int, hi: int, a: int, b: int)
    requires NoTables(tree, lo, hi) && lo <= a && b <= hi
    ensures NoTables(tree, a, b)
  {
  }

  lemma FitsWindow(kernel: seq<Byte>, argv: seq<seq<Byte>>)
    ensures Fits(kernel, argv) ==> |kernel| <= 0x8000 && Max(PtrAddr(|argv|), ArgAddr(argv, |argv|)) <= 0x8000
  {
  }

  /** Mapping the image does not touch low memory. */
  lemma KeptLow(m: Memory, tree: Tree, m': Memory, tree': Tree)
    requires Kept(m, tree, m', tree') && Backed(m, 0, 0x10000) && NoTables(tree, 0, 0x10000)
    ensures forall a :: 0 <= a < 0x10000 ==> a in m' && m'[a] == m[a]
    ensures Backed(m', 0, 0x10000) && NoTables(tree', 0, 0x10000)
  {
    hide InTables;
  }

  lemma AllBacked(m: Memory)
    requires forall a :: 0 <= a < 0x10000 ==> a in m
    ensures Backed(m, 0, 0x10000)
  {
  }

  lemma NoPages()
    ensures PagesOf(map[]) == map[] && Tables(map[]) == {}
  {
  }

  /** The sixteen pages of start-up share every prefix, so they take four tables. */
  lemma {:induction false} FourTables(m: Memory, tree: Tree)
    requires Radix(m, tree) && Minimal(tree) && PagesOf(tree) == MapRun(map[], 0, 0, 16)
    ensures |Tables(tree)| == 4
  {
    hide Radix, Minimal, PagesOf, Tables, Above, MapRun;
    var vs := PagesOf(tree).Keys;
    forall v | v in vs ensures v < 16 { FirstPages(16, v); }
    FirstPages(16, 0);
    forall l | 1 <= l <= 3 ensures Prefixes(vs, l) == {0} {
      forall v | v < 16 ensures Above(v, l) == 0 { AboveValues(v); }
      assert Above(0, l) in Prefixes(vs, l);
    }
    assert |{0}| == 1;
    TableCount(m, tree);
  }

  lemma {:induction false} FirstPages(n: nat, v: nat)
    requires n <= 16
    ensures v in MapRun(map[], 0, 0, n) <==> v < n
  {
    hide PhysAt;
    if n > 0 {
      FirstPages(n - 1, v);
      assert VirtAt(0, n - 1) == n - 1;
    }
  }

  /** The image's place is above every region of start-up. */
  lemma ImagePlaceFree(rs: seq<Region>, n: nat)
    requires WellFormed(rs) && Top(rs) <= IMAGE_GPA
    ensures Free(rs, IMAGE_GPA, n)
  {
    if rs != [] { Later(rs, |rs| - 1); }
  }

  /** Inputs that fit have room for every argument. */
  lemma RoomForArgs(m: Memory, kernel: seq<Byte>, argv: seq<seq<Byte>>)
    requires Backed(m, 0, 0x10000) && Fits(kernel, argv)
    ensures forall i :: 0 <= i < |argv| ==> ArgBacked(m, argv, i)
    ensures Backed(m, 0x8000, |kernel|)
  {
    hide Backed, ArgAddr;
    LowBacked(m, m, 0x8000, |kernel|);
    forall i | 0 <= i < |argv| ensures ArgBacked(m, argv, i) {
      ArgAddrGrows(argv, i, |argv|);
      LowBacked(m, m, PtrAddr(i), 8);
      LowBacked(m, m, ArgAddr(argv, i), |argv[i]| + 1);
    }
  }

  /** The root table lies below the end of a packed list. */
  lemma RootBelowTop(rs: seq<Region>, tree: Tree)
    requires WellFormed(rs) && Owned(rs, tree) && ROOT in tree
    ensures 0x1000 * tree[ROOT] + 0x1000 <= Top(rs)
  {
    assert HasPage(rs, tree[ROOT]);
    var r :| r in rs && r.gpa == 0x1000 * tree[ROOT] && r.npages == 1;
    Later(rs, |rs| - 1);
  }

  /** On an empty list the lowest free place is 0. */
  lemma FirstAtZero(fit: nat, npages: nat)
    requires LowestFree([], fit, npages)
    ensures fit == 0
  {
    NothingMeets(0, npages);
  }

  /** The root is in every tree of tables. */
  lemma HasRoot(m: Memory, tree: Tree)
    requires Radix(m, tree)
    ensures ROOT in tree
  {
    hide OwnPages;
  }

  /**
    VmMemInit on a new manager: memory is backed from 0 without a gap, the image's place stays free, and
    the PML4 is one of the four pages behind it.
   */
  method InitMemory(vm: VmMem) returns (err: int)
    requires vm.Valid() && vm.Paging() && vm.pml4 == null && vm.spine == []
    modifies vm
    ensures vm.Valid() && (err == 0 || err == -1)
    ensures PagesAfter(old(vm.requests) + AllocRequests(vm.policy, |old(vm.requests)|, 0, 16), vm.requests, vm.mem)
    ensures forall b :: b in Buffers(vm.spine) ==> fresh(b)
    ensures forall i :: 0 <= i < |vm.spine| ==> fresh(vm.spine[i])
    ensures err == 0 ==> vm.pml4 != null && HasRegion(vm.spine, 0, 16) && forall n: nat :: Free(vm.spine, IMAGE_GPA, n)
    ensures AllGranted(vm.policy, vm.requests, |old(vm.requests)|) ==>
      && err == 0 && vm.Paging() && vm.Pages() == MapRun(map[], 0, 0, 16)
      && NoTables(vm.tree, 0, 0x10000) && Backed(vm.mem, 0, 0x10000) && vm.pml4Gpa < 0x14000
  {
    hide NoTables, Backed, InTables, MapRun, PagesOf, Free, LowestFree, AllocRequests, AllGranted, PagesAfter,
      Tables, Packed, Radix, Minimal, Owned, VmMem.Valid, WellFormed, Linked, Holds;
    assert Free(vm.spine, 0, 16) by { NothingMeets(0, 16); }
    NoPages();
    assert vm.Pages() == map[] && Tables(vm.tree) == {};
    ghost var fit;
    err, fit := vm.VmMemInit(CONF_INIT_NUM_PAGES);
    FirstAtZero(fit, 16);
    if err == 0 {
      vm.ValidMeans();
      forall n: nat ensures Free(vm.spine, IMAGE_GPA, n) { ImagePlaceFree(vm.spine, n); }
      if AllGranted(vm.policy, vm.requests, |old(vm.requests)|) {
        assert Backed(vm.mem, 0, 0x10000) by { AllBacked(vm.mem); }
        FourTables(vm.mem, vm.tree);
        HasRoot(vm.mem, vm.tree);
        RootBelowTop(vm.spine, vm.tree);
      }
    }
  }

  lemma NothingMeets(gpa: nat, npages: nat)
    ensures Free([], gpa, npages)
  {
  }

  /** Memory, CPU and kernel: what main does before it loads the application. m0 is memory as first backed. */
  method Prepare(vm: VmMem, cpu: Cpu, kernel: seq<Byte>) returns (err: int, ghost m0: Memory)
    requires vm.Valid() && vm.Paging() && vm.pml4 == null && vm.spine == [] && |kernel| < 0x8000_0000
    modifies vm, cpu
    ensures vm.Valid() && (err == 0 || err == -1)
    ensures PagesAfter(old(vm.requests) + AllocRequests(vm.policy, |old(vm.requests)|, 0, 16), vm.requests, vm.mem)
    ensures forall b :: b in Buffers(vm.spine) ==> fresh(b)
    ensures forall i :: 0 <= i < |vm.spine| ==> fresh(vm.spine[i])
    ensures err == 0 ==>
      && vm.pml4 != null && HasRegion(vm.spine, 0, 16) && (forall n: nat :: Free(vm.spine, IMAGE_GPA, n))
      && cpu.regs == InitialRegs(old(cpu.regs))
      && cpu.efer == 0 && cpu.entryCtls == 0x91ff && cpu.cr0Shadow == 0x21
    ensures AllGranted(vm.policy, vm.requests, |old(vm.requests)|) && |kernel| <= 0x8000 ==>
      && err == 0 && vm.Paging() && vm.Pages() == MapRun(map[], 0, 0, 16) && vm.pml4Gpa < 0x14000
      && NoTables(vm.tree, 0, 0x10000) && Backed(m0, 0, 0x10000) && vm.mem == LowImage(m0, vm.pml4Gpa, kernel)
  {
    hide Store, NoTables, Backed, MapRun, SetupImage, Free, AllGranted, AllocRequests, PagesAfter, HasRegion,
      VmMem.Paging, VmMem.Valid, WellFormed, Linked, Holds;
    err := InitMemory(vm);
    m0 := vm.mem;
    if err != 0 { return -1, m0; }
    if AllGranted(vm.policy, vm.requests, |old(vm.requests)|) && |kernel| <= 0x8000 {
      NoTablesWithin(vm.tree, 0, 0x10000, 0, 0x7000);
      NoTablesWithin(vm.tree, 0, 0x10000, 0x8000, 0x8000 + |kernel|);
      LowBacked(m0, SetupImage(m0, vm.pml4Gpa), 0x8000, |kernel|);
    }
    cpu.SetupIa32(vm);
    err := LoadRaw(vm, kernel, CONF_START_ADDR);
    PagesAfterGrows(old(vm.requests) + AllocRequests(vm.policy, |old(vm.requests)|, 0, 16), vm.requests, m0, vm.mem);
  }

  /**
    main up to vcpu_run. It asks for the sixteen pages, for single pages (mid is the log up to there),
    then for the application's file and place, and for single pages again. When the host grants every
    request and the inputs fit, it succeeds exactly for an application that is not empty, and the guest
    then finds its GDT, boot stack, arguments, kernel and image, under the page map of start-up.
   */
  method Launch(vm: VmMem, cpu: Cpu, kernel: seq<Byte>, image: seq<Byte>, argv: seq<seq<Byte>>)
    returns (err: int, entry: U64, ghost mid: seq<Request>)
    requires vm.Valid() && vm.Paging() && vm.pml4 == null && vm.spine == []
    requires |kernel| < 0x8000_0000 && |image| < 0x8000_0000_0000_0000 && |argv| < 0x8000_0000
    requires forall s :: s in argv ==> |s| + 1 < 0x8000_0000
    requires !MachO.ShouldSwapBytes(MachO.Word(image, 0)) || MachO.IsFat(MachO.Word(image, 0))
    modifies vm, cpu
    ensures vm.Valid() && (err == 0 || err == -1)
    ensures PagesAfter(old(vm.requests) + AllocRequests(vm.policy, |old(vm.requests)|, 0, 16), mid, vm.mem)
    ensures (err == -1 && vm.requests == mid)
            || PagesAfter(mid + FileRequests(vm.policy, |mid|, [], |image|), vm.requests, vm.mem)
    ensures err == 0 ==> |image| > 0
    ensures err == 0 && MachO.Entry(image).Some? ==> entry == Wrap(MachO.Entry(image).value.entryoff + IMAGE_GPA)
    ensures AllGranted(vm.policy, vm.requests, |old(vm.requests)|) && Fits(kernel, argv) ==>
      (err == 0 <==> |image| > 0) && (err == 0 ==> Started(vm, cpu, kernel, image, argv, entry))
  {
    hide Store, Le, NoTables, Backed, InTables, Kept, MapRun, PagesOf, Padded, PageCount, SetupImage, StackImage,
      ArgvImage, Wrap, Launched, Fits, HoldsBytes, Free, AllGranted, AllocRequests, FileRequests, PagesAfter,
      HasRegion, VmMem.Paging, VmMem.Valid, WellFormed, Linked, Holds, MachO.Entry;
    entry :| 0 <= entry < 0x1_0000_0000_0000_0000;
    ghost var policy, log0 := vm.policy, vm.requests;
    ghost var m0;
    err, m0 := Prepare(vm, cpu, kernel);
    mid := vm.requests;
    FitsWindow(kernel, argv);
    if err != 0 { return -1, entry, mid; }
    ghost var m2, t2, rs := vm.mem, vm.tree, vm.spine;
    NothingInTheWay(policy, |mid|, vm.spine, |image|);
    err, entry := LoadMachObj(vm, image, entry);
    ghost var low := log0 + AllocRequests(policy, |log0|, 0, 16);
    ghost var app := mid + FileRequests(policy, |mid|, [], |image|);
    PagesAfterGrows(low, mid, m2, vm.mem);
    PagesAfterPrefix(log0, AllocRequests(policy, |log0|, 0, 16), mid, m2);
    PagesAfterPrefix(mid, FileRequests(policy, |mid|, [], |image|), vm.requests, vm.mem);
    GrantedSplit(policy, mid, vm.requests, |log0|);
    if err != 0 { return -1, entry, mid; }
    ghost var good := AllGranted(policy, vm.requests, |log0|) && Fits(kernel, argv);
    ghost var m3 := vm.mem;
    if good {
      LowBacked(m0, m2, 0, 0x10000);
      KeptLow(m2, t2, m3, vm.tree);
      RoomForArgs(m3, kernel, argv);
      NoTablesWithin(vm.tree, 0, 0x10000, 0x7100, Max(PtrAddr(|argv|), ArgAddr(argv, |argv|)));
      ImageClear(vm.tree, |Padded(image)|);
      RegionStays(rs, vm.spine, 0, 16);
    }
    err := LayoutArgv(vm, argv);
    PagesAfterGrows(low, mid, m3, vm.mem);
    PagesAfterGrows(app, vm.requests, m3, vm.mem);
    if err != 0 { return -1, entry, mid; }
    if good { LowBacked(m3, vm.mem, 0, 0x10000); }
    assert good ==> vm.Paging();
    ghost var m4 := vm.mem;
    PushStartup(vm, cpu, |argv|, entry);
    PagesAfterGrows(low, mid, m4, vm.mem);
    PagesAfterGrows(app, vm.requests, m4, vm.mem);
    if good {
      LaunchMemory(m0, m3, kernel, image, argv, entry, vm.pml4Gpa);
    }
    err := 0;
  }

  lemma ImageClear(tree: Tree, n: nat)
    requires forall i :: IMAGE_GPA <= i < IMAGE_GPA + n ==> !InTables(tree, i)
    ensures NoTables(tree, IMAGE_GPA, IMAGE_GPA + n)
  {
  }

  lemma RegionStays(rs: seq<Region>, rs': seq<Region>, gpa: nat, npages: nat)
    requires HasRegion(rs, gpa, npages) && forall r :: r in rs ==> r in rs'
    ensures HasRegion(rs', gpa, npages)
  {
  }
}
