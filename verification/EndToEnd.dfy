/** The whole program: the guest that start-up leaves, run by the exit loop. */
module EndToEnd {
  import opened Words
  import opened PageTable
  import opened PageMap
  import opened Processor
  import opened VmMem
  import opened Identity
  import opened Vcpu
  import opened Loader
  import opened Hvexec
  import opened MemLaws
  import opened Emu
  import opened Syscalls
  import opened VcpuRun
  import opened RunLaws
  import Boot

  // ---- what an identity map makes of a buffer ----

  /** The low 48 bits of an address. */
  function Low48(x: nat): nat {
    x % 0x1_0000_0000_0000
  }

  lemma PageAndOffset(g: nat)
    ensures Vpn(g) == Low48(g) / 0x1000 && Low48(g) == 0x1000 * Vpn(g) + g % 0x1000
  {
    var j, y := g / 0x1_0000_0000_0000, Low48(g);
    assert g == 0x1000 * (0x10_0000_0000 * j + y / 0x1000) + y % 0x1000;
    Remainder(g, 0x1000, 0x10_0000_0000 * j + y / 0x1000, y % 0x1000);
    Remainder(g / 0x1000, 0x10_0000_0000, j, y / 0x1000);
  }

  lemma {:induction false} IdentityTranslates(pages: map<nat, nat>, g: nat)
    requires IsIdentity(pages) && Vpn(g) in pages
    ensures Translate(pages, g) == Low48(g)
  {
    hide Vpn, Low48;
    PageAndOffset(g);
    SmallMod(Vpn(g));
  }

  /** Byte j of a buffer at gva, before and at the end of the 48-bit space. */
  lemma ByteAt(gva: nat, j: nat)
    ensures Low48(GvaPlus(gva, j)) == Low48(gva + j)
    ensures Low48(gva) + j < 0x1_0000_0000_0000 ==> Low48(gva + j) == Low48(gva) + j
    ensures Low48(gva) + j == 0x1_0000_0000_0000 ==> Low48(gva + j) == 0
  {
    ModMod(gva + j, 0x1_0000_0000_0000, 0x1_0000);
    var q, x := gva / 0x1_0000_0000_0000, Low48(gva);
    if x + j < 0x1_0000_0000_0000 {
      Remainder(gva + j, 0x1_0000_0000_0000, q, x + j);
    }
    if x + j == 0x1_0000_0000_0000 {
      Remainder(gva + j, 0x1_0000_0000_0000, q + 1, 0);
    }
  }

  /** Through an identity map, a mapped buffer is straight exactly when it does not wrap around 2^48. */
  lemma {:induction false} IdentityStraight(pages: map<nat, nat>, gva: nat, n: nat)
    requires IsIdentity(pages) && Mapped(pages, gva, n) && n >= 1
    ensures Straight(pages, gva, n) <==> Low48(gva) + n <= 0x1_0000_0000_0000
    ensures Translate(pages, GvaPlus(gva, 0)) == Low48(gva)
  {
    hide Translate, Vpn, GvaPlus, Low48, IsIdentity;
    LowBound(gva);
    forall j | 0 <= j < n
      ensures var x, t := Low48(gva) + j, Translate(pages, GvaPlus(gva, j));
              (x < 0x1_0000_0000_0000 ==> t == x) && (x == 0x1_0000_0000_0000 ==> t == 0)
    {
      IdentityTranslates(pages, GvaPlus(gva, j));
      ByteAt(gva, j);
    }
    if Low48(gva) + n > 0x1_0000_0000_0000 {
      assert Translate(pages, GvaPlus(gva, 0x1_0000_0000_0000 - Low48(gva))) == 0;
    }
  }

  lemma LowBound(x: nat)
    ensures Low48(x) < 0x1_0000_0000_0000
  {
  }

  // ---- the regions of a started guest ----

  lemma RegionHas(rs: seq<Region>, gpa: nat, npages: nat, a: nat, n: nat)
    requires HasRegion(rs, gpa, npages) && n >= 1 && gpa <= a && a + n <= gpa + 0x1000 * npages
    ensures InOneRegion(rs, a, n)
  {
    var r :| r in rs && r.gpa == gpa && r.npages == npages;
    var k :| 0 <= k < |rs| && rs[k] == r;
    assert rs[k].Has(a) && rs[k].Has(a + n - 1);
  }

  /** A mapped buffer that does not wrap lies in low memory or in the image, as nothing is mapped in between. */
  lemma {:induction false} BufferInOneRegion(rs: seq<Region>, k: nat, gva: nat, n: nat)
    requires HasRegion(rs, 0, 16) && HasRegion(rs, IMAGE_GPA, k) && 0x10_0000 + k <= 0x10_0000_0000
    requires Mapped(StartupPages(16, k), gva, n) && n >= 1 && Low48(gva) + n <= 0x1_0000_0000_0000
    ensures InOneRegion(rs, Low48(gva), n)
  {
    hide GvaPlus, StartupPages, HasRegion, InOneRegion, Vpn, Low48;
    var x := Low48(gva);
    PageOfByte(k, gva, n, 0);
    PageOfByte(k, gva, n, n - 1);
    if x < 0x10000 {
      if x + n > 0x10000 { PageOfByte(k, gva, n, 0x10000 - x); }
      RegionHas(rs, 0, 16, x, n);
    } else {
      RegionHas(rs, IMAGE_GPA, k, x, n);
    }
  }

  lemma {:induction false} PageOfByte(k: nat, gva: nat, n: nat, j: nat)
    requires 0x10_0000 + k <= 0x10_0000_0000 && Mapped(StartupPages(16, k), gva, n) && j < n
    requires Low48(gva) + n <= 0x1_0000_0000_0000
    ensures var v := (Low48(gva) + j) / 0x1000; v < 16 || 0x10_0000 <= v < 0x10_0000 + k
  {
    hide GvaPlus, StartupPages, Vpn, Low48;
    ByteAt(gva, j);
    PageAndOffset(GvaPlus(gva, j));
    StartupKeys(16, k, Vpn(GvaPlus(gva, j)));
  }

  /**
    For a started guest whose image ends at or below 2^48: a mapped buffer is straight and in one region
    exactly when it does not wrap around 2^48. That can only happen when the image ends right at 2^48,
    where the next address is 0.
   */
  lemma {:induction false} StartedBuffer(rs: seq<Region>, k: nat, gva: nat, n: nat)
    requires HasRegion(rs, 0, 16) && HasRegion(rs, IMAGE_GPA, k) && 0x10_0000 + k <= 0x10_0000_0000
    requires Mapped(StartupPages(16, k), gva, n) && n >= 1
    ensures var pages := StartupPages(16, k);
            Straight(pages, gva, n) && InOneRegion(rs, Translate(pages, GvaPlus(gva, 0)), n) <==>
            Low48(gva) + n <= 0x1_0000_0000_0000
    ensures 0x10_0000 + k < 0x10_0000_0000 ==> Low48(gva) + n <= 0x1_0000_0000_0000
  {
    hide Translate, Vpn, GvaPlus, Low48, StartupPages, IsIdentity, InOneRegion, HasRegion, Straight;
    StartupKeys(16, k, 0);
    IdentityStraight(StartupPages(16, k), gva, n);
    if Low48(gva) + n <= 0x1_0000_0000_0000 {
      BufferInOneRegion(rs, k, gva, n);
    } else if 0x10_0000 + k < 0x10_0000_0000 {
      LowBound(gva);
      var j := 0xFFFF_FFFF_FFFF - Low48(gva);
      ByteAt(gva, j);
      PageAndOffset(GvaPlus(gva, j));
      StartupKeys(16, k, Vpn(GvaPlus(gva, j)));
      assert false;
    }
  }

  // ---- what a started guest finds ----

  lemma HeldAt(m: Memory, a: nat, s: seq<Byte>, i: nat)
    requires HoldsBytes(m, a, s) && i < |s|
    ensures a + i in m && m[a + i] == s[i]
  {
    assert Slice(m, a, |s|)[i] == s[i];
  }

  /** The processor reaches address a by itself, and finds byte b there. */
  ghost predicate Finds(m: Memory, cr3: nat, a: nat, b: Byte) {
    a in m && m[a] == b && ProcessorWalk(m, cr3, a) == Reached(a)
  }

  /**
    Under any writes that avoid the tables, the processor maps the low 64 KB and the image to
    themselves and nothing else.
   */
  lemma {:induction false} StartedProcessor(vm: VmMem, cpu: Cpu, kernel: seq<Byte>, image: seq<Byte>,
        argv: seq<seq<Byte>>, entry: nat, writes: seq<(int, seq<Byte>)>, x: nat)
    requires Started(vm, cpu, kernel, image, argv, entry) && Avoids(vm.tree, writes)
    requires 0x1_0000_0000 + |Padded(image)| <= 0x1_0000_0000_0000 && x < 0x1_0000_0000_0000
    ensures ProcessorWalk(StoreAll(vm.mem, writes), vm.pml4Gpa, x) ==
            if x < 0x10000 || 0x1_0000_0000 <= x < 0x1_0000_0000 + |Padded(image)| then Reached(x) else Fault
  {
    hide ProcessorWalk, Radix, Minimal, Launched, NoTables, Padded, StartupPages, PagesOf, Translate, Vpn,
      IsIdentity, HasRegion, StoreAll, Avoids;
    vm.PagingMeans();
    WritesKeepTables(vm.mem, vm.tree, writes);
    ProcessorFindsPages(StoreAll(vm.mem, writes), vm.tree, x);
    PageAndOffset(x);
    LowSmall(x);
    StartupKeys(16, PageCount(|image|), Vpn(x));
    if Vpn(x) in vm.Pages() { IdentityTranslates(vm.Pages(), x); }
  }

  lemma LowSmall(x: nat)
    requires x < 0x1_0000_0000_0000
    ensures Low48(x) == x
  {
  }

  /**
    The guest that start-up leaves: registers and control fields, and kernel and image where the
    processor finds them.
   */
  lemma {:induction false} StartedGuest(vm: VmMem, cpu: Cpu, kernel: seq<Byte>, image: seq<Byte>,
        argv: seq<seq<Byte>>, entry: nat)
    requires Started(vm, cpu, kernel, image, argv, entry) && |kernel| <= 0x8000
    requires 0x1_0000_0000 + |Padded(image)| <= 0x1_0000_0000_0000
    ensures var r := cpu.regs;
            && r.rip == 0x8000 && r.rsp == 0x6FE4 && r.cr0 == 0x31 && r.rflags == 2
            && r.rax == r.rcx == r.rdx == r.rbx == r.rsi == r.rdi == r.rbp == 0
    ensures cpu.efer == 0 && cpu.entryCtls == 0x91ff && cpu.cr0Shadow == 0x21
    ensures |kernel| > 0 ==> cpu.regs.rip in vm.mem && vm.mem[cpu.regs.rip] == kernel[0]
    ensures forall i :: 0 <= i < |kernel| ==> Finds(vm.mem, vm.pml4Gpa, 0x8000 + i, kernel[i])
    ensures forall i :: 0 <= i < |image| ==> Finds(vm.mem, vm.pml4Gpa, 0x1_0000_0000 + i, image[i])
  {
    hide ProcessorWalk, VmMem.Paging, NoTables, Padded, StartupPages, HasRegion, StoreAll, HoldsBytes, ArgvHeld,
      BootStack, Gdt, Avoids;
    NoWrites(vm.mem, vm.tree);
    forall i | 0 <= i < |kernel| ensures Finds(vm.mem, vm.pml4Gpa, 0x8000 + i, kernel[i]) {
      HeldAt(vm.mem, 0x8000, kernel, i);
      StartedProcessor(vm, cpu, kernel, image, argv, entry, [], 0x8000 + i);
    }
    forall i | 0 <= i < |image| ensures Finds(vm.mem, vm.pml4Gpa, 0x1_0000_0000 + i, image[i]) {
      PaddedAt(image, i);
      HeldAt(vm.mem, 0x1_0000_0000, Padded(image), i);
      StartedProcessor(vm, cpu, kernel, image, argv, entry, [], 0x1_0000_0000 + i);
    }
    if |kernel| > 0 { HeldAt(vm.mem, 0x8000, kernel, 0); }
  }

  lemma NoWrites(m: Memory, tree: Tree)
    ensures StoreAll(m, []) == m && Avoids(tree, [])
  {
  }

  lemma PaddedAt(image: seq<Byte>, i: nat)
    requires i < |image|
    ensures i < |Padded(image)| && Padded(image)[i] == image[i]
  {
    assert Padded(image)[..|image|][i] == image[i];
  }

  /** argv as main reads it: pointer i, the string behind it, and where the strings lie. */
  lemma {:induction false} StartedArgv(m: Memory, kernel: seq<Byte>, image: seq<Byte>, argv: seq<seq<Byte>>,
        entry: nat, root: nat, i: nat)
    requires Launched(m, kernel, image, argv, entry, root) && i < |argv| && ArgAddr(argv, |argv|) <= 0x8000
    ensures Backed(m, 0x7100 + 8 * i, 8)
    ensures var p := FromLe(Slice(m, 0x7100 + 8 * i, 8));
            && HoldsBytes(m, p, argv[i] + [0])
            && (i == 0 ==> p == 0x7200)
            && (i > 0 ==> Backed(m, 0x7100 + 8 * (i - 1), 8)
                          && p == FromLe(Slice(m, 0x7100 + 8 * (i - 1), 8)) + |argv[i - 1]| + 1)
  {
    hide FromLe, Le, Gdt, BootStack, Padded, HoldsBytes, ArgvHeld, Slice, Backed, ArgAddr;
    NextArg(argv, i);
    PointerHeld(m, argv, i);
    if i > 0 { PointerHeld(m, argv, i - 1); }
  }

  lemma NextArg(argv: seq<seq<Byte>>, i: nat)
    requires i <= |argv|
    ensures ArgAddr(argv, i) == if i == 0 then 0x7200 else ArgAddr(argv, i - 1) + |argv[i - 1]| + 1
  {
  }

  lemma PointerHeld(m: Memory, argv: seq<seq<Byte>>, i: nat)
    requires ArgvHeld(m, argv, |argv|) && i < |argv| && ArgAddr(argv, |argv|) <= 0x8000
    ensures Backed(m, 0x7100 + 8 * i, 8) && FromLe(Slice(m, 0x7100 + 8 * i, 8)) == ArgAddr(argv, i)
    ensures HoldsBytes(m, ArgAddr(argv, i), argv[i] + [0])
  {
    hide FromLe, Le;
    ArgAddrGrows(argv, i, |argv|);
    Pow256Values();
    FromLeLe(ArgAddr(argv, i), 8);
    assert HoldsBytes(m, PtrAddr(i), Le(ArgAddr(argv, i), 8));
  }

  /** The descriptors that the guest's segment registers select. */
  lemma {:induction false} StartedGdt(m: Memory, kernel: seq<Byte>, image: seq<Byte>, argv: seq<seq<Byte>>,
        entry: nat, root: nat)
    requires Launched(m, kernel, image, argv, entry, root)
    ensures Backed(m, 0, 8) && FromLe(Slice(m, 0, 8)) == 0 && Backed(m, 8, 8) && FromLe(Slice(m, 8, 8)) == 0
    ensures Backed(m, 16, 8) && FromLe(Slice(m, 16, 8)) == 0x00cf9a000000ffff
    ensures Backed(m, 24, 8) && FromLe(Slice(m, 24, 8)) == 0x00cf92000000ffff
  {
    hide FromLe, Le, HoldsBytes, ArgvHeld, BootStack, Padded;
    var z, c, d := Le(GDT_NULL, 8), Le(GDT_CODE, 8), Le(GDT_DATA, 8);
    HeldJoin(m, 0, z, z + (c + d));
    HeldJoin(m, 8, z, c + d);
    HeldJoin(m, 16, c, d);
    Boot.LoadHeld(m, 0, GDT_NULL);
    Boot.LoadHeld(m, 8, GDT_NULL);
    Boot.LoadHeld(m, 16, GDT_CODE);
    Boot.LoadHeld(m, 24, GDT_DATA);
    HeldBacked(m, 0, z);
    HeldBacked(m, 8, z);
    HeldBacked(m, 16, c);
    HeldBacked(m, 24, d);
  }

  lemma HeldBacked(m: Memory, a: int, s: seq<Byte>)
    requires HoldsBytes(m, a, s)
    ensures Backed(m, a, |s|)
  {
  }

  // ---- start-up, then the exit loop ----

  /** What start-up leaves meets the exit loop's assumptions on tables and regions. */
  lemma {:induction false} StartedIsPaged(vm: VmMem)
    requires vm.Valid() && vm.Paging() && vm.pml4 != null
    ensures Paged(Machine(vm.mem, vm.pml4Gpa, vm.spine), vm.tree)
  {
    hide Radix, Minimal, Owned, InRegions;
    vm.PagingMeans();
    vm.ValidMeans();
    HoldsBacks(vm.spine, vm.mem);
  }

  /**
    A started guest, run by the exit loop, while its stores keep off the tables: every host call belongs
    to an authorised exit, and the host touches exactly the guest's buffer, for every mapped buffer that
    does not wrap around 2^48 and for no other.
   */
  lemma {:induction false} StartedCallsAreExact(vm: VmMem, cpu: Cpu, kernel: seq<Byte>, image: seq<Byte>,
        argv: seq<seq<Byte>>, entry: nat, turns: seq<Turn>, trace: seq<Step>, interactive: bool, e: nat)
    returns (i: nat)
    requires vm.Valid() && Started(vm, cpu, kernel, image, argv, entry)
    requires IMAGE_GPA + |Padded(image)| <= 0x1_0000_0000_0000
    requires RunOk(cpu.State(), trace, interactive) && OnMachine(trace, turns, vm.mem, vm.pml4Gpa, vm.spine)
    requires GuestAvoids(turns, vm.tree) && e < |LogOf(trace)| && LogOf(trace)[e].Done?
    ensures i < |trace| <= |turns| && Authorised(trace[i], interactive) && LogOf(trace)[e].call == ServedCall(trace[i])
    ensures AfterSyscall(turns[i].regs, vm.Pages(), AfterTurns(vm.mem, turns, i + 1))
    ensures var r, c := turns[i].regs, ServedCall(trace[i]);
            MappedBuffer(r, vm.Pages()) ==>
              && (c.Write? || c.Read?) && c.buf.At?
              && (Contiguous(vm.spine, vm.Pages(), r.rsi, r.rdx, c.buf) <==> Low48(r.rsi) + r.rdx <= 0x1_0000_0000_0000)
  {
    hide RunOk, LogOf, PagesOf, ServedCall, MappedBuffer, AfterSyscall, Authorised, Paged, GuestAvoids, OnMachine,
      AfterTurns, Launched, Padded, NoTables, VmMem.Valid, VmMem.Paging, StartupPages, HasRegion, Contiguous, Low48;
    StartedIsPaged(vm);
    i := MediatedRun(cpu.State(), trace, turns, Machine(vm.mem, vm.pml4Gpa, vm.spine), vm.tree, interactive, e);
    var r, k := turns[i].regs, PageCount(|image|);
    if MappedBuffer(r, vm.Pages()) {
      StartedCall(vm.spine, k, r, ServedCall(trace[i]));
    }
  }

  lemma {:induction false} StartedCall(rs: seq<Region>, k: nat, r: Regs, c: Call)
    requires HasRegion(rs, 0, 16) && HasRegion(rs, IMAGE_GPA, k) && 0x10_0000 + k <= 0x10_0000_0000
    requires MappedBuffer(r, StartupPages(16, k)) && BufferExact(r, StartupPages(16, k), rs, c)
    ensures Contiguous(rs, StartupPages(16, k), r.rsi, r.rdx, c.buf) <==> Low48(r.rsi) + r.rdx <= 0x1_0000_0000_0000
  {
    hide StartupPages, HasRegion, Contiguous, Straight, InOneRegion, Translate, Vpn, Low48, GvaPlus;
    StartedBuffer(rs, k, r.rsi, r.rdx);
  }

  /** From start-up on, the VM-entry control says long mode exactly when some MOV to CR0 entered it. */
  lemma {:induction false} StartedEntryControl(vm: VmMem, cpu: Cpu, kernel: seq<Byte>, image: seq<Byte>,
        argv: seq<seq<Byte>>, entry: nat, trace: seq<Step>, interactive: bool)
    requires Started(vm, cpu, kernel, image, argv, entry) && RunOk(cpu.State(), trace, interactive)
    ensures HasBit(Resumed(cpu.State(), trace, |trace|).entryCtls, VM_ENTRY_GUEST_LMA) <==>
            EnteredLongMode(cpu.State(), trace)
  {
    hide RunOk, HasBit, EnteredLongMode, Resumed, Launched, Padded, NoTables, VmMem.Paging, StartupPages;
    EntryControlHistory(cpu.State(), trace, interactive);
    StartsOutside();
  }
}
