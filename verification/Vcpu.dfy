/** The virtual CPU's registers, its initial memory, and pushes onto the guest stack. */
module Vcpu {
  import opened Words
  import opened PageTable
  import opened PageMap
  import opened VmMem

  const CONF_START_ADDR: int := 0x8000
  const CONF_STACK_ADDR: int := 0x7000

  datatype Regs = Regs(
    rax: U64, rcx: U64, rdx: U64, rbx: U64, rsp: U64, rbp: U64, rsi: U64, rdi: U64,
    r8: U64, r9: U64, r10: U64, r11: U64, r12: U64, r13: U64, r14: U64, r15: U64,
    rip: U64, rflags: U64, cr0: U64)

  const GDT_NULL: nat := 0x0000000000000000
  const GDT_CODE: nat := 0x00cf9a000000ffff
  const GDT_DATA: nat := 0x00cf92000000ffff

  /** Memory once the four-entry GDT is written at 0. */
  function GdtImage(m: Memory): (r: Memory)
    ensures r.Keys == m.Keys
  {
    Store(Store(Store(Store(m, 0, Le(GDT_NULL, 8)), 8, Le(GDT_NULL, 8)), 16, Le(GDT_CODE, 8)), 24, Le(GDT_DATA, 8))
  }

  /** The writes that vcpu_setup_ia32 makes: the GDT, and the low half of the PML4 address on the stack. */
  function SetupImage(m: Memory, pml4Gpa: nat): (r: Memory)
    ensures r.Keys == m.Keys
  {
    Store(GdtImage(m), 0x6FFC, Le(pml4Gpa, 8)[..4])
  }

  /** The registers the guest starts with; those that are not written keep their value. */
  function InitialRegs(r: Regs): Regs {
    r.(cr0 := 0x31, rip := CONF_START_ADDR, rflags := 2, rax := 0, rcx := 0, rdx := 0, rbx := 0, rsi := 0, rdi := 0,
       rsp := CONF_STACK_ADDR - 4, rbp := 0)
  }

  /** What the exit handlers read and write: the registers and the emulated control fields. */
  datatype Control = Control(regs: Regs, efer: U64, entryCtls: U64, cr0Shadow: U64)

  /** The stack pointer n bytes further down. */
  function Below(rsp: int, n: int): U64 {
    Wrap(rsp - n)
  }

  class Cpu {
    var regs: Regs
    var efer: U64
    var entryCtls: U64
    var cr0Shadow: U64

    constructor (regs: Regs, efer: U64, entryCtls: U64, cr0Shadow: U64)
      ensures this.regs == regs && this.efer == efer && this.entryCtls == entryCtls && this.cr0Shadow == cr0Shadow
    {
      this.regs, this.efer, this.entryCtls, this.cr0Shadow := regs, efer, entryCtls, cr0Shadow;
    }

    ghost function State(): Control
      reads this
    {
      Control(regs, efer, entryCtls, cr0Shadow)
    }

    /** The control fields, initial registers and memory writes of vcpu_setup_ia32. */
    method SetupIa32(vm: VmMem)
      requires vm.Valid()
      modifies this, vm`mem, Buffers(vm.spine)
      ensures vm.Valid() && vm.mem == SetupImage(old(vm.mem), vm.pml4Gpa)
      ensures old(vm.Paging()) && NoTables(vm.tree, 0, 0x7000) ==> vm.Paging()
      ensures efer == 0 && entryCtls == 0x91ff && cr0Shadow == 0x21
      ensures regs == InitialRegs(old(regs))
    {
      hide Store, Le, Backed, InTables, VmMem.Paging, VmMem.Valid, WellFormed, Linked, Holds;
      entryCtls := 0x91ff;
      cr0Shadow := 0x21;
      regs := regs.(cr0 := 0x31);
      WriteGdt(vm);
      efer := 0;
      var n := vm.VmMemWrite(CONF_STACK_ADDR - 4, Le(vm.pml4Gpa, 8)[..4]);
      InitRegs();
    }

    method WriteGdt(vm: VmMem)
      requires vm.Valid()
      modifies vm`mem, Buffers(vm.spine)
      ensures vm.Valid() && vm.mem == GdtImage(old(vm.mem))
      ensures old(vm.Paging()) && NoTables(vm.tree, 0, 0x7000) ==> vm.Paging()
    {
      hide Store, Le, Backed, InTables, VmMem.Paging, VmMem.Valid, WellFormed, Linked, Holds;
      var n := vm.VmMemWrite(0, Le(GDT_NULL, 8));
      n := vm.VmMemWrite(8, Le(GDT_NULL, 8));
      n := vm.VmMemWrite(16, Le(GDT_CODE, 8));
      n := vm.VmMemWrite(24, Le(GDT_DATA, 8));
      assert old(vm.Paging()) && NoTables(vm.tree, 0, 0x7000) ==> vm.Paging();
    }

    method InitRegs()
      modifies this`regs
      ensures regs.(cr0 := 0x31) == InitialRegs(old(regs)) && regs.cr0 == old(regs).cr0
    {
      regs := regs.(rip := CONF_START_ADDR);
      regs := regs.(rflags := 2);
      regs := regs.(rax := 0, rcx := 0, rdx := 0, rbx := 0, rsi := 0, rdi := 0);
      regs := regs.(rsp := CONF_STACK_ADDR - 4);
      regs := regs.(rbp := 0);
    }

    /** Pushes the bytes of a value; nothing moves when the stack is not backed. */
    method Push(vm: VmMem, val: seq<Byte>) returns (err: int)
      requires vm.Valid() && |val| < 0x8000_0000
      modifies this`regs, vm`mem, Buffers(vm.spine)
      ensures vm.Valid() && (err == 0 || err == -1)
      ensures var a := Below(old(regs.rsp), |val|);
              && vm.mem == Store(old(vm.mem), a, val)
              && (err == 0 <==> Backed(old(vm.mem), a, |val|))
              && regs == (if err == 0 then old(regs).(rsp := a) else old(regs))
              && (old(vm.Paging()) && NoTables(vm.tree, a, a + |val|) ==> vm.Paging())
    {
      hide Store, Below, InTables, VmMem.Paging, VmMem.Valid, WellFormed, Linked, Holds;
      var addr := Below(regs.rsp, |val|);
      if Backed(vm.mem, addr, |val|) { BackedLenUnique(vm.mem, addr, |val|, |val|); }
      var n := vm.VmMemWrite(addr, val);
      if n != |val| { return -1; }
      regs := regs.(rsp := addr);
      err := 0;
    }

    method Push64(vm: VmMem, val: U64) returns (err: int)
      requires vm.Valid()
      modifies this`regs, vm`mem, Buffers(vm.spine)
      ensures vm.Valid() && (err == 0 || err == -1)
      ensures var a := Below(old(regs.rsp), 8);
              && vm.mem == Store(old(vm.mem), a, Le(val, 8))
              && (err == 0 <==> Backed(old(vm.mem), a, 8))
              && regs == (if err == 0 then old(regs).(rsp := a) else old(regs))
              && (old(vm.Paging()) && NoTables(vm.tree, a, a + 8) ==> vm.Paging())
    {
      hide Store, Below, Le, InTables, VmMem.Paging, VmMem.Valid, WellFormed, Linked, Holds;
      err := Push(vm, Le(val, 8));
    }
  }
}
