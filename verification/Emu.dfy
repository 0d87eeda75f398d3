/** Emulation of the privileged instructions that leave the guest. */
module Emu {
  import opened Words
  import opened Vcpu
  import PageTable

  const MSR_EFER: int := 0xc0000080

  // ---- bits ----

  predicate HasBit(x: nat, k: nat) {
    if k == 0 then x % 2 == 1 else HasBit(x / 2, k - 1)
  }

  /** x with bit k set. */
  function SetBit(x: nat, k: nat): nat {
    if k == 0 then x / 2 * 2 + 1 else SetBit(x / 2, k - 1) * 2 + x % 2
  }

  const SCE: nat := 0
  const LME: nat := 8
  const LMA: nat := 10
  const NXE: nat := 11
  const VM_ENTRY_GUEST_LMA: nat := 9
  const PG: nat := 31

  lemma {:induction false} SetBitBits(x: nat, k: nat, j: nat)
    ensures HasBit(SetBit(x, k), j) <==> j == k || HasBit(x, j)
    decreases k
  {
    if k > 0 && j > 0 { SetBitBits(x / 2, k - 1, j - 1); }
  }

  function Pow2(k: nat): nat {
    if k == 0 then 1 else 2 * Pow2(k - 1)
  }

  /** Bit k is the k-th binary digit. */
  lemma {:induction false} HasBitMeans(x: nat, k: nat)
    ensures Pow2(k) > 0 && (HasBit(x, k) <==> x / Pow2(k) % 2 == 1)
    decreases k
  {
    if k > 0 {
      HasBitMeans(x / 2, k - 1);
      DivideTwice(x, Pow2(k - 1));
    }
  }

  lemma DivideTwice(x: nat, p: nat)
    requires p > 0
    ensures x / (2 * p) == x / 2 / p
  {
    var q, r := x / 2 / p, x / 2 % p;
    assert x / 2 == p * q + r;
    assert x == 2 * (p * q) + (2 * r + x % 2);
    assert 2 * (p * q) == (2 * p) * q;
    PageTable.Remainder(x, 2 * p, q, 2 * r + x % 2);
  }

  lemma {:induction false} AlreadySet(x: nat, k: nat)
    requires HasBit(x, k)
    ensures SetBit(x, k) == x
    decreases k
  {
    if k > 0 { AlreadySet(x / 2, k - 1); }
  }

  /** bound is even, its half too, and so on for k more times. */
  predicate Halves(bound: nat, k: nat) {
    bound % 2 == 0 && (k > 0 ==> Halves(bound / 2, k - 1))
  }

  lemma {:induction false} SetBitBelow(x: nat, k: nat, bound: nat)
    requires x < bound && Halves(bound, k)
    ensures SetBit(x, k) < bound
    decreases k
  {
    if k > 0 { SetBitBelow(x / 2, k - 1, bound / 2); }
  }

  lemma SetBitFits(x: U64, k: nat)
    requires k in {0, 9, 10, 11}
    ensures SetBit(x, k) < 0x1_0000_0000_0000_0000
  {
    assert Halves(0x1_0000_0000_0000_0000, 0) && Halves(0x1_0000_0000_0000_0000, 9);
    assert Halves(0x1_0000_0000_0000_0000, 10) && Halves(0x1_0000_0000_0000_0000, 11);
    SetBitBelow(x, k, 0x1_0000_0000_0000_0000);
  }

  /** EFER | LMA | NXE | SCE. */
  function LongMode(efer: U64): U64 {
    SetBitFits(efer, LMA);
    SetBitFits(SetBit(efer, LMA), NXE);
    SetBitFits(SetBit(SetBit(efer, LMA), NXE), SCE);
    SetBit(SetBit(SetBit(efer, LMA), NXE), SCE)
  }

  function GuestLma(entryCtls: U64): U64 {
    SetBitFits(entryCtls, VM_ENTRY_GUEST_LMA);
    SetBit(entryCtls, VM_ENTRY_GUEST_LMA)
  }

  lemma {:induction false} LongModeBits(efer: U64, j: nat)
    ensures HasBit(LongMode(efer), j) <==> j in {0, 10, 11} || HasBit(efer, j)
  {
    hide HasBit, SetBit;
    var a := SetBit(efer, LMA);
    var b := SetBit(a, NXE);
    SetBitBits(efer, LMA, j);
    SetBitBits(a, NXE, j);
    SetBitBits(b, SCE, j);
  }

  lemma {:induction false} GuestLmaBits(entryCtls: U64, j: nat)
    ensures HasBit(GuestLma(entryCtls), j) <==> j == 9 || HasBit(entryCtls, j)
  {
    hide HasBit, SetBit;
    SetBitBits(entryCtls, VM_ENTRY_GUEST_LMA, j);
  }

  lemma {:induction false} LongModeTwice(efer: U64)
    ensures LongMode(LongMode(efer)) == LongMode(efer)
  {
    hide HasBit, SetBit;
    var c := LongMode(efer);
    LongModeBits(efer, LMA);
    LongModeBits(efer, NXE);
    LongModeBits(efer, SCE);
    AlreadySet(c, LMA);
    AlreadySet(c, NXE);
    AlreadySet(c, SCE);
  }

  // ---- handlers ----

  datatype Handled = Handled(cpu: Control, stop: bool)

  /** RIP moved over an instruction of n bytes. */
  function Advance(r: Regs, n: int): Regs {
    r.(rip := Wrap(n + r.rip))
  }

  function OnRdmsr(c: Control): Handled {
    if c.regs.rcx % 0x1_0000_0000 == MSR_EFER then
      Handled(c.(regs := Advance(c.regs.(rax := c.efer % 0x1_0000_0000, rdx := c.efer / 0x1_0000_0000), 2)), false)
    else Handled(c, true)
  }

  /** EDX:EAX. */
  function Joined(r: Regs): U64 {
    r.rdx % 0x1_0000_0000 * 0x1_0000_0000 + r.rax % 0x1_0000_0000
  }

  function OnWrmsr(c: Control): Handled {
    if c.regs.rcx % 0x1_0000_0000 == MSR_EFER then
      Handled(c.(regs := Advance(c.regs, 2), efer := Joined(c.regs)), false)
    else Handled(c, true)
  }

  /** The register a MOV-to-CR exit names. */
  function GuestReg(r: Regs, ident: nat): U64 {
    match ident
    case 0 => r.rax
    case 1 => r.rcx
    case 2 => r.rdx
    case 3 => r.rbx
    case 4 => r.rsp
    case 5 => r.rbp
    case 6 => r.rsi
    case 7 => r.rdi
    case 8 => r.r8
    case 9 => r.r9
    case 10 => r.r10
    case 11 => r.r11
    case 12 => r.r12
    case 13 => r.r13
    case 14 => r.r14
    case 15 => r.r15
    case _ => 0
  }

  /** The exit is a MOV to CR0; only these are emulated. */
  predicate IsMovToCr0(qualification: U64) {
    qualification % 0x10 == 0 && qualification / 0x10 % 0x10 == 0
  }

  function MovSource(r: Regs, qualification: U64): U64 {
    GuestReg(r, qualification / 0x100 % 0x10)
  }

  /** A CR0 value that turns paging on while EFER asks for long mode. */
  predicate EntersLongMode(c: Control, cr0: U64) {
    HasBit(cr0, PG) && HasBit(c.efer, LME)
  }

  function OnMovCr(c: Control, qualification: U64): Handled {
    if !IsMovToCr0(qualification) then Handled(c, false)
    else
      var v := MovSource(c.regs, qualification);
      var c1 := c.(cr0Shadow := v, regs := Advance(c.regs.(cr0 := v), 3));
      Handled(if EntersLongMode(c, v) then c1.(efer := LongMode(c.efer), entryCtls := GuestLma(c.entryCtls)) else c1,
              false)
  }

  function OnCpuid(c: Control): Handled {
    var r := if c.regs.rax == 0x80000000 then c.regs.(rax := 0x80000001)
             else if c.regs.rax == 0x80000001 then c.regs.(rdx := 0x20000000)
             else c.regs;
    Handled(c.(regs := Advance(r, 2)), false)
  }

  lemma Pow2Five(k: nat)
    ensures Pow2(k + 5) == 32 * Pow2(k)
  {
    assert Pow2(k + 5) == 2 * Pow2(k + 4) && Pow2(k + 4) == 2 * Pow2(k + 3) && Pow2(k + 3) == 2 * Pow2(k + 2);
    assert Pow2(k + 2) == 2 * Pow2(k + 1) && Pow2(k + 1) == 2 * Pow2(k);
  }

  lemma Pow2At29()
    ensures Pow2(29) == 0x20000000
  {
    Pow2Five(24);
    Pow2Five(19);
    Pow2Five(14);
    Pow2Five(9);
    Pow2Five(4);
  }

  /** The k-th power of two has bit k and no other. */
  lemma {:induction false} OneBit(k: nat, j: nat)
    ensures HasBit(Pow2(k), j) <==> j == k
    decreases k
  {
    if k > 0 && j > 0 {
      OneBit(k - 1, j - 1);
    } else if j > 0 {
      NoBits(j - 1);
    }
  }

  lemma {:induction false} NoBits(j: nat)
    ensures !HasBit(0, j)
  {
    if j > 0 { NoBits(j - 1); }
  }

  /**
    A guest that asks CPUID for the highest extended leaf, and then for the leaf it is told, learns of
    long mode (bit 29 of RDX) and of no other feature; only RAX, RDX and RIP have changed.
   */
  lemma {:induction false} CpuidShowsLongMode(c: Control, j: nat)
    requires c.regs.rax == 0x80000000
    ensures var d := OnCpuid(OnCpuid(c).cpu).cpu;
            && (HasBit(d.regs.rdx, j) <==> j == 29)
            && d == c.(regs := c.regs.(rax := d.regs.rax, rdx := d.regs.rdx, rip := Wrap(c.regs.rip + 4)))
  {
    hide HasBit, Pow2;
    Pow2At29();
    OneBit(29, j);
  }

  method EmuRdmsr(cpu: Cpu) returns (stop: bool)
    modifies cpu
    ensures Handled(cpu.State(), stop) == OnRdmsr(old(cpu.State()))
  {
    hide Wrap;
    stop := false;
    var ecx := cpu.regs.rcx % 0x1_0000_0000;
    if ecx == MSR_EFER {
      cpu.regs := cpu.regs.(rax := cpu.efer % 0x1_0000_0000);
      cpu.regs := cpu.regs.(rdx := cpu.efer / 0x1_0000_0000);
      cpu.regs := Advance(cpu.regs, 2);
    } else {
      stop := true;
    }
  }

  method EmuWrmsr(cpu: Cpu) returns (stop: bool)
    modifies cpu
    ensures Handled(cpu.State(), stop) == OnWrmsr(old(cpu.State()))
  {
    hide Wrap;
    stop := false;
    var eax, ecx, edx := cpu.regs.rax % 0x1_0000_0000, cpu.regs.rcx % 0x1_0000_0000, cpu.regs.rdx % 0x1_0000_0000;
    if ecx == MSR_EFER {
      cpu.efer := edx * 0x1_0000_0000 + eax;
      cpu.regs := Advance(cpu.regs, 2);
    } else {
      stop := true;
    }
  }

  method EmuMovCr(cpu: Cpu, qualification: U64) returns (stop: bool)
    modifies cpu
    ensures Handled(cpu.State(), stop) == OnMovCr(old(cpu.State()), qualification)
  {
    hide Wrap, LongMode, GuestLma, HasBit, GuestReg;
    stop := false;
    if qualification % 0x10 == 0 {
      if qualification / 0x10 % 0x10 != 0 { return; }
      var v := GuestReg(cpu.regs, qualification / 0x100 % 0x10);
      cpu.cr0Shadow := v;
      cpu.regs := cpu.regs.(cr0 := v);
      if HasBit(v, PG) {
        if HasBit(cpu.efer, LME) {
          cpu.efer := LongMode(cpu.efer);
          cpu.entryCtls := GuestLma(cpu.entryCtls);
        }
      }
      cpu.regs := Advance(cpu.regs, 3);
    }
  }

  method EmuCpuid(cpu: Cpu) returns (stop: bool)
    modifies cpu
    ensures Handled(cpu.State(), stop) == OnCpuid(old(cpu.State()))
  {
    hide Wrap;
    stop := false;
    var rax := cpu.regs.rax;
    if rax == 0x80000000 {
      cpu.regs := cpu.regs.(rax := 0x80000001);
    } else if rax == 0x80000001 {
      cpu.regs := cpu.regs.(rdx := 0x20000000);
    }
    cpu.regs := Advance(cpu.regs, 2);
  }
}
