/** The exit loop: run the guest until it leaves, handle the exit, and go on unless told to stop. */
module VcpuRun {
  import opened Words
  import opened PageTable
  import opened VmMem
  import opened Vcpu
  import opened Emu
  import opened Syscalls

  datatype Reason = ExcNmi | Irq | Vmcall | Hlt | EptViolation | Rdmsr | Wrmsr | MovCr | Cpuid | Other

  /** The exit fields of the VMCS. */
  datatype Exit = Exit(reason: Reason, qualification: U64, instrLen: U64, vecInfo: U64)

  /**
    One turn of the world: the guest ran, leaving these registers and having made these stores, then
    left for this reason; during the exit the outside world gives these answers.
   */
  datatype Turn = Turn(regs: Regs, writes: seq<(int, Chunk)>, exit: Exit, answers: Answers)

  type Chunk = s: seq<Byte> | |s| < 0x8000_0000

  /** Guest memory when exit n - 1 is handled: the stores of the first n turns were made. */
  function AfterTurns(m: Memory, turns: seq<Turn>, n: nat): (r: Memory)
    requires n <= |turns|
    ensures r.Keys == m.Keys
  {
    if n == 0 then m else StoreAll(AfterTurns(m, turns, n - 1), turns[n - 1].writes)
  }

  datatype Outcome = Outcome(cpu: Control, stop: bool, log: seq<Event>)

  /** What the default branch looked up in guest memory: the instruction, and for the system call. */
  datatype View = View(op: Lookup, call: Consulted)

  /** Guest memory at an exit: its bytes, the PML4's address, and the regions behind it. */
  datatype Machine = Machine(mem: Memory, root: nat, regions: seq<Region>)

  /** One exit as it happened: the state the guest left, the machine's memory, and the outcome. */
  datatype Step = Step(guest: Control, machine: Machine, exit: Exit, view: View, answers: Answers, out: Outcome)

  /** The two bytes at a are a SYSCALL instruction, read as a little-endian word. */
  predicate IsSyscallOp(m: Memory, a: nat) {
    BackedLen(m, a, 2) == 2 && FromLe(Slice(m, a, 2)) == 0x050f
  }

  function Stopping(h: Handled): Outcome {
    Outcome(h.cpu, h.stop, [])
  }

  /** The syscall test and emulation of the default branch. */
  function OnOther(c: Control, m: Memory, v: View, interactive: bool, a: Answers): Outcome {
    if c.regs.rcx >= 2 && IsSyscallOp(m, v.op.gpa) then
      var r := OnSyscall(c.(regs := c.regs.(rip := c.regs.rcx)), v.call.arg.ptr, v.call.verified, interactive, a);
      Outcome(r.cpu, r.failed, r.log)
    else Outcome(c, true, [])
  }

  function OnExit(c: Control, x: Exit, m: Memory, v: View, interactive: bool, a: Answers): Outcome {
    match x.reason
    case ExcNmi =>
      if x.vecInfo % 0x100 == 0 then Outcome(c, true, [])
      else Outcome(c.(regs := Advance(c.regs, 2)), false, [])
    case Irq => Outcome(c, false, [])
    case Vmcall => Outcome(c.(regs := Advance(c.regs, x.instrLen)), false, [])
    case Hlt => Outcome(c, true, [])
    case EptViolation => Outcome(c, false, [])
    case Rdmsr => Stopping(OnRdmsr(c))
    case Wrmsr => Stopping(OnWrmsr(c))
    case MovCr => Stopping(OnMovCr(c, x.qualification))
    case Cpuid => Stopping(OnCpuid(c))
    case Other => OnOther(c, m, v, interactive, a)
  }

  /** The lookups of a default branch with these registers were made in the machine's memory. */
  ghost predicate ViewOk(k: Machine, r: Regs, v: View) {
    r.rcx >= 2 ==>
      && Translated(k.mem, k.root, v.op) && v.op.gva == r.rcx - 2
      && (IsSyscallOp(k.mem, v.op.gpa) ==> ConsultedOk(k.mem, k.root, k.regions, r, v.call))
  }

  ghost predicate StepOk(s: Step, interactive: bool) {
    && s.out == OnExit(s.guest, s.exit, s.machine.mem, s.view, interactive, s.answers)
    && (s.exit.reason == Other ==> ViewOk(s.machine, s.guest.regs, s.view))
  }

  /** The guest leaves EFER and the control fields alone. */
  predicate GuestRan(before: Control, after: Control) {
    after.efer == before.efer && after.entryCtls == before.entryCtls && after.cr0Shadow == before.cr0Shadow
  }

  /** The state in which exit i was preceded by the guest's turn. */
  function Resumed(c0: Control, trace: seq<Step>, i: nat): Control
    requires i <= |trace|
  {
    if i == 0 then c0 else trace[i - 1].out.cpu
  }

  /** A run: exits one after the other, none after the first that stops. */
  ghost predicate RunOk(c0: Control, trace: seq<Step>, interactive: bool) {
    && (forall i {:trigger StepOk(trace[i], interactive)} :: 0 <= i < |trace| ==> StepOk(trace[i], interactive))
    && (forall i {:trigger Resumed(c0, trace, i)} :: 0 <= i < |trace| ==>
      GuestRan(Resumed(c0, trace, i), trace[i].guest))
    && (forall i :: 0 <= i < |trace| - 1 ==> !trace[i].out.stop)
  }

  /** Everything asked of plugin and host during a run. */
  function LogOf(trace: seq<Step>): seq<Event> {
    if trace == [] then [] else LogOf(trace[..|trace| - 1]) + trace[|trace| - 1].out.log
  }

  /** Runs the guest for one turn: it may store into any backed memory and leave any registers. */
  method HvVcpuRun(cpu: Cpu, vm: VmMem, t: Turn)
    requires vm.Valid()
    modifies cpu`regs, vm`mem, Buffers(vm.spine)
    ensures vm.Valid() && vm.mem == StoreAll(old(vm.mem), t.writes)
    ensures cpu.regs == t.regs
  {
    hide Store, StoreAll, VmMem.Valid, VmMem.Paging, WellFormed, Linked, Holds;
    var i := 0;
    NoStores(vm.mem);
    assert t.writes[..0] == [];
    while i < |t.writes|
      invariant 0 <= i <= |t.writes| && vm.Valid() && vm.spine == old(vm.spine)
      invariant vm.mem == StoreAll(old(vm.mem), t.writes[..i])
    {
      OneMoreStore(old(vm.mem), t.writes, i);
      var n := vm.VmMemWrite(t.writes[i].0, t.writes[i].1);
      i := i + 1;
    }
    assert t.writes[..i] == t.writes;
    SetRegs(cpu, vm, t.regs);
  }

  lemma NoStores(m: Memory)
    ensures StoreAll(m, []) == m
  {
  }

  lemma OneMoreStore(m: Memory, writes: seq<(int, seq<Byte>)>, i: nat)
    requires i < |writes|
    ensures StoreAll(m, writes[..i + 1]) == Store(StoreAll(m, writes[..i]), writes[i].0, writes[i].1)
  {
    assert writes[..i + 1][..i] == writes[..i];
  }

  method SetRegs(cpu: Cpu, ghost vm: VmMem, r: Regs)
    requires vm.Valid()
    modifies cpu`regs
    ensures vm.Valid() && cpu.regs == r
  {
    cpu.regs := r;
  }

  /** Nothing was looked up. */
  function NoView(): View {
    View(Lookup(0, [], 0, Null), Consulted(Lookup(0, [], 0, Null), true, []))
  }

  /** The default branch: find out whether the guest made a system call. */
  method HandleOther(cpu: Cpu, vm: VmMem, host: Host, interactive: bool, a: Answers) returns (stop: bool, ghost v: View)
    requires vm.Valid()
    modifies cpu, host
    ensures vm.Valid()
    ensures var out := OnOther(old(cpu.State()), vm.mem, v, interactive, a);
            cpu.State() == out.cpu && stop == out.stop && host.log == old(host.log) + out.log
    ensures ViewOk(Machine(vm.mem, vm.pml4Gpa, vm.spine), old(cpu.regs), v)
  {
    hide Walk, LookupOk, Scanned, Translated, IsSyscallOp, OnSyscall, VmMem.Valid, VmMem.Paging, WellFormed, Linked,
      Holds;
    v := NoView();
    var rcx := cpu.regs.rcx;
    if rcx >= 2 {
      var isOp, at := ReadOp(vm, rcx - 2);
      v := v.(op := at);
      if isOp {
        SetRegs(cpu, vm, cpu.regs.(rip := rcx));
        ghost var call;
        stop, call := EmuSyscall(cpu, vm, host, interactive, a);
        v := v.(call := call);
        return;
      }
    }
    stop := true;
  }

  /** Whether the bytes at a guest-virtual address are a SYSCALL instruction. */
  method ReadOp(vm: VmMem, gva: U64) returns (isOp: bool, ghost at: Lookup)
    requires vm.Valid()
    ensures vm.Valid()
    ensures Translated(vm.mem, vm.pml4Gpa, at) && at.gva == gva
    ensures isOp <==> IsSyscallOp(vm.mem, at.gpa)
    ensures vm.pml4 != null && vm.Paging() && Vpn(gva) in vm.Pages() ==>
      (isOp <==> IsSyscallOp(vm.mem, Translate(vm.Pages(), gva)))
  {
    hide Walk, Vpn, Translate, VmMem.Pages, IsSyscallOp, VmMem.Valid, VmMem.Paging, WellFormed, Linked, Holds;
    var gpa, stale := vm.GvaToGpa(gva);
    at := Lookup(gva, stale, gpa, Null);
    isOp := ReadWord(vm, gpa);
  }

  method ReadWord(vm: VmMem, gpa: nat) returns (isOp: bool)
    requires vm.Valid()
    ensures vm.Valid()
    ensures isOp <==> IsSyscallOp(vm.mem, gpa)
  {
    hide FromLe, Proper, Before, InRegions;
    var op := new Byte[2](_ => 0);
    var n := vm.VmMemRead(gpa, op, 2);
    isOp := n == 2 && FromLe(op[..]) == 0x050f;
    if n == 2 { assert op[..] == Slice(vm.mem, gpa, 2); }
  }

  /** The switch of the loop. */
  method HandleExit(cpu: Cpu, vm: VmMem, host: Host, interactive: bool, x: Exit, a: Answers)
    returns (stop: bool, ghost v: View)
    requires vm.Valid()
    modifies cpu, host
    ensures vm.Valid()
    ensures var out := OnExit(old(cpu.State()), x, vm.mem, v, interactive, a);
            cpu.State() == out.cpu && stop == out.stop && host.log == old(host.log) + out.log
    ensures x.reason == Other ==> ViewOk(Machine(vm.mem, vm.pml4Gpa, vm.spine), old(cpu.regs), v)
  {
    hide Walk, ViewOk, IsSyscallOp, Wrap, OnRdmsr, OnWrmsr, OnMovCr, OnCpuid, OnOther, PointerArg,
      VmMem.Paging, Proper, Before, InRegions;
    v := NoView();
    stop := false;
    match x.reason
    case ExcNmi =>
      if x.vecInfo % 0x100 == 0 { stop := true; } else { cpu.regs := Advance(cpu.regs, 2); }
    case Irq =>
    case Vmcall => cpu.regs := Advance(cpu.regs, x.instrLen);
    case Hlt => stop := true;
    case EptViolation =>
    case Rdmsr => stop := EmuRdmsr(cpu);
    case Wrmsr => stop := EmuWrmsr(cpu);
    case MovCr => stop := EmuMovCr(cpu, x.qualification);
    case Cpuid => stop := EmuCpuid(cpu);
    case Other => stop, v := HandleOther(cpu, vm, host, interactive, a);
  }

  lemma RunStarts(c0: Control, interactive: bool)
    ensures RunOk(c0, [], interactive) && Resumed(c0, [], 0) == c0 && LogOf([]) == [] && NeverStopped([])
  {
  }

  /** No exit of the run has stopped it. */
  ghost predicate NeverStopped(trace: seq<Step>) {
    forall i :: 0 <= i < |trace| ==> !trace[i].out.stop
  }

  /** One more exit. */
  lemma {:induction false} RunGoesOn(c0: Control, trace: seq<Step>, interactive: bool, s: Step)
    requires RunOk(c0, trace, interactive) && NeverStopped(trace)
    requires StepOk(s, interactive) && GuestRan(Resumed(c0, trace, |trace|), s.guest)
    ensures RunOk(c0, trace + [s], interactive)
    ensures Resumed(c0, trace + [s], |trace| + 1) == s.out.cpu
    ensures LogOf(trace + [s]) == LogOf(trace) + s.out.log
    ensures !s.out.stop ==> NeverStopped(trace + [s])
  {
    hide StepOk;
    var t := trace + [s];
    assert t[..|t| - 1] == trace;
    forall i | 0 <= i < |t| ensures StepOk(t[i], interactive) && GuestRan(Resumed(c0, t, i), t[i].guest) {
      if i < |trace| {
        assert t[i] == trace[i] && StepOk(trace[i], interactive) && GuestRan(Resumed(c0, trace, i), trace[i].guest);
        assert Resumed(c0, t, i) == Resumed(c0, trace, i);
      } else {
        assert Resumed(c0, t, i) == Resumed(c0, trace, i);
      }
    }
  }

  /** Step i is turn i taken on this machine: its memory is m0 after the stores of all turns up to i. */
  ghost predicate TurnOn(s: Step, turns: seq<Turn>, i: nat, m0: Memory, root: nat, regions: seq<Region>)
    requires i < |turns|
  {
    && s.machine == Machine(AfterTurns(m0, turns, i + 1), root, regions)
    && s.guest.regs == turns[i].regs && s.exit == turns[i].exit && s.answers == turns[i].answers
  }

  /** The run is that of these turns on one machine. */
  ghost predicate OnMachine(trace: seq<Step>, turns: seq<Turn>, m0: Memory, root: nat, regions: seq<Region>) {
    |trace| <= |turns| && forall i :: 0 <= i < |trace| ==> TurnOn(trace[i], turns, i, m0, root, regions)
  }

  /**
    vcpu_run over any finite run of the world: the loop ends when a handler stops it, or when the
    guest cannot be run again.
   */
  method VcpuRun(cpu: Cpu, vm: VmMem, host: Host, interactive: bool, turns: seq<Turn>) returns (ghost trace: seq<Step>)
    requires vm.Valid()
    modifies cpu, host, vm`mem, Buffers(vm.spine)
    ensures vm.Valid()
    ensures RunOk(old(cpu.State()), trace, interactive)
    ensures OnMachine(trace, turns, old(vm.mem), vm.pml4Gpa, vm.spine)
    ensures cpu.State() == Resumed(old(cpu.State()), trace, |trace|)
    ensures |trace| <= |turns| && vm.mem == AfterTurns(old(vm.mem), turns, |trace|)
    ensures host.log == old(host.log) + LogOf(trace)
    ensures |trace| < |turns| ==> trace != [] && trace[|trace| - 1].out.stop
  {
    hide StepOk, OnExit, ViewOk, RunOk, Resumed, LogOf, NeverStopped, StoreAll, VmMem.Valid, VmMem.Paging,
      WellFormed, Linked, Holds;
    trace := [];
    RunStarts(cpu.State(), interactive);
    var i := 0;
    while i < |turns|
      invariant i == |trace| <= |turns| && vm.Valid() && vm.spine == old(vm.spine)
      invariant vm.mem == AfterTurns(old(vm.mem), turns, i)
      invariant RunOk(old(cpu.State()), trace, interactive)
      invariant OnMachine(trace, turns, old(vm.mem), vm.pml4Gpa, vm.spine)
      invariant NeverStopped(trace)
      invariant cpu.State() == Resumed(old(cpu.State()), trace, |trace|)
      invariant host.log == old(host.log) + LogOf(trace)
    {
      ghost var before := trace;
      HvVcpuRun(cpu, vm, turns[i]);
      ghost var guest, k := cpu.State(), Machine(vm.mem, vm.pml4Gpa, vm.spine);
      var stop, v := HandleExit(cpu, vm, host, interactive, turns[i].exit, turns[i].answers);
      ghost var s := NewStep(guest, k, turns[i], v, interactive, cpu.State(), stop);
      RunGoesOn(old(cpu.State()), before, interactive, s);
      trace := before + [s];
      i := i + 1;
      if stop { break; }
    }
  }

  ghost function NewStep(guest: Control, k: Machine, t: Turn, v: View, interactive: bool, after: Control,
        stop: bool): (s: Step)
    requires t.exit.reason == Other ==> ViewOk(k, guest.regs, v)
    requires var out := OnExit(guest, t.exit, k.mem, v, interactive, t.answers); after == out.cpu && stop == out.stop
    ensures StepOk(s, interactive) && s.guest == guest && s.machine == k && s.exit == t.exit && s.answers == t.answers
    ensures s.out == OnExit(guest, t.exit, k.mem, v, interactive, t.answers)
  {
    Step(guest, k, t.exit, v, t.answers, OnExit(guest, t.exit, k.mem, v, interactive, t.answers))
  }
}
