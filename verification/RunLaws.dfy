/** Whole-run laws of the exit loop: every host call is mediated, and EFER has a history. */
module RunLaws {
  import opened Words
  import opened PageTable
  import opened PageMap
  import opened Processor
  import opened VmMem
  import opened MemLaws
  import opened Vcpu
  import opened Emu
  import opened Syscalls
  import opened VcpuRun

  // ---- mediation ----

  /** The call that the guest's registers ask for. */
  function CallOf(r: Regs, ptr: HostPtr): Call {
    if r.rax == 0x2000004 then Write(ToInt32(r.rdi), ptr, r.rdx)
    else if r.rax == 0x2000003 then Read(ToInt32(r.rdi), ptr, r.rdx)
    else if r.rax == 0x2000005 then Open(ptr, r.rsi, r.rdx)
    else Close(r.rdi)
  }

  /** The call is a read or a write: RSI and RDX are its buffer. */
  predicate PassesBuffer(r: Regs) {
    r.rax == 0x2000003 || r.rax == 0x2000004
  }

  /** There is no plugin callback, or it left the call to the host. */
  predicate LeftToHost(a: Answers) {
    a.callback == Absent || a.callback.code != 0
  }

  /** The two bytes of a SYSCALL instruction are at a. */
  predicate SyscallThere(m: Memory, a: nat) {
    Backed(m, a, 2) && m[a] == 0x0f && m[a + 1] == 0x05
  }

  /** The guest stands after a SYSCALL instruction of its own and names a call that is supported. */
  ghost predicate MadeSyscall(s: Step) {
    && s.exit.reason == Other && s.guest.regs.rcx >= 2
    && Translated(s.machine.mem, s.machine.root, s.view.op) && s.view.op.gva == s.guest.regs.rcx - 2
    && SyscallThere(s.machine.mem, s.view.op.gpa)
    && 0x2000003 <= s.guest.regs.rax <= 0x2000006
  }

  /** Nothing stops the call: its buffer resolved and the operator did not quit. */
  predicate Admitted(s: Step, interactive: bool) {
    && (PassesBuffer(s.guest.regs) ==> s.view.call.verified)
    && !(interactive && s.answers.quit)
  }

  /** The host may see a call of this exit, and only this one. */
  ghost predicate Authorised(s: Step, interactive: bool) {
    MadeSyscall(s) && Admitted(s, interactive) && LeftToHost(s.answers)
  }

  /** The guest goes on behind the SYSCALL with RAX set; everything else is as it left it. */
  function Returned(c: Control, ret: int): Control {
    c.(regs := c.regs.(rip := c.regs.rcx, rax := ret % 0x1_0000_0000_0000_0000))
  }

  function ServedCall(s: Step): Call {
    CallOf(s.guest.regs, s.view.call.arg.ptr)
  }

  lemma {:induction false} SyscallBytes(m: Memory, a: nat)
    ensures IsSyscallOp(m, a) <==> SyscallThere(m, a)
  {
    if Backed(m, a, 2) {
      BackedLenUnique(m, a, 2, 2);
      TwoBytes(Slice(m, a, 2));
    }
  }

  lemma TwoBytes(s: seq<Byte>)
    requires |s| == 2
    ensures var lo: int, hi: int := s[0], s[1]; FromLe(s) == lo + 0x100 * hi
  {
    assert s[1..] == [s[1]];
    assert FromLe([s[1]]) == s[1] + 256 * FromLe([]);
  }

  /** How many host calls a log holds. */
  function HostCalls(log: seq<Event>): nat {
    if log == [] then 0 else HostCalls(log[..|log| - 1]) + if log[|log| - 1].Done? then 1 else 0
  }

  /** An exit reaches the host exactly when it is authorised: with the call its registers name, once. */
  lemma {:induction false} HostCallIff(s: Step, interactive: bool)
    requires StepOk(s, interactive)
    ensures Authorised(s, interactive) ==>
      && s.out.log == (if s.answers.callback == Absent then [] else [Asked(ServedCall(s))]) + [Done(ServedCall(s))]
      && s.out.cpu == Returned(s.guest, s.answers.hostRet) && !s.out.stop
    ensures !Authorised(s, interactive) ==> forall e :: e in s.out.log ==> e == Asked(ServedCall(s))
    ensures HostCalls(s.out.log) == if Authorised(s, interactive) then 1 else 0
  {
    hide Authorised, HostCalls, OnExit, ServedCall;
    CountOf(ServedCall(s));
    if s.exit.reason == Other {
      OtherExit(s, interactive);
    } else {
      QuietExit(s, interactive);
    }
  }

  lemma QuietExit(s: Step, interactive: bool)
    requires StepOk(s, interactive) && s.exit.reason != Other
    ensures s.out.log == [] && !Authorised(s, interactive)
  {
    hide OnRdmsr, OnWrmsr, OnMovCr, OnCpuid, OnOther, Wrap;
  }

  lemma {:induction false} OtherExit(s: Step, interactive: bool)
    requires StepOk(s, interactive) && s.exit.reason == Other
    ensures Authorised(s, interactive) ==>
      && s.out.log == (if s.answers.callback == Absent then [] else [Asked(ServedCall(s))]) + [Done(ServedCall(s))]
      && s.out.cpu == Returned(s.guest, s.answers.hostRet) && !s.out.stop
    ensures !Authorised(s, interactive) ==> s.out.log == [] || s.out.log == [Asked(ServedCall(s))]
  {
    hide IsSyscallOp, Translated, ConsultedOk, ToInt32, OnRdmsr, OnWrmsr, OnMovCr, OnCpuid;
    SyscallBytes(s.machine.mem, s.view.op.gpa);
  }

  /** When the plugin handles an admitted call, the host sees nothing and the guest gets the plugin's result. */
  lemma {:induction false} PluginHandles(s: Step, interactive: bool)
    requires StepOk(s, interactive) && MadeSyscall(s) && Admitted(s, interactive) && !LeftToHost(s.answers)
    ensures s.out.log == [Asked(ServedCall(s))] && !s.out.stop
    ensures s.out.cpu == Returned(s.guest, s.answers.callback.ret)
  {
    hide IsSyscallOp, Translated, ConsultedOk, ToInt32;
    SyscallBytes(s.machine.mem, s.view.op.gpa);
  }

  // ---- which exits end a run, and what the simple ones do ----

  /** The exits on which the loop stops. */
  predicate EndsRun(s: Step, interactive: bool) {
    var r := s.guest.regs;
    match s.exit.reason
    case Hlt => true
    case ExcNmi => s.exit.vecInfo % 0x100 == 0
    case Rdmsr | Wrmsr => r.rcx % 0x1_0000_0000 != 0xc0000080
    case Irq | Vmcall | EptViolation | MovCr | Cpuid => false
    case Other =>
      || r.rcx < 2 || !SyscallThere(s.machine.mem, s.view.op.gpa)
      || r.rax !in {0x2000003, 0x2000004, 0x2000005, 0x2000006}
      || (PassesBuffer(r) && !s.view.call.verified)
      || (interactive && s.answers.quit)
  }

  /**
    A step stops the loop exactly on those exits. Nothing was asked of plugin or host then, and the guest
    is as it was, except that RIP is behind the instruction of a system call that was not served.
   */
  lemma {:induction false} StopsExactly(s: Step, interactive: bool)
    requires StepOk(s, interactive)
    ensures s.out.stop <==> EndsRun(s, interactive)
    ensures s.out.stop ==>
      && s.out.log == []
      && var r := s.guest.regs;
         s.out.cpu == if s.exit.reason == Other && r.rcx >= 2 && SyscallThere(s.machine.mem, s.view.op.gpa)
                      then s.guest.(regs := r.(rip := r.rcx)) else s.guest
  {
    hide IsSyscallOp, Translated, ConsultedOk, ToInt32, Wrap, HasBit, LongMode, GuestLma, GuestReg, Joined;
    if s.exit.reason == Other { SyscallBytes(s.machine.mem, s.view.op.gpa); }
  }

  /** Interrupts, EPT violations, and control-register exits other than MOV to CR0 leave the guest as it was. */
  lemma {:induction false} LeavesGuestAlone(s: Step, interactive: bool)
    requires StepOk(s, interactive)
    requires s.exit.reason == Irq || s.exit.reason == EptViolation
             || (s.exit.reason == MovCr && s.exit.qualification % 0x100 != 0)
    ensures s.out.cpu == s.guest && !s.out.stop && s.out.log == []
  {
    hide OnOther, OnRdmsr, OnWrmsr, OnCpuid, Wrap;
    LowByteZero(s.exit.qualification);
  }

  lemma LowByteZero(q: nat)
    ensures q % 0x100 == 0 <==> q % 0x10 == 0 && q / 0x10 % 0x10 == 0
  {
  }

  /** VMCALL moves RIP over the instruction, an exception with a vector over two bytes; nothing else changes. */
  lemma {:induction false} MovesRip(s: Step, interactive: bool)
    requires StepOk(s, interactive)
    requires s.exit.reason == Vmcall || (s.exit.reason == ExcNmi && s.exit.vecInfo % 0x100 != 0)
    ensures var n := if s.exit.reason == Vmcall then s.exit.instrLen else 2;
            && s.out.cpu == s.guest.(regs := s.guest.regs.(rip := (s.guest.regs.rip + n) % 0x1_0000_0000_0000_0000))
            && !s.out.stop && s.out.log == []
  {
    hide OnOther, OnRdmsr, OnWrmsr, OnMovCr, OnCpuid;
  }

  /** CPUID answers two leaves, passes over the instruction in every case, and leaves everything else alone. */
  lemma {:induction false} CpuidAnswers(s: Step, interactive: bool)
    requires StepOk(s, interactive) && s.exit.reason == Cpuid
    ensures var r, d := s.guest.regs, s.out.cpu.regs;
            && s.out.cpu == s.guest.(regs := r.(rax := d.rax, rdx := d.rdx, rip := d.rip))
            && d.rip == (r.rip + 2) % 0x1_0000_0000_0000_0000
            && d.rax == (if r.rax == 0x80000000 then 0x80000001 else r.rax)
            && (r.rax == 0x80000001 ==> d.rdx % 0x1_0000_0000 / 0x2000_0000 % 2 == 1)
            && (r.rax != 0x80000001 ==> d.rdx == r.rdx) && !s.out.stop && s.out.log == []
  {
    hide OnOther, OnRdmsr, OnWrmsr, OnMovCr;
  }

  /** In a run only the last exit may be one that ends it; a run that ends before its turns do ends on one. */
  lemma {:induction false} RunEndsExactly(c0: Control, trace: seq<Step>, turns: seq<Turn>, interactive: bool)
    requires RunOk(c0, trace, interactive)
    requires |trace| < |turns| ==> trace != [] && trace[|trace| - 1].out.stop
    ensures forall i :: 0 <= i < |trace| - 1 ==> !EndsRun(trace[i], interactive)
    ensures |trace| < |turns| ==> trace != [] && EndsRun(trace[|trace| - 1], interactive)
  {
    hide StepOk, GuestRan, EndsRun;
    forall i | 0 <= i < |trace| ensures EndsRun(trace[i], interactive) <==> trace[i].out.stop {
      assert StepOk(trace[i], interactive);
      StopsExactly(trace[i], interactive);
    }
  }

  lemma CountOf(c: Call)
    ensures HostCalls([]) == 0 && HostCalls([Asked(c)]) == 0 && HostCalls([Done(c)]) == 1
    ensures HostCalls([Asked(c)] + [Done(c)]) == 1 && [] + [Done(c)] == [Done(c)]
  {
    var l := [Asked(c)] + [Done(c)];
    assert l[..1] == [Asked(c)] && [Asked(c)][..0] == [] && [Done(c)][..0] == [];
  }

  lemma {:induction false} HostCallsJoin(a: seq<Event>, b: seq<Event>)
    ensures HostCalls(a + b) == HostCalls(a) + HostCalls(b)
  {
    if b == [] {
      assert a + b == a;
    } else {
      assert (a + b)[..|a + b| - 1] == a + b[..|b| - 1];
      HostCallsJoin(a, b[..|b| - 1]);
    }
  }

  /** How many exits of a run are authorised. */
  ghost function AuthorisedExits(trace: seq<Step>, interactive: bool): nat {
    if trace == [] then 0
    else AuthorisedExits(trace[..|trace| - 1], interactive)
         + if Authorised(trace[|trace| - 1], interactive) then 1 else 0
  }

  lemma RunPrefix(c0: Control, trace: seq<Step>, interactive: bool)
    requires RunOk(c0, trace, interactive) && trace != []
    ensures RunOk(c0, trace[..|trace| - 1], interactive)
    ensures StepOk(trace[|trace| - 1], interactive)
    ensures GuestRan(Resumed(c0, trace[..|trace| - 1], |trace| - 1), trace[|trace| - 1].guest)
  {
    hide StepOk, GuestRan;
    var t := trace[..|trace| - 1];
    forall i | 0 <= i <= |t| ensures Resumed(c0, t, i) == Resumed(c0, trace, i) {
    }
    forall i | 0 <= i < |t| ensures StepOk(t[i], interactive) && GuestRan(Resumed(c0, t, i), t[i].guest) {
      assert t[i] == trace[i] && StepOk(trace[i], interactive) && GuestRan(Resumed(c0, trace, i), trace[i].guest);
    }
    assert GuestRan(Resumed(c0, trace, |t|), trace[|t|].guest);
  }

  /** Over a whole run the host is called once per authorised exit, and never otherwise. */
  lemma {:induction false} OneHostCallPerAuthorisedExit(c0: Control, trace: seq<Step>, interactive: bool)
    requires RunOk(c0, trace, interactive)
    ensures HostCalls(LogOf(trace)) == AuthorisedExits(trace, interactive)
    decreases |trace|
  {
    hide RunOk, StepOk, Authorised;
    if trace != [] {
      RunPrefix(c0, trace, interactive);
      OneHostCallPerAuthorisedExit(c0, trace[..|trace| - 1], interactive);
      HostCallsJoin(LogOf(trace[..|trace| - 1]), trace[|trace| - 1].out.log);
      HostCallIff(trace[|trace| - 1], interactive);
    }
  }

  lemma LogLast(trace: seq<Step>)
    ensures trace != [] ==> LogOf(trace) == LogOf(trace[..|trace| - 1]) + trace[|trace| - 1].out.log
    ensures trace == [] ==> LogOf(trace) == []
  {
  }

  /** The exit behind the k-th event of a run: for a host call, an authorised one whose registers name that call. */
  lemma {:induction false} ExitOfEvent(c0: Control, trace: seq<Step>, interactive: bool, k: nat) returns (i: nat)
    requires RunOk(c0, trace, interactive) && k < |LogOf(trace)|
    ensures i < |trace| && |LogOf(trace[..i])| <= k < |LogOf(trace[..i])| + |trace[i].out.log|
    ensures LogOf(trace)[k] == trace[i].out.log[k - |LogOf(trace[..i])|]
    ensures match LogOf(trace)[k]
            case Done(c) => Authorised(trace[i], interactive) && c == ServedCall(trace[i])
            case Asked(c) => c == ServedCall(trace[i]) && trace[i].answers.callback != Absent
    decreases |trace|
  {
    hide RunOk, StepOk, Authorised, HostCalls, ServedCall, LogOf;
    LogLast(trace);
    var n := |trace| - 1;
    RunPrefix(c0, trace, interactive);
    if k < |LogOf(trace[..n])| {
      i := ExitOfEvent(c0, trace[..n], interactive, k);
      assert trace[..n][..i] == trace[..i];
    } else {
      i := n;
      HostCallIff(trace[n], interactive);
      AskedOnlyPresent(trace[n], interactive);
      assert LogOf(trace)[k] in trace[n].out.log;
    }
  }

  lemma AskedOnlyPresent(s: Step, interactive: bool)
    requires StepOk(s, interactive)
    ensures s.answers.callback == Absent ==> forall e :: e in s.out.log ==> e.Done?
  {
    hide IsSyscallOp, Translated, ConsultedOk, ToInt32, OnRdmsr, OnWrmsr, OnMovCr, OnCpuid;
  }

  // ---- mediation in terms of the page map ----

  /** The machine's memory holds these page tables, and its regions back it. */
  ghost predicate Paged(k: Machine, tree: Tree) {
    Radix(k.mem, tree) && k.root == 0x1000 * tree[ROOT] && WellFormed(k.regions) && Backs(k.regions, k.mem)
  }

  /** No store of these turns touches a table. */
  ghost predicate GuestAvoids(turns: seq<Turn>, tree: Tree) {
    forall i :: 0 <= i < |turns| ==> Avoids(tree, turns[i].writes)
  }

  /** Tables and regions that hold at the start of a run hold at every exit, when the guest keeps off the tables. */
  lemma {:induction false} RunStaysPaged(trace: seq<Step>, turns: seq<Turn>, k0: Machine, tree: Tree, i: nat)
    requires OnMachine(trace, turns, k0.mem, k0.root, k0.regions) && Paged(k0, tree) && GuestAvoids(turns, tree)
    requires i < |trace|
    ensures Paged(trace[i].machine, tree)
  {
    hide Radix, WellFormed, Backs, GuestAvoids, AfterTurns;
    assert TurnOn(trace[i], turns, i, k0.mem, k0.root, k0.regions);
    TurnsKeepTables(k0.mem, turns, tree, i + 1);
    BacksSame(k0.regions, k0.mem, AfterTurns(k0.mem, turns, i + 1));
  }

  /** Where tables and regions hold, the processor finds exactly the page map. */
  lemma {:induction false} ProcessorAgrees(k: Machine, tree: Tree)
    requires Paged(k, tree)
    ensures ProcessorSees(k.mem, k.root, PagesOf(tree))
  {
    hide Radix, PagesOf, ProcessorWalk, Expected, Backs, WellFormed;
    forall la: nat ensures ProcessorWalk(k.mem, k.root, la) == Expected(PagesOf(tree), la) {
      ProcessorFindsPages(k.mem, tree, la);
    }
  }

  lemma BacksSame(rs: seq<Region>, m: Memory, m': Memory)
    requires Backs(rs, m) && m'.Keys == m.Keys
    ensures Backs(rs, m')
  {
    hide InRegions;
    assert forall a :: a in m <==> a in m.Keys;
    assert forall a :: a in m' <==> a in m'.Keys;
  }

  lemma {:induction false} TurnsKeepTables(m: Memory, turns: seq<Turn>, tree: Tree, n: nat)
    requires Radix(m, tree) && GuestAvoids(turns, tree) && n <= |turns|
    ensures Radix(AfterTurns(m, turns, n), tree)
  {
    hide Radix, Avoids;
    if n > 0 {
      TurnsKeepTables(m, turns, tree, n - 1);
      WritesKeepTables(AfterTurns(m, turns, n - 1), tree, turns[n - 1].writes);
    }
  }

  /** A lookup on a mapped page ended at its translation, whatever was stale. */
  lemma {:induction false} LookupTranslates(k: Machine, tree: Tree, l: Lookup)
    requires Paged(k, tree) && Translated(k.mem, k.root, l) && Vpn(l.gva) in PagesOf(tree)
    ensures l.gpa == Translate(PagesOf(tree), l.gva)
  {
    hide Radix, Walk, Translate, PagesOf, Vpn, Backs, WellFormed;
    WalkIsTranslate(k.mem, tree, l.gva, l.stale);
  }

  /**
    An authorised read or write whose buffer is mapped: every byte of the buffer is backed, and the host
    is passed the place of the first one.
   */
  lemma {:induction false} ServedBuffer(s: Step, interactive: bool, tree: Tree)
    requires StepOk(s, interactive) && Authorised(s, interactive) && PassesBuffer(s.guest.regs)
      && Paged(s.machine, tree)
    requires s.guest.regs.rdx >= 1
    requires forall j :: 0 <= j < s.guest.regs.rdx ==> Vpn(GvaPlus(s.guest.regs.rsi, j)) in PagesOf(tree)
    ensures forall j :: 0 <= j < s.guest.regs.rdx ==>
      Translate(PagesOf(tree), GvaPlus(s.guest.regs.rsi, j)) in s.machine.mem
    ensures Vpn(s.guest.regs.rsi) in PagesOf(tree)
    ensures (ServedCall(s).Write? || ServedCall(s).Read?)
    ensures PointsTo(s.machine.regions, Translate(PagesOf(tree), s.guest.regs.rsi), ServedCall(s).buf)
  {
    hide Radix, Walk, Translate, PagesOf, Vpn, GvaPlus, IsSyscallOp, SyscallThere, OnExit, Backs, PointsTo,
      WellFormed, ToInt32;
    var r, v, k := s.guest.regs, s.view.call, s.machine;
    SyscallBytes(k.mem, s.view.op.gpa);
    assert ConsultedOk(k.mem, k.root, k.regions, r, v);
    ScannedMapped(k.mem, tree, r.rsi, r.rdx, v.stales, true);
    GvaPlusZero(r.rsi);
    LookupTranslates(k, tree, v.arg);
  }

  /** An authorised open passes the host the place of the path's first byte, or null where none is backed. */
  lemma {:induction false} ServedPath(s: Step, interactive: bool, tree: Tree)
    requires StepOk(s, interactive) && Authorised(s, interactive) && s.guest.regs.rax == 0x2000005
      && Paged(s.machine, tree)
    requires Vpn(s.guest.regs.rdi) in PagesOf(tree)
    ensures ServedCall(s).Open?
    ensures var a := Translate(PagesOf(tree), s.guest.regs.rdi);
            if a in s.machine.mem then PointsTo(s.machine.regions, a, ServedCall(s).path)
              else ServedCall(s).path == Null
  {
    hide Radix, Walk, Translate, PagesOf, Vpn, IsSyscallOp, SyscallThere, OnExit, Backs, PointsTo, WellFormed,
      ToInt32, Scanned;
    var k := s.machine;
    SyscallBytes(k.mem, s.view.op.gpa);
    assert ConsultedOk(k.mem, k.root, k.regions, s.guest.regs, s.view.call);
    LookupTranslates(k, tree, s.view.call.arg);
  }

  /** The call passes a buffer, not empty, on mapped pages. */
  ghost predicate MappedBuffer(r: Regs, pages: map<nat, nat>) {
    PassesBuffer(r) && r.rdx >= 1 && Mapped(pages, r.rsi, r.rdx)
  }

  /**
    The host is passed a pointer, and what it finds there is the guest's buffer, byte for byte, exactly
    when the buffer's translation is straight and lies in one region.
   */
  ghost predicate BufferExact(r: Regs, pages: map<nat, nat>, regions: seq<Region>, c: Call)
    requires MappedBuffer(r, pages)
  {
    && (c.Write? || c.Read?) && c.buf.At?
    && (Contiguous(regions, pages, r.rsi, r.rdx, c.buf) <==>
          Straight(pages, r.rsi, r.rdx) && InOneRegion(regions, Translate(pages, GvaPlus(r.rsi, 0)), r.rdx))
  }

  /**
    The host call of an authorised read or write of a mapped buffer touches exactly the guest's bytes,
    under that condition.
   */
  lemma {:induction false} HostTouchesGuestBytes(s: Step, interactive: bool, tree: Tree)
    requires StepOk(s, interactive) && Authorised(s, interactive) && Paged(s.machine, tree)
    requires MappedBuffer(s.guest.regs, PagesOf(tree))
    ensures BufferExact(s.guest.regs, PagesOf(tree), s.machine.regions, ServedCall(s))
  {
    hide Radix, Walk, Translate, PagesOf, Vpn, GvaPlus, StepOk, Authorised, ServedCall, Contiguous, Straight,
      InOneRegion, Backs;
    var r := s.guest.regs;
    ServedBuffer(s, interactive, tree);
    GvaPlusZero(r.rsi);
    HostContiguousIff(s.machine.regions, PagesOf(tree), r.rsi, r.rdx, ServedCall(s).buf);
  }

  /** A mapped RCX - 2 translates to the bytes 0f 05. */
  ghost predicate AfterSyscall(r: Regs, pages: map<nat, nat>, m: Memory) {
    r.rcx >= 2 && (Vpn(r.rcx - 2) in pages ==> SyscallThere(m, Translate(pages, r.rcx - 2)))
  }

  lemma {:induction false} MediatedStep(s: Step, interactive: bool, tree: Tree)
    requires StepOk(s, interactive) && Authorised(s, interactive) && Paged(s.machine, tree)
    ensures AfterSyscall(s.guest.regs, PagesOf(tree), s.machine.mem)
    ensures MappedBuffer(s.guest.regs, PagesOf(tree)) ==>
      BufferExact(s.guest.regs, PagesOf(tree), s.machine.regions, ServedCall(s))
  {
    hide StepOk, Translate, PagesOf, Vpn, MappedBuffer, BufferExact, ServedCall, SyscallThere, Paged, Walk;
    var r := s.guest.regs;
    if Vpn(r.rcx - 2) in PagesOf(tree) {
      LookupTranslates(s.machine, tree, s.view.op);
    }
    if MappedBuffer(r, PagesOf(tree)) {
      HostTouchesGuestBytes(s, interactive, tree);
    }
  }

  /**
    Every host call of a run, in the guest's own terms, while its stores keep off the tables: it belongs
    to an authorised exit; there, a mapped RCX - 2 translates to the bytes 0f 05; and a mapped buffer is
    what the host touches if and only if its translation is straight and lies in one region.
   */
  lemma {:induction false} MediatedRun(c0: Control, trace: seq<Step>, turns: seq<Turn>, k0: Machine, tree: Tree,
        interactive: bool, e: nat)
    returns (i: nat)
    requires RunOk(c0, trace, interactive) && OnMachine(trace, turns, k0.mem, k0.root, k0.regions)
    requires Paged(k0, tree) && GuestAvoids(turns, tree)
    requires e < |LogOf(trace)| && LogOf(trace)[e].Done?
    ensures i < |trace| <= |turns| && Authorised(trace[i], interactive) && LogOf(trace)[e].call == ServedCall(trace[i])
    ensures AfterSyscall(turns[i].regs, PagesOf(tree), AfterTurns(k0.mem, turns, i + 1))
    ensures MappedBuffer(turns[i].regs, PagesOf(tree)) ==>
      BufferExact(turns[i].regs, PagesOf(tree), k0.regions, ServedCall(trace[i]))
  {
    hide RunOk, StepOk, LogOf, PagesOf, ServedCall, MappedBuffer, BufferExact, AfterSyscall, Authorised, Paged,
      GuestAvoids, AfterTurns;
    i := ExitOfEvent(c0, trace, interactive, e);
    StepInRun(c0, trace, interactive, i);
    assert TurnOn(trace[i], turns, i, k0.mem, k0.root, k0.regions);
    RunStaysPaged(trace, turns, k0, tree, i);
    MediatedStep(trace[i], interactive, tree);
  }

  lemma StepInRun(c0: Control, trace: seq<Step>, interactive: bool, i: nat)
    requires RunOk(c0, trace, interactive) && i < |trace|
    ensures StepOk(trace[i], interactive)
  {
    hide StepOk, GuestRan;
  }

  // ---- EFER ----

  predicate WritesEfer(s: Step) {
    s.exit.reason == Wrmsr && s.guest.regs.rcx % 0x1_0000_0000 == 0xc0000080
  }

  /** The value that WRMSR takes: EDX is the high half, EAX the low one. */
  function Written(s: Step): U64 {
    s.guest.regs.rdx % 0x1_0000_0000 * 0x1_0000_0000 + s.guest.regs.rax % 0x1_0000_0000
  }

  /** A MOV to CR0 of a value with bit 31, PG, set. */
  predicate TurnsPagingOn(s: Step) {
    && s.exit.reason == MovCr && s.exit.qualification % 0x100 == 0
    && HasBit(GuestReg(s.guest.regs, s.exit.qualification / 0x100 % 0x10), 31)
  }

  /** The value last written to EFER in a run. */
  function LastWritten(c0: Control, trace: seq<Step>): U64 {
    if trace == [] then c0.efer
    else if WritesEfer(trace[|trace| - 1]) then Written(trace[|trace| - 1])
    else LastWritten(c0, trace[..|trace| - 1])
  }

  /** Paging was turned on since EFER was last written. */
  predicate PagedSince(trace: seq<Step>) {
    if trace == [] || WritesEfer(trace[|trace| - 1]) then false
    else TurnsPagingOn(trace[|trace| - 1]) || PagedSince(trace[..|trace| - 1])
  }

  /** What EFER holds, from the history alone. */
  function EferOf(c0: Control, trace: seq<Step>): U64 {
    var w := LastWritten(c0, trace);
    if PagedSince(trace) && HasBit(w, 8) then LongMode(w) else w
  }

  /** Paging was turned on at some point while the last EFER written had LME set. */
  predicate EnteredLongMode(c0: Control, trace: seq<Step>) {
    exists i :: 0 <= i < |trace| && TurnsPagingOn(trace[i]) && HasBit(LastWritten(c0, trace[..i]), 8)
  }

  lemma {:induction false} StepEfer(s: Step, interactive: bool)
    requires StepOk(s, interactive)
    ensures WritesEfer(s) ==> s.out.cpu.efer == Written(s) && s.out.cpu.entryCtls == s.guest.entryCtls
    ensures TurnsPagingOn(s) && HasBit(s.guest.efer, 8) ==>
      s.out.cpu.efer == LongMode(s.guest.efer) && s.out.cpu.entryCtls == GuestLma(s.guest.entryCtls)
    ensures !WritesEfer(s) && !(TurnsPagingOn(s) && HasBit(s.guest.efer, 8)) ==>
      s.out.cpu.efer == s.guest.efer && s.out.cpu.entryCtls == s.guest.entryCtls
  {
    hide IsSyscallOp, Translated, ConsultedOk, ToInt32, HasBit, LongMode, GuestLma, GuestReg;
    LowByteZero(s.exit.qualification);
  }

  /** WRMSR of EFER: EAX and EDX are its halves, RIP moves by 2, and nothing else changes. */
  lemma {:induction false} WrmsrWrites(s: Step, interactive: bool)
    requires StepOk(s, interactive) && WritesEfer(s)
    ensures s.out.cpu.efer % 0x1_0000_0000 == s.guest.regs.rax % 0x1_0000_0000
    ensures s.out.cpu.efer / 0x1_0000_0000 == s.guest.regs.rdx % 0x1_0000_0000
    ensures s.out.cpu == s.guest.(efer := s.out.cpu.efer,
                                  regs := s.guest.regs.(rip := (s.guest.regs.rip + 2) % 0x1_0000_0000_0000_0000))
  {
    hide OnOther, OnRdmsr, OnMovCr, OnCpuid;
  }

  /**
    The register that a MOV to a control register names, by the numbers of section 27.2.1 of the Intel
    SDM, Volume 3C.
   */
  ghost predicate Names(r: Regs, k: nat, v: U64) {
    && (k == 0 ==> v == r.rax) && (k == 1 ==> v == r.rcx) && (k == 2 ==> v == r.rdx) && (k == 3 ==> v == r.rbx)
    && (k == 4 ==> v == r.rsp) && (k == 5 ==> v == r.rbp) && (k == 6 ==> v == r.rsi) && (k == 7 ==> v == r.rdi)
    && (k == 8 ==> v == r.r8) && (k == 9 ==> v == r.r9) && (k == 10 ==> v == r.r10) && (k == 11 ==> v == r.r11)
    && (k == 12 ==> v == r.r12) && (k == 13 ==> v == r.r13) && (k == 14 ==> v == r.r14) && (k == 15 ==> v == r.r15)
  }

  /**
    A MOV to CR0: CR0 and its shadow receive the register that bits 11 to 8 of the qualification name, RIP
    moves by 3, and apart from EFER and the VM-entry controls nothing else changes.
   */
  lemma {:induction false} MovToCr0Writes(s: Step, interactive: bool)
    requires StepOk(s, interactive) && s.exit.reason == MovCr && s.exit.qualification % 0x100 == 0
    ensures var r, v := s.guest.regs, s.out.cpu.cr0Shadow;
            && Names(r, s.exit.qualification / 0x100 % 0x10, v) && !s.out.stop
            && s.out.cpu.regs == r.(cr0 := v, rip := (r.rip + 3) % 0x1_0000_0000_0000_0000)
    ensures TurnsPagingOn(s) <==> HasBit(s.out.cpu.cr0Shadow, 31)
  {
    hide OnOther, OnRdmsr, OnWrmsr, OnCpuid, HasBit, LongMode, GuestLma;
    LowByteZero(s.exit.qualification);
  }

  /** EFER after any run is the last value written, in long mode if paging was turned on since with LME set. */
  lemma {:induction false} EferHistory(c0: Control, trace: seq<Step>, interactive: bool)
    requires RunOk(c0, trace, interactive)
    ensures Resumed(c0, trace, |trace|).efer == EferOf(c0, trace)
    decreases |trace|
  {
    hide RunOk, StepOk, HasBit, LongMode, WritesEfer, TurnsPagingOn, Written;
    if trace != [] {
      var s := trace[|trace| - 1];
      RunPrefix(c0, trace, interactive);
      EferHistory(c0, trace[..|trace| - 1], interactive);
      StepEfer(s, interactive);
      var w := LastWritten(c0, trace[..|trace| - 1]);
      LongModeBits(w, 8);
      LongModeTwice(w);
      KindsDiffer(s);
    }
  }

  lemma KindsDiffer(s: Step)
    ensures !(WritesEfer(s) && TurnsPagingOn(s))
  {
    hide HasBit;
  }

  /** The VM-entry control says "long mode" exactly when some MOV to CR0 entered it; nothing clears it. */
  lemma {:induction false} EntryControlHistory(c0: Control, trace: seq<Step>, interactive: bool)
    requires RunOk(c0, trace, interactive)
    ensures HasBit(Resumed(c0, trace, |trace|).entryCtls, 9) <==>
            HasBit(c0.entryCtls, 9) || EnteredLongMode(c0, trace)
    decreases |trace|
  {
    hide RunOk, StepOk, HasBit, LongMode, GuestLma, EnteredLongMode, TurnsPagingOn, WritesEfer, LastWritten, PagedSince;
    if trace == [] {
      NeverEntered(c0);
    } else {
      var n := |trace| - 1;
      var s := trace[n];
      RunPrefix(c0, trace, interactive);
      EntryControlHistory(c0, trace[..n], interactive);
      EferHistory(c0, trace[..n], interactive);
      StepEfer(s, interactive);
      KindsDiffer(s);
      LongModeBits(LastWritten(c0, trace[..n]), 8);
      GuestLmaSet(s.guest.entryCtls);
      EnteredStep(c0, trace);
    }
  }

  lemma NeverEntered(c0: Control)
    ensures !EnteredLongMode(c0, [])
  {
  }

  lemma GuestLmaSet(x: U64)
    ensures HasBit(GuestLma(x), 9)
  {
    hide HasBit, SetBit;
    SetBitBits(x, 9, 9);
  }

  lemma EnteredStep(c0: Control, trace: seq<Step>)
    requires trace != []
    ensures var n := |trace| - 1;
            EnteredLongMode(c0, trace) <==>
            EnteredLongMode(c0, trace[..n]) || (TurnsPagingOn(trace[n]) && HasBit(LastWritten(c0, trace[..n]), 8))
  {
    hide HasBit, TurnsPagingOn, LastWritten;
    var n := |trace| - 1;
    forall i | 0 <= i < n ensures trace[..n][i] == trace[i] && trace[..n][..i] == trace[..i] {
    }
  }

  lemma {:induction false} RunPrefixAt(c0: Control, trace: seq<Step>, interactive: bool, i: nat)
    requires RunOk(c0, trace, interactive) && i <= |trace|
    ensures RunOk(c0, trace[..i], interactive)
    decreases |trace|
  {
    hide RunOk;
    if i < |trace| {
      RunPrefix(c0, trace, interactive);
      RunPrefixAt(c0, trace[..|trace| - 1], interactive, i);
      assert trace[..|trace| - 1][..i] == trace[..i];
    } else {
      assert trace[..i] == trace;
    }
  }

  /** RDMSR of EFER, anywhere in any run, returns the two halves of that value and moves on. */
  lemma {:induction false} RdmsrReturnsHistory(c0: Control, trace: seq<Step>, interactive: bool, i: nat)
    requires RunOk(c0, trace, interactive) && i < |trace|
    requires trace[i].exit.reason == Rdmsr && trace[i].guest.regs.rcx % 0x1_0000_0000 == 0xc0000080
    ensures var r, e := trace[i].out.cpu.regs, EferOf(c0, trace[..i]);
            && r.rax == e % 0x1_0000_0000 && r.rdx == e / 0x1_0000_0000
            && r.rip == (trace[i].guest.regs.rip + 2) % 0x1_0000_0000_0000_0000 && !trace[i].out.stop
            && var g := trace[i].guest;
               trace[i].out.cpu == g.(regs := g.regs.(rax := r.rax, rdx := r.rdx, rip := r.rip))
  {
    hide EferOf, ViewOk, OnWrmsr, OnMovCr, OnCpuid, OnOther;
    RunPrefixAt(c0, trace, interactive, i);
    EferHistory(c0, trace[..i], interactive);
    assert StepOk(trace[i], interactive) && GuestRan(Resumed(c0, trace, i), trace[i].guest);
    assert Resumed(c0, trace, i) == Resumed(c0, trace[..i], i);
  }

  /**
    A MOV to CR0 that turns paging on while EFER has LME sets LMA, NXE and SCE in EFER and bit 9 of the
    VM-entry controls, and no other MOV to CR0 changes any bit of either.
   */
  lemma {:induction false} MovToCr0Bits(s: Step, interactive: bool, j: nat)
    requires StepOk(s, interactive) && s.exit.reason == MovCr && s.exit.qualification % 0x100 == 0
    ensures var enters := HasBit(s.out.cpu.cr0Shadow, 31) && HasBit(s.guest.efer, 8);
            && (HasBit(s.out.cpu.efer, j) <==> HasBit(s.guest.efer, j) || (enters && j in {0, 10, 11}))
            && (HasBit(s.out.cpu.entryCtls, j) <==> HasBit(s.guest.entryCtls, j) || (enters && j == 9))
  {
    hide StepOk, HasBit, LongMode, GuestLma;
    StepEfer(s, interactive);
    MovToCr0Writes(s, interactive);
    LongModeBits(s.guest.efer, j);
    GuestLmaBits(s.guest.entryCtls, j);
  }

  /**
    From a write of EFER until the next, with no paging turned on under LME in between, its value is
    the one written.
   */
  lemma {:induction false} WrittenStays(c0: Control, trace: seq<Step>, i: nat)
    requires i < |trace| && WritesEfer(trace[i])
    requires forall k :: i < k < |trace| ==>
      !WritesEfer(trace[k]) && (TurnsPagingOn(trace[k]) ==> !HasBit(Written(trace[i]), 8))
    ensures EferOf(c0, trace) == Written(trace[i])
  {
    hide WritesEfer, TurnsPagingOn, Written, HasBit, LongMode;
    LastWriteFound(c0, trace, i);
  }

  lemma {:induction false} LastWriteFound(c0: Control, trace: seq<Step>, i: nat)
    requires i < |trace| && WritesEfer(trace[i])
    requires forall k :: i < k < |trace| ==>
      !WritesEfer(trace[k]) && (TurnsPagingOn(trace[k]) ==> !HasBit(Written(trace[i]), 8))
    ensures LastWritten(c0, trace) == Written(trace[i])
    ensures PagedSince(trace) ==> !HasBit(Written(trace[i]), 8)
    decreases |trace|
  {
    hide WritesEfer, TurnsPagingOn, Written, HasBit;
    if i < |trace| - 1 {
      var t := trace[..|trace| - 1];
      assert forall k :: i <= k < |t| ==> t[k] == trace[k];
      LastWriteFound(c0, t, i);
    }
  }

  /**
    What the guest wrote with WRMSR is what its next RDMSR reads, as long as paging is not turned on
    under LME in between.
   */
  lemma {:induction false} RdmsrReadsWrmsr(c0: Control, trace: seq<Step>, interactive: bool, i: nat, j: nat)
    requires RunOk(c0, trace, interactive) && i < j < |trace| && WritesEfer(trace[i])
    requires trace[j].exit.reason == Rdmsr && trace[j].guest.regs.rcx % 0x1_0000_0000 == 0xc0000080
    requires forall k :: i < k < j ==>
      !WritesEfer(trace[k]) && (TurnsPagingOn(trace[k]) ==> !HasBit(Written(trace[i]), 8))
    ensures trace[j].out.cpu.regs.rax == trace[i].guest.regs.rax % 0x1_0000_0000
    ensures trace[j].out.cpu.regs.rdx == trace[i].guest.regs.rdx % 0x1_0000_0000
  {
    hide RunOk, EferOf, WritesEfer, TurnsPagingOn, HasBit;
    var t := trace[..j];
    assert forall k :: 0 <= k < j ==> t[k] == trace[k];
    RdmsrReturnsHistory(c0, trace, interactive, j);
    WrittenStays(c0, t, i);
  }

  /** At start-up the VM-entry control does not say long mode. */
  lemma StartsOutside()
    ensures !HasBit(0x91ff, 9)
  {
  }
}
