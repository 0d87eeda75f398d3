/** System calls of the guest: check, ask the plugin, call the host, set RAX. */
module Syscalls {
  import opened Words
  import opened PageTable
  import opened VmMem
  import opened Vcpu

  const SYSCALL_READ: int := 0x2000003
  const SYSCALL_WRITE: int := 0x2000004
  const SYSCALL_OPEN: int := 0x2000005
  const SYSCALL_CLOSE: int := 0x2000006

  /** A host call with its arguments; pointers are host pointers. */
  datatype Call =
    | Write(fildes: int, buf: HostPtr, nbyte: nat)
    | Open(path: HostPtr, flags: nat, mode: nat)
    | Close(fd: nat)
    | Read(fildes: int, buf: HostPtr, nbyte: nat)

  /** What the plugin's callback for a call does: there is none, or it returns a code and a result. */
  datatype Callback = Absent | Answered(code: int, ret: int)

  /** What the world answers during one exit. */
  datatype Answers = Answers(quit: bool, callback: Callback, hostRet: int)

  datatype Event = Asked(call: Call) | Done(call: Call)

  /** A guest-virtual address as gva_to_gpa and gpa_to_hva resolve it. */
  datatype Lookup = Lookup(gva: nat, stale: seq<Byte>, gpa: nat, ptr: HostPtr)

  ghost predicate Translated(m: Memory, root: nat, l: Lookup) {
    |l.stale| == 8 && l.gpa == Walk(m, root, l.gva, l.stale)
  }

  /** The pointer is the address's own place in its region, or null when no region has it. */
  ghost predicate LookupOk(m: Memory, root: nat, rs: seq<Region>, l: Lookup) {
    Translated(m, root, l) && if l.gpa in m then PointsTo(rs, l.gpa, l.ptr) else l.ptr == Null
  }

  datatype Result = Result(cpu: Control, failed: bool, log: seq<Event>)

  /** The register that holds the guest pointer of a call. */
  function PointerArg(r: Regs): U64 {
    if r.rax == SYSCALL_OPEN then r.rdi else r.rsi
  }

  /** The call passes a buffer and its size. */
  predicate HasBuffer(r: Regs) {
    r.rax == SYSCALL_WRITE || r.rax == SYSCALL_READ
  }

  /** What the handlers look up: every byte of a buffer, and then the guest pointer of the call. */
  datatype Consulted = Consulted(arg: Lookup, verified: bool, stales: seq<seq<Byte>>)

  ghost predicate ConsultedOk(m: Memory, root: nat, rs: seq<Region>, r: Regs, v: Consulted) {
    && (HasBuffer(r) ==> Scanned(m, root, r.rsi, r.rdx, v.stales, v.verified))
    && ((HasBuffer(r) && v.verified) || r.rax == SYSCALL_OPEN ==>
          LookupOk(m, root, rs, v.arg) && v.arg.gva == PointerArg(r))
  }

  function SetRax(c: Control, ret: int): Control {
    c.(regs := c.regs.(rax := Wrap(ret)))
  }

  /** The plugin decides whether the host sees the call. */
  predicate Forwarded(a: Answers) {
    a.callback == Absent || a.callback.code != 0
  }

  function Serve(c: Control, call: Call, a: Answers): (r: Result)
    ensures !r.failed
  {
    var asked := if a.callback == Absent then [] else [Asked(call)];
    if Forwarded(a) then Result(SetRax(c, a.hostRet), false, asked + [Done(call)])
    else Result(SetRax(c, a.callback.ret), false, asked)
  }

  function OnSyscall(c: Control, ptr: HostPtr, verified: bool, interactive: bool, a: Answers): Result {
    var r := c.regs;
    var no := Result(c, true, []);
    if r.rax == SYSCALL_WRITE then
      if !verified || (interactive && a.quit) then no else Serve(c, Write(ToInt32(r.rdi), ptr, r.rdx), a)
    else if r.rax == SYSCALL_OPEN then
      if interactive && a.quit then no else Serve(c, Open(ptr, r.rsi, r.rdx), a)
    else if r.rax == SYSCALL_CLOSE then
      if interactive && a.quit then no else Serve(c, Close(r.rdi), a)
    else if r.rax == SYSCALL_READ then
      if !verified || (interactive && a.quit) then no else Serve(c, Read(ToInt32(r.rdi), ptr, r.rdx), a)
    else no
  }

  /** The host and the plugin, with everything they were asked. */
  class Host {
    ghost var log: seq<Event>

    constructor ()
      ensures log == []
    {
      log := [];
    }

    /** Runs the plugin's callback; code 0 means it handled the call. */
    method AskPlugin(call: Call, a: Answers) returns (code: int, ret: int)
      requires a.callback != Absent
      modifies this
      ensures code == a.callback.code && ret == a.callback.ret && log == old(log) + [Asked(call)]
    {
      log := log + [Asked(call)];
      return a.callback.code, a.callback.ret;
    }

    method Do(call: Call, a: Answers) returns (ret: int)
      modifies this
      ensures ret == a.hostRet && log == old(log) + [Done(call)]
    {
      log := log + [Done(call)];
      ret := a.hostRet;
    }
  }

  /** gpa_to_hva(gva_to_gpa(gva)) */
  method Resolve(vm: VmMem, gva: U64) returns (ptr: HostPtr, ghost l: Lookup)
    requires vm.Valid()
    ensures vm.Valid()
    ensures LookupOk(vm.mem, vm.pml4Gpa, vm.spine, l) && l.gva == gva && l.ptr == ptr
    ensures vm.pml4 != null && vm.Paging() && Vpn(gva) in vm.Pages() ==> l.gpa == Translate(vm.Pages(), gva)
    ensures ptr != Null ==>
      && ptr.buf in Buffers(vm.spine) && ptr.off < ptr.buf.Length
      && ptr.buf[ptr.off] == vm.mem[l.gpa]
  {
    hide Walk, Vpn, Translate, PointsTo, VmMem.Valid, VmMem.Paging, VmMem.Pages, WellFormed, Linked, Holds;
    var gpa, stale := vm.GvaToGpa(gva);
    ghost var i;
    ptr, i := vm.GpaToHva(gpa);
    l := Lookup(gva, stale, gpa, ptr);
  }

  /** The common tail of the handlers. */
  method ServeCall(cpu: Cpu, host: Host, call: Call, a: Answers, ghost vm: VmMem)
    requires vm.Valid()
    modifies cpu, host
    ensures vm.Valid()
    ensures var r := Serve(old(cpu.State()), call, a);
            cpu.State() == r.cpu && host.log == old(host.log) + r.log
  {
    hide Wrap;
    var code, ret := 1, 0;
    if a.callback != Absent { code, ret := host.AskPlugin(call, a); }
    if code != 0 { ret := host.Do(call, a); }
    cpu.regs := cpu.regs.(rax := Wrap(ret));
  }

  /** emu_syscall with its four handlers. */
  method EmuSyscall(cpu: Cpu, vm: VmMem, host: Host, interactive: bool, a: Answers)
    returns (failed: bool, ghost v: Consulted)
    requires vm.Valid()
    modifies cpu, host
    ensures vm.Valid()
    ensures ConsultedOk(vm.mem, vm.pml4Gpa, vm.spine, old(cpu.regs), v)
    ensures var r := OnSyscall(old(cpu.State()), v.arg.ptr, v.verified, interactive, a);
            failed == r.failed && cpu.State() == r.cpu && host.log == old(host.log) + r.log
  {
    hide Wrap, ToInt32, Serve, LookupOk, Scanned, VmMem.Valid, VmMem.Paging, WellFormed, Linked, Holds;
    var code, rdi, rsi, rdx := cpu.regs.rax, cpu.regs.rdi, cpu.regs.rsi, cpu.regs.rdx;
    v := Consulted(Lookup(0, [], 0, Null), true, []);
    var ptr := Null;
    if code == SYSCALL_WRITE || code == SYSCALL_READ {
      var err;
      ghost var stales, l;
      err, stales := vm.VmMemVerify(rsi, rdx);
      v := v.(verified := err == 0, stales := stales);
      if err != 0 { return true, v; }
      ptr, l := Resolve(vm, rsi);
      v := v.(arg := l);
    } else if code == SYSCALL_OPEN {
      ghost var l;
      ptr, l := Resolve(vm, rdi);
      v := v.(arg := l);
    } else if code != SYSCALL_CLOSE {
      return true, v;
    }
    if interactive && a.quit { return true, v; }
    var call :=
      if code == SYSCALL_WRITE then Write(ToInt32(rdi), ptr, rdx)
      else if code == SYSCALL_OPEN then Open(ptr, rsi, rdx)
      else if code == SYSCALL_CLOSE then Close(rdi)
      else Read(ToInt32(rdi), ptr, rdx);
    ServeCall(cpu, host, call, a, vm);
    failed := false;
  }
}
