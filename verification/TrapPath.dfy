/** Traps from user mode and back: what they keep over every run. */
module TrapPath {
  import opened Words
  import opened Wrappers
  import opened Traps

  const CAUSE_USER_ECALL: u64 := 8
  const CAUSE_MTIMER_S_TRAP: u64 := 0x8000_0000_0000_0001

  /** What the kernel fixes at start: the trapframe, the kernel stack, the handler, the S-mode vector, the M-mode
      frame and its stack. */
  datatype Kernel = Kernel(tf: u64, kstack: u64, handler: u64, vector: u64, itr: u64, stack0: u64)

  predicate Within(a: int, base: u64, size: nat) {
    base <= a < base + size
  }

  predicate KernelOk(k: Kernel) {
    && FrameFits(k.tf) && FrameFits(k.itr)
    && (k.tf + 272 <= k.itr || k.itr + 248 <= k.tf)
  }

  /** What the C code leaves in the registers and in memory outside the two frames. */
  datatype Env = Env(x: map<Reg, u64>, mem: Memory)

  /** Memory that changed only outside the two frames. */
  function OutsideFrames(k: Kernel, mem: Memory, changed: Memory): Memory {
    (a: int) => if Within(a, k.tf, 272) || Within(a, k.itr, 248) then mem(a) else changed(a)
  }

  predicate EnvOk(e: Env) {
    forall r: Reg :: r in e.x
  }

  /** The value of a system call, from the eight argument registers. */
  type SysCall = seq<u64> -> u64

  // ---- supervisor traps ----

  /** The hardware's part: note where the trap came from, enter supervisor mode with interrupts off, and go to the
      vector. */
  function EnterS(h: Hart): Hart {
    h.(sepc := h.pc, spp := !h.user, spie := h.sie, user := false, sie := false, pc := h.stvec)
  }

  /** `smode_trap_vector`. */
  function SmodeVector(): (p: seq<Instr>)
    ensures |p| == 38
  {
    [Csrrw(A0, Sscratch, A0), Addi(T6, A0, 0)] + StoreAll()
    + [Csrr(T0, Sscratch), Sd(T0, 72, A0), Ld(SP, 248, A0), Ld(T0, 256, A0), Jr(T0)]
  }

  /** `return_to_user`. */
  function ReturnToUser(): (p: seq<Instr>)
    ensures |p| == 34
  {
    [Csrw(Sscratch, A0), Addi(T6, A0, 0)] + RestoreAll() + [Sret]
  }

  /** The argument registers in a trapframe. */
  function SavedArgs(mem: Memory, tf: u64): seq<u64> {
    [mem(tf + SlotOf(A0)), mem(tf + SlotOf(A1)), mem(tf + SlotOf(A2)), mem(tf + SlotOf(A3)), mem(tf + SlotOf(A4)),
     mem(tf + SlotOf(A5)), mem(tf + SlotOf(A6)), mem(tf + SlotOf(A7))]
  }

  /** `smode_trap_handler` up to its call of `switch_to`: the saved program counter, and the system call or the
      timer tick. None stands for a panic. */
  function SmodeHandler(h: Hart, k: Kernel, cause: u64, sys: SysCall): (r: Option<Hart>)
  {
    if h.spp then None
    else
      var m := Store(h.mem, k.tf + 264, h.sepc);
      if cause == CAUSE_USER_ECALL then
        var m1 := Store(m, k.tf + 264, (h.sepc + 4) % TWO64);
        Some(h.(mem := Store(m1, k.tf + SlotOf(A0), sys(SavedArgs(m1, k.tf)))))
      else if cause == CAUSE_MTIMER_S_TRAP then
        Some(h.(mem := m, ticks := (h.ticks + 1) % TWO64, ssip := false))
      else None
  }

  /** `switch_to`, to its call of `return_to_user` with the trapframe in a0. The compiled code leaves `env` in the
      other registers and in the rest of memory. */
  function SwitchTo(h: Hart, k: Kernel, env: Env): Hart {
    var frame := Store(Store(h.mem, k.tf + 248, k.kstack), k.tf + 256, k.handler);
    h.(stvec := k.vector,
       spp := false,
       spie := true,
       sepc := frame(k.tf + 264),
       x := env.x[A0 := k.tf],
       mem := OutsideFrames(k, frame, env.mem))
  }

  /** A trap from user mode and back. None stands for a panic or a jump to something other than the handler. */
  function SmodeTrap(h: Hart, k: Kernel, cause: u64, sys: SysCall, env: Env): Option<Hart> {
    FinishTrap(Exec(EnterS(h), SmodeVector()), k, cause, sys, env)
  }

  /** What follows the vector. */
  function FinishTrap(entered: Hart, k: Kernel, cause: u64, sys: SysCall, env: Env): Option<Hart> {
    if entered.pc != k.handler then None
    else
      match SmodeHandler(entered, k, cause, sys)
      case None => None
      case Some(handled) => Some(Exec(SwitchTo(handled, k, env), ReturnToUser()))
  }

  /** What holds whenever user code runs: the hart is in user mode with supervisor interrupts enabled, sscratch and
      mscratch point to the frames, and the trapframe holds the kernel stack and the handler. */
  predicate UserInv(h: Hart, k: Kernel) {
    && Wellformed(h) && h.user && h.sie
    && h.sscratch == k.tf && h.mscratch == k.itr && h.stvec == k.vector
    && h.mem(k.tf + 248) == k.kstack && h.mem(k.tf + 256) == k.handler
  }

  function Args(h: Hart): seq<u64> {
    [Get(h, A0), Get(h, A1), Get(h, A2), Get(h, A3), Get(h, A4), Get(h, A5), Get(h, A6), Get(h, A7)]
  }

  /** The eight arguments are a0 to a7, which are x10 to x17; a frame holds them from offset 72 on. */
  lemma ArgumentRegisters(h: Hart, mem: Memory, tf: u64, i: nat)
    requires i < 8
    ensures Args(h)[i] == Get(h, 10 + i)
    ensures SavedArgs(mem, tf)[i] == mem(tf + 72 + 8 * i)
  {
  }

  /** What the vector saves. */
  lemma VectorSaves(h: Hart, k: Kernel)
    requires KernelOk(k) && UserInv(h, k)
    ensures var e := Exec(EnterS(h), SmodeVector());
            && Wellformed(e) && e.pc == k.handler && Get(e, SP) == k.kstack
            && e.sepc == h.pc && !e.spp && e.ticks == h.ticks && e.ssip == h.ssip && e.mscratch == k.itr
            && (forall r: Reg :: e.mem(k.tf + SlotOf(r)) == if r == T6 then k.tf else h.x[r])
            && (forall a :: !Within(a, k.tf, 248) ==> e.mem(a) == h.mem(a))
  {
    hide StoreAll, Exec;
    var h0 := EnterS(h);
    var front := [Csrrw(A0, Sscratch, A0), Addi(T6, A0, 0)];
    var back := [Csrr(T0, Sscratch), Sd(T0, 72, A0), Ld(SP, 248, A0), Ld(T0, 256, A0), Jr(T0)];
    ExecAppend(h0, front + StoreAll(), back);
    ExecAppend(h0, front, StoreAll());
    var h1 := Exec(h0, front);
    assert h1 == Step(Step(h0, front[0]), front[1]) by { ExecTwo(h0, front[0], front[1]); }
    StoreAllDoes(h1);
    var h2 := Exec(h1, StoreAll());
    VectorEnds(h2, k);
  }

  lemma ExecTwo(h: Hart, i: Instr, j: Instr)
    ensures Exec(h, [i, j]) == Step(Step(h, i), j)
  {
    assert [i, j][1..] == [j];
    ExecOne(Step(h, i), j);
  }

  /** The end of the vector: the user's a0 goes to its slot, the stack and the handler come from the frame. */
  lemma VectorEnds(h: Hart, k: Kernel)
    requires Wellformed(h) && FrameFits(k.tf) && Get(h, A0) == k.tf
    ensures var e := Exec(h, [Csrr(T0, Sscratch), Sd(T0, 72, A0), Ld(SP, 248, A0), Ld(T0, 256, A0), Jr(T0)]);
            && Wellformed(e) && Get(e, SP) == h.mem(k.tf + 248)
            && e == h.(x := e.x, pc := h.mem(k.tf + 256), mem := Store(h.mem, k.tf + 72, h.sscratch))
  {
    hide Exec, Step, Get, Wellformed;
    var p := [Csrr(T0, Sscratch), Sd(T0, 72, A0)];
    var q := [Ld(SP, 248, A0), Ld(T0, 256, A0)];
    assert [Csrr(T0, Sscratch), Sd(T0, 72, A0), Ld(SP, 248, A0), Ld(T0, 256, A0), Jr(T0)] == p + (q + [Jr(T0)]);
    ExecAppend(h, p, q + [Jr(T0)]);
    SavesOldA0(h, Sscratch, k.tf);
    var h1 := Exec(h, p);
    ExecAppend(h1, q, [Jr(T0)]);
    LoadsKernel(h1, k);
    ExecOne(Exec(h1, q), Jr(T0));
    JrDoes(Exec(h1, q), T0);
  }

  /** The kernel stack and the handler, out of the trapframe. */
  lemma LoadsKernel(h: Hart, k: Kernel)
    requires Wellformed(h) && FrameFits(k.tf) && Get(h, A0) == k.tf
    ensures var e := Exec(h, [Ld(SP, 248, A0), Ld(T0, 256, A0)]);
            && Wellformed(e) && e == h.(x := e.x)
            && Get(e, SP) == h.mem(k.tf + 248) && Get(e, T0) == h.mem(k.tf + 256)
  {
    hide Step, Get, Exec, Wellformed;
    ExecTwo(h, Ld(SP, 248, A0), Ld(T0, 256, A0));
    LdDoes(h, SP, 248, A0);
    LdDoes(Step(h, Ld(SP, 248, A0)), T0, 256, A0);
  }

  /** `return_to_user` loads every register from the trapframe and resumes at sepc. */
  lemma ReturnRestores(h: Hart)
    requires Wellformed(h) && FrameFits(Get(h, A0))
    ensures var u := Exec(h, ReturnToUser());
            && Wellformed(u)
            && u == h.(x := u.x, sscratch := Get(h, A0), pc := h.sepc, user := !h.spp, sie := h.spie, spp := false,
                       spie := true)
            && (forall r: Reg :: u.x[r] == h.mem(Get(h, A0) + SlotOf(r)))
  {
    hide RestoreAll, Exec, FrameFits;
    var front := [Csrw(Sscratch, A0), Addi(T6, A0, 0)];
    ExecAppend(h, front + RestoreAll(), [Sret]);
    ExecAppend(h, front, RestoreAll());
    ExecTwo(h, front[0], front[1]);
    var h1 := Exec(h, front);
    RestoreAllDoes(h1);
    ExecOne(Exec(h1, RestoreAll()), Sret);
  }

  /** What `switch_to` leaves of the trapframe. */
  lemma SwitchToFrame(h: Hart, k: Kernel, env: Env)
    requires KernelOk(k)
    ensures var s := SwitchTo(h, k, env);
            && s.mem(k.tf + 248) == k.kstack && s.mem(k.tf + 256) == k.handler
            && s.sepc == h.mem(k.tf + 264)
            && forall r: Reg :: s.mem(k.tf + SlotOf(r)) == h.mem(k.tf + SlotOf(r))
  {
    var s := SwitchTo(h, k, env);
    var inner := Store(h.mem, k.tf + 248, k.kstack);
    var frame := Store(inner, k.tf + 256, k.handler);
    assert frame(k.tf + 248) == inner(k.tf + 248) == k.kstack;
    assert forall a :: Within(a, k.tf, 272) ==> s.mem(a) == frame(a);
    assert Within(k.tf + 248, k.tf, 272) && Within(k.tf + 256, k.tf, 272);
    forall r: Reg
      ensures s.mem(k.tf + SlotOf(r)) == h.mem(k.tf + SlotOf(r))
    {
      assert Within(k.tf + SlotOf(r), k.tf, 272);
    }
  }

  /** What `smode_trap_handler` makes of the trapframe. */
  lemma HandlerFrame(h: Hart, k: Kernel, cause: u64, sys: SysCall)
    requires !h.spp && cause in {CAUSE_USER_ECALL, CAUSE_MTIMER_S_TRAP}
    ensures SmodeHandler(h, k, cause, sys).Some?
    ensures var s := SmodeHandler(h, k, cause, sys).value;
            var ecall := cause == CAUSE_USER_ECALL;
            && s == h.(mem := s.mem, ticks := s.ticks, ssip := s.ssip)
            && s.mem(k.tf + 264) == (if ecall then (h.sepc + 4) % TWO64 else h.sepc)
            && s.ticks == (if ecall then h.ticks else (h.ticks + 1) % TWO64)
            && s.ssip == (ecall && h.ssip)
            && forall r: Reg :: s.mem(k.tf + SlotOf(r))
                                == if r == A0 && ecall then sys(SavedArgs(h.mem, k.tf)) else h.mem(k.tf + SlotOf(r))
  {
    var m := Store(h.mem, k.tf + 264, h.sepc);
    var m1 := Store(m, k.tf + 264, (h.sepc + 4) % TWO64);
    assert SavedArgs(m1, k.tf) == SavedArgs(h.mem, k.tf);
  }

  /** A trap and its return keep every register except t6, which becomes the trapframe's address, and after a
      system call a0, which becomes its result; the program counter moves past an ecall and not otherwise; the
      system call gets the user's own argument registers; and the user-mode invariant holds again. */
  lemma SmodeRoundTrip(h: Hart, k: Kernel, cause: u64, sys: SysCall, env: Env)
    requires KernelOk(k) && UserInv(h, k) && EnvOk(env)
    ensures SmodeTrap(h, k, cause, sys, env).Some? <==> cause == 8 || cause == 0x8000_0000_0000_0001
    ensures SmodeTrap(h, k, cause, sys, env).Some? ==>
              var u := SmodeTrap(h, k, cause, sys, env).value;
              var ecall := cause == 8;
              && UserInv(u, k) && u.user && u.sie
              && (forall r: Reg :: u.x[r] == if r == T6 then k.tf
                                             else if r == A0 && ecall then sys(Args(h))
                                             else h.x[r])
              && u.pc == (if ecall then (h.pc + 4) % TWO64 else h.pc)
              && u.ticks == (if ecall then h.ticks else (h.ticks + 1) % TWO64)
              && u.ssip == (ecall && h.ssip)
  {
    hide Exec, SmodeVector, ReturnToUser, FrameFits;
    VectorSaves(h, k);
    if cause in {CAUSE_USER_ECALL, CAUSE_MTIMER_S_TRAP} {
      hide *;
      HandledTrip(h, k, cause, sys, env);
    }
  }

  lemma ArgsSaved(mem: Memory, tf: u64, h: Hart)
    requires Wellformed(h)
    requires forall r: Reg :: r != T6 ==> mem(tf + SlotOf(r)) == h.x[r]
    ensures SavedArgs(mem, tf) == Args(h)
  {
  }

  /** What follows the vector, by what the vector left in the trapframe. */
  lemma FinishDoes(e: Hart, k: Kernel, cause: u64, sys: SysCall, env: Env)
    requires KernelOk(k) && EnvOk(env)
    requires e.pc == k.handler && !e.spp && e.mscratch == k.itr
    requires cause in {CAUSE_USER_ECALL, CAUSE_MTIMER_S_TRAP}
    ensures FinishTrap(e, k, cause, sys, env).Some?
    ensures var u := FinishTrap(e, k, cause, sys, env).value;
            var ecall := cause == CAUSE_USER_ECALL;
            && UserInv(u, k)
            && (forall r: Reg :: u.x[r] == if r == A0 && ecall then sys(SavedArgs(e.mem, k.tf))
                                           else e.mem(k.tf + SlotOf(r)))
            && u.pc == (if ecall then (e.sepc + 4) % TWO64 else e.sepc)
            && u.ticks == (if ecall then e.ticks else (e.ticks + 1) % TWO64)
            && u.ssip == (ecall && e.ssip)
  {
    hide Exec, ReturnToUser, FrameFits, SmodeHandler, SwitchTo, SlotOf, SavedArgs;
    HandlerFrame(e, k, cause, sys);
    var handled := SmodeHandler(e, k, cause, sys).value;
    SwitchToFields(handled, k, env);
    SwitchToFrame(handled, k, env);
    ReturnRestores(SwitchTo(handled, k, env));
  }

  lemma HandledTrip(h: Hart, k: Kernel, cause: u64, sys: SysCall, env: Env)
    requires KernelOk(k) && UserInv(h, k) && EnvOk(env)
    requires cause in {CAUSE_USER_ECALL, CAUSE_MTIMER_S_TRAP}
    ensures SmodeTrap(h, k, cause, sys, env).Some?
    ensures var u := SmodeTrap(h, k, cause, sys, env).value;
            var ecall := cause == CAUSE_USER_ECALL;
            && UserInv(u, k)
            && (forall r: Reg :: u.x[r] == if r == T6 then k.tf
                                           else if r == A0 && ecall then sys(Args(h))
                                           else h.x[r])
            && u.pc == (if ecall then (h.pc + 4) % TWO64 else h.pc)
            && u.ticks == (if ecall then h.ticks else (h.ticks + 1) % TWO64)
            && u.ssip == (ecall && h.ssip)
  {
    hide Exec, SmodeVector, ReturnToUser, FrameFits, FinishTrap, SlotOf, SavedArgs, Args;
    VectorSaves(h, k);
    var e := Exec(EnterS(h), SmodeVector());
    FinishDoes(e, k, cause, sys, env);
    ArgsSaved(e.mem, k.tf, h);
  }

  lemma SwitchToFields(h: Hart, k: Kernel, env: Env)
    requires EnvOk(env)
    ensures var s := SwitchTo(h, k, env);
            && Wellformed(s) && Get(s, A0) == k.tf && s.stvec == k.vector && s.mscratch == h.mscratch
            && s.ticks == h.ticks && s.ssip == h.ssip && !s.spp && s.spie
            && forall r: Reg :: r != A0 ==> Get(s, r) == env.x[r]
  {
  }

  /** A trap is meant to keep the user's registers, but for the result of a system call. It does exactly when t6
      already held the trapframe's address. */
  lemma KeepsRegistersIff(h: Hart, k: Kernel, cause: u64, sys: SysCall, env: Env)
    requires KernelOk(k) && UserInv(h, k) && EnvOk(env)
    requires cause in {CAUSE_USER_ECALL, CAUSE_MTIMER_S_TRAP}
    ensures SmodeTrap(h, k, cause, sys, env).Some?
    ensures var u := SmodeTrap(h, k, cause, sys, env).value;
            (forall r: Reg :: Get(u, r) == if r == A0 && cause == CAUSE_USER_ECALL then sys(Args(h)) else Get(h, r))
            <==> Get(h, T6) == k.tf
  {
    hide SmodeTrap;
    SmodeRoundTrip(h, k, cause, sys, env);
    var u := SmodeTrap(h, k, cause, sys, env).value;
    assert Get(u, T6) == k.tf;
  }

  // ---- machine traps ----

  function EnterM(h: Hart): Hart {
    h.(mepc := h.pc)
  }

  /** `mtrapvec` up to its call of `handle_mtrap`. */
  function MVector(k: Kernel): seq<Instr> {
    [Csrrw(A0, Mscratch, A0), Addi(T6, A0, 0)] + StoreAll()
    + [Csrr(T0, Mscratch), Sd(T0, 72, A0)]
    + [Li(SP, k.stack0), Li(A3, 4096), Csrr(A4, Mhartid), Addi(A4, A4, 1), Mul(A3, A3, A4), Add(SP, SP, A3),
       Csrw(Mscratch, A0)]
  }

  /** The rest of `mtrapvec`. */
  function MReturn(): seq<Instr> {
    [Csrr(T6, Mscratch)] + RestoreAll() + [Mret]
  }

  /** The C code of a machine timer trap: a software interrupt is left pending for S-mode. It keeps mscratch and both
      frames. */
  function MHandler(h: Hart, k: Kernel, env: Env): Hart {
    h.(ssip := true,
       x := env.x,
       mem := OutsideFrames(k, h.mem, env.mem))
  }

  /** A machine timer trap from user mode and back. */
  function MTrap(h: Hart, k: Kernel, env: Env): Hart {
    Exec(MHandler(Exec(EnterM(h), MVector(k)), k, env), MReturn())
  }

  lemma MVectorSaves(h: Hart, k: Kernel)
    requires KernelOk(k) && Wellformed(h) && h.mscratch == k.itr
    ensures var e := Exec(EnterM(h), MVector(k));
            && Wellformed(e) && e.mscratch == k.itr && e.mepc == h.pc
            && e == h.(x := e.x, mscratch := e.mscratch, mepc := e.mepc, mem := e.mem)
            && (forall r: Reg :: e.mem(k.itr + SlotOf(r)) == if r == T6 then k.itr else h.x[r])
            && (forall a :: !Within(a, k.itr, 248) ==> e.mem(a) == h.mem(a))
  {
    hide StoreAll, Exec;
    var h0 := EnterM(h);
    var front := [Csrrw(A0, Mscratch, A0), Addi(T6, A0, 0)];
    var middle := [Csrr(T0, Mscratch), Sd(T0, 72, A0)];
    var back := [Li(SP, k.stack0), Li(A3, 4096), Csrr(A4, Mhartid), Addi(A4, A4, 1), Mul(A3, A3, A4),
                 Add(SP, SP, A3), Csrw(Mscratch, A0)];
    ExecAppend(h0, front + StoreAll() + middle, back);
    ExecAppend(h0, front + StoreAll(), middle);
    ExecAppend(h0, front, StoreAll());
    var h1 := Exec(h0, front);
    ExecTwo(h0, front[0], front[1]);
    assert Get(h1, T6) == Get(h1, A0) == k.itr;
    StoreAllDoes(h1);
    var h2 := Exec(h1, StoreAll());
    SavesOldA0(h2, Mscratch, k.itr);
    MVectorEnds(Exec(h2, middle), k);
  }

  /** The user's a0, which the vector swapped into the scratch register, goes to its slot in the frame. */
  lemma SavesOldA0(h: Hart, csr: Csr, frame: u64)
    requires Wellformed(h) && FrameFits(frame) && Get(h, A0) == frame
    ensures var e := Exec(h, [Csrr(T0, csr), Sd(T0, 72, A0)]);
            && Wellformed(e) && Get(e, A0) == frame
            && e == h.(x := e.x, mem := Store(h.mem, frame + 72, GetCsr(h, csr)))
  {
    hide Step, Get, Exec, Wellformed;
    ExecTwo(h, Csrr(T0, csr), Sd(T0, 72, A0));
    CsrrDoes(h, T0, csr);
    SdDoes(Step(h, Csrr(T0, csr)), T0, 72, A0);
  }

  /** The stack set-up touches neither memory nor a0, which goes back to mscratch. */
  lemma MVectorEnds(h: Hart, k: Kernel)
    requires Wellformed(h)
    ensures var e := Exec(h, [Li(SP, k.stack0), Li(A3, 4096), Csrr(A4, Mhartid), Addi(A4, A4, 1), Mul(A3, A3, A4),
                              Add(SP, SP, A3), Csrw(Mscratch, A0)]);
            Wellformed(e) && e == h.(x := e.x, mscratch := Get(h, A0))
  {
    hide Address;
    var p: seq<Instr> := [Li(SP, k.stack0), Li(A3, 4096), Csrr(A4, Mhartid), Addi(A4, A4, 1), Mul(A3, A3, A4),
                          Add(SP, SP, A3)];
    assert forall i :: 0 <= i < |p| ==> Computes(p[i]);
    KeepsA0(h, p);
    assert p + [Csrw(Mscratch, A0)] == [Li(SP, k.stack0), Li(A3, 4096), Csrr(A4, Mhartid), Addi(A4, A4, 1),
                                        Mul(A3, A3, A4), Add(SP, SP, A3), Csrw(Mscratch, A0)];
    ExecAppend(h, p, [Csrw(Mscratch, A0)]);
    ExecOne(Exec(h, p), Csrw(Mscratch, A0));
  }

  predicate Computes(i: Instr) {
    (i.Li? || i.Csrr? || i.Addi? || i.Mul? || i.Add?) && i.dst != A0
  }

  lemma ComputesOnly(h: Hart, i: Instr)
    requires Wellformed(h) && Computes(i)
    ensures var e := Step(h, i); Wellformed(e) && e == h.(x := e.x) && Get(e, A0) == Get(h, A0)
  {
    hide Address;
  }

  lemma {:induction false} KeepsA0(h: Hart, p: seq<Instr>)
    requires Wellformed(h) && forall i :: 0 <= i < |p| ==> Computes(p[i])
    ensures var e := Exec(h, p); Wellformed(e) && e == h.(x := e.x) && Get(e, A0) == Get(h, A0)
    decreases |p|
  {
    hide Step, Get, Wellformed, Computes;
    if p != [] {
      ComputesOnly(h, p[0]);
      KeepsA0(Step(h, p[0]), p[1..]);
    }
  }

  /** What a machine trap does, wherever it is taken. */
  lemma MTrapDoes(h: Hart, k: Kernel, env: Env)
    requires KernelOk(k) && EnvOk(env) && Wellformed(h) && h.mscratch == k.itr
    ensures var u := MTrap(h, k, env);
            && Wellformed(u)
            && u == h.(x := u.x, mem := u.mem, ssip := true, mepc := h.pc)
            && (forall r: Reg :: u.x[r] == if r == T6 then k.itr else h.x[r])
            && (forall r: Reg :: u.mem(k.itr + SlotOf(r)) == if r == T6 then k.itr else h.x[r])
            && (forall a :: Within(a, k.tf, 272) ==> u.mem(a) == h.mem(a))
  {
    hide Exec, RestoreAll, MVector, FrameFits;
    MVectorSaves(h, k);
    var c := MHandler(Exec(EnterM(h), MVector(k)), k, env);
    var front := [Csrr(T6, Mscratch)];
    ExecAppend(c, front + RestoreAll(), [Mret]);
    ExecAppend(c, front, RestoreAll());
    ExecOne(c, front[0]);
    var c1 := Exec(c, front);
    RestoreAllDoes(c1);
    ExecOne(Exec(c1, RestoreAll()), Mret);
    MHandlerFrames(Exec(EnterM(h), MVector(k)), k, env);
  }

  /** A machine trap and its return keep every register except t6, which becomes the interrupt frame's address, and
      keep the program counter and the user-mode invariant. */
  lemma MRoundTrip(h: Hart, k: Kernel, env: Env)
    requires KernelOk(k) && UserInv(h, k) && EnvOk(env)
    ensures var u := MTrap(h, k, env);
            && UserInv(u, k)
            && (forall r: Reg :: u.x[r] == if r == T6 then k.itr else h.x[r])
            && u.pc == h.pc && u.ssip && u.ticks == h.ticks
  {
    hide MTrap, KernelOk;
    MTrapDoes(h, k, env);
    assert Within(k.tf + 248, k.tf, 272) && Within(k.tf + 256, k.tf, 272);
  }

  /** A machine trap keeps all registers exactly when t6 already held the interrupt frame's address. */
  lemma MKeepsRegistersIff(h: Hart, k: Kernel, env: Env)
    requires KernelOk(k) && UserInv(h, k) && EnvOk(env)
    ensures (forall r: Reg :: Get(MTrap(h, k, env), r) == Get(h, r)) <==> Get(h, T6) == k.itr
  {
    hide MTrap;
    MRoundTrip(h, k, env);
    assert Get(MTrap(h, k, env), T6) == k.itr;
  }

  lemma MHandlerFrames(h: Hart, k: Kernel, env: Env)
    requires KernelOk(k)
    ensures var c := MHandler(h, k, env);
            && (forall a :: Within(a, k.tf, 272) ==> c.mem(a) == h.mem(a))
            && forall r: Reg :: c.mem(k.itr + SlotOf(r)) == h.mem(k.itr + SlotOf(r))
  {
    forall r: Reg
      ensures Within(k.itr + SlotOf(r), k.itr, 248)
    {
    }
  }

  // ---- a state that loses t6 ----

  /** Where the two frames, the stacks and the entry points may lie. */
  const KERNEL: Kernel := Kernel(0x8000_1000, 0x8000_3000, 0x8000_0200, 0x8000_0100, 0x8000_2000, 0x8000_4000)

  function Zero(r: Reg): u64 {
    0
  }

  /** A hart in user mode with zero in every register. */
  function UserHart(): Hart {
    Hart(map r: Reg | 0 < r < 32 :: Zero(r), 0x8100_0000, KERNEL.tf, KERNEL.itr, 0, KERNEL.vector, 0, 0, true, true,
         false, true, false, 0,
         (a: int) => if a == KERNEL.tf + 248 then KERNEL.kstack else if a == KERNEL.tf + 256 then KERNEL.handler else 0)
  }

  /** A zero in t6 comes back as the address of a frame, from either kind of trap. */
  lemma LosesT6(sys: SysCall, env: Env)
    requires EnvOk(env)
    ensures KernelOk(KERNEL) && UserInv(UserHart(), KERNEL) && Get(UserHart(), T6) == 0
    ensures var u := SmodeTrap(UserHart(), KERNEL, CAUSE_MTIMER_S_TRAP, sys, env);
            u.Some? && Get(u.value, T6) == 0x8000_1000
    ensures Get(MTrap(UserHart(), KERNEL, env), T6) == 0x8000_2000
  {
    hide SmodeTrap, MTrap;
    SmodeRoundTrip(UserHart(), KERNEL, CAUSE_MTIMER_S_TRAP, sys, env);
    MRoundTrip(UserHart(), KERNEL, env);
  }

  // ---- all runs ----

  /** What happens in user mode: user code runs (it does not write the two frames), or a trap is taken. The result of
      each system call is another function of its arguments, since it may depend on memory. Machine traps do not
      interrupt the supervisor's trap path. */
  datatype Event =
    | UserRuns(x: map<Reg, u64>, pc: u64, mem: Memory)
    | Supervisor(cause: u64, sys: SysCall, env: Env)
    | Machine(env: Env)

  predicate EventOk(e: Event) {
    match e
    case UserRuns(x, _, _) => forall r: Reg :: r in x
    case Supervisor(cause, _, env) => cause in {CAUSE_USER_ECALL, CAUSE_MTIMER_S_TRAP} && EnvOk(env)
    case Machine(env) => EnvOk(env)
  }

  /** The state after an event; a panic stops the run. */
  function After(h: Hart, k: Kernel, e: Event): Hart {
    match e
    case UserRuns(x, pc, mem) =>
      h.(x := x, pc := pc,
         mem := OutsideFrames(k, h.mem, mem))
    case Supervisor(cause, sys, env) =>
      (match SmodeTrap(h, k, cause, sys, env)
       case None => h
       case Some(u) => u)
    case Machine(env) => MTrap(h, k, env)
  }

  /** User code may leave anything in the registers and outside the frames. */
  lemma UserDoes(h: Hart, k: Kernel, env: Env, pc: u64)
    requires EnvOk(env)
    ensures EventOk(UserRuns(env.x, pc, env.mem))
    ensures var u := After(h, k, UserRuns(env.x, pc, env.mem));
            u.x == env.x && u.pc == pc
            && forall a: int :: !Within(a, k.tf, 272) && !Within(a, k.itr, 248) ==> u.mem(a) == env.mem(a)
  {
  }

  /** Either trap may come at any time; what each does to the user's registers. */
  lemma TrapsDo(h: Hart, k: Kernel, cause: u64, sys: SysCall, env: Env)
    requires KernelOk(k) && UserInv(h, k) && EnvOk(env) && (cause == 8 || cause == 0x8000_0000_0000_0001)
    ensures EventOk(Supervisor(cause, sys, env)) && EventOk(Machine(env))
    ensures forall r: Reg :: Get(After(h, k, Supervisor(cause, sys, env)), r)
                             == if r == T6 then k.tf else if r == A0 && cause == 8 then sys(Args(h)) else Get(h, r)
    ensures forall r: Reg :: Get(After(h, k, Machine(env)), r) == if r == T6 then k.itr else Get(h, r)
    ensures After(h, k, Machine(env)).ssip
  {
    hide SmodeTrap, MTrap, KernelOk, Args;
    SmodeRoundTrip(h, k, cause, sys, env);
    MRoundTrip(h, k, env);
  }

  function Run(h: Hart, k: Kernel, events: seq<Event>): Hart {
    if events == [] then h
    else After(Run(h, k, events[..|events| - 1]), k, events[|events| - 1])
  }

  function TimerTraps(events: seq<Event>): nat {
    if events == [] then 0
    else
      var e := events[|events| - 1];
      TimerTraps(events[..|events| - 1]) + if e.Supervisor? && e.cause == CAUSE_MTIMER_S_TRAP then 1 else 0
  }

  /** The first switch to the user program: `switch_to` and `return_to_user` establish the invariant, start the
      program at the trapframe's epc and load its registers from the trapframe. */
  lemma FirstSwitch(h: Hart, k: Kernel, env: Env)
    requires KernelOk(k) && EnvOk(env) && h.mscratch == k.itr
    ensures var u := Exec(SwitchTo(h, k, env), ReturnToUser());
            && UserInv(u, k) && u.pc == h.mem(k.tf + 264) && u.ticks == h.ticks
            && forall r: Reg :: u.x[r] == h.mem(k.tf + SlotOf(r))
  {
    hide Exec, ReturnToUser, FrameFits, SwitchTo;
    SwitchToFields(h, k, env);
    SwitchToFrame(h, k, env);
    ReturnRestores(SwitchTo(h, k, env));
  }

  /** In every user-mode state of every run sscratch, kernel_sp and kernel_trap hold the trapframe's address, the
      kernel stack and the handler, and the tick count is the number of timer traps. */
  lemma {:induction false} RunKeeps(h: Hart, k: Kernel, env: Env, events: seq<Event>)
    requires KernelOk(k) && EnvOk(env) && h.mscratch == k.itr && h.ticks == 0
    requires forall i :: 0 <= i < |events| ==> EventOk(events[i])
    ensures var u := Run(Exec(SwitchTo(h, k, env), ReturnToUser()), k, events);
            && UserInv(u, k) && u.ticks == TimerTraps(events) % TWO64
            && u.user && u.sie && u.sscratch == k.tf && u.mscratch == k.itr
            && u.mem(k.tf + 248) == k.kstack && u.mem(k.tf + 256) == k.handler
    decreases |events|
  {
    hide Exec, ReturnToUser, SmodeTrap, MTrap, SwitchTo, KernelOk, EnvOk;
    var start := Exec(SwitchTo(h, k, env), ReturnToUser());
    if events == [] {
      FirstSwitch(h, k, env);
    } else {
      var before, e := events[..|events| - 1], events[|events| - 1];
      RunKeeps(h, k, env, before);
      var u := Run(start, k, before);
      assert EventOk(e);
      match e {
        case UserRuns(x, pc, mem) => UserKeeps(u, k, x, pc, mem);
        case Supervisor(cause, sys, env') => SmodeRoundTrip(u, k, cause, sys, env');
        case Machine(env') => MRoundTrip(u, k, env');
      }
    }
  }

  lemma UserKeeps(h: Hart, k: Kernel, x: map<Reg, u64>, pc: u64, mem: Memory)
    requires UserInv(h, k) && forall r: Reg :: r in x
    ensures var u := After(h, k, UserRuns(x, pc, mem)); UserInv(u, k) && u.ticks == h.ticks
  {
    assert Within(k.tf + 248, k.tf, 272) && Within(k.tf + 256, k.tf, 272);
  }
}
