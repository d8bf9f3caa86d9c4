/** A machine trap inside the supervisor's trap path. Both paths keep a frame's address in t6, and a machine trap
    replaces it; what that does to the user's registers, instruction by instruction. */
module NestedTrap {
  import opened Words
  import opened Wrappers
  import opened Traps
  import opened TrapPath

  /** A program with a machine trap before its instruction `i`. */
  function Interrupted(h: Hart, prog: seq<Instr>, i: nat, k: Kernel, env: Env): Hart
    requires i <= |prog|
  {
    Exec(MTrap(Exec(h, prog[..i]), k, env), prog[i..])
  }

  /** A program without its instructions from `i` to the end of the macro, which begins at 2 and has 31. */
  function Skipping(prog: seq<Instr>, i: nat): seq<Instr>
    requires |prog| >= 33
  {
    if 2 <= i < 33 then prog[..i] + prog[33..] else prog
  }

  /** Two states that the rest of the path does not tell apart: equal but for t6, the marks of a machine trap, and
      memory other than the trapframe. */
  ghost predicate Alike(a: Hart, b: Hart, k: Kernel) {
    && Wellformed(a) && Wellformed(b)
    && (forall r: Reg :: r != T6 ==> Get(a, r) == Get(b, r))
    && a.pc == b.pc && a.sscratch == b.sscratch && a.mscratch == b.mscratch == k.itr && a.stvec == b.stvec
    && a.sepc == b.sepc && a.spp == b.spp && a.spie == b.spie && a.user == b.user && a.sie == b.sie
    && a.ticks == b.ticks
    && a.mem(k.tf + 248) == b.mem(k.tf + 248) && a.mem(k.tf + 256) == b.mem(k.tf + 256)
    && forall r: Reg :: a.mem(k.tf + SlotOf(r)) == b.mem(k.tf + SlotOf(r))
  }

  lemma TrapAlike(h: Hart, k: Kernel, env: Env)
    requires KernelOk(k) && EnvOk(env) && Wellformed(h) && h.mscratch == k.itr
    ensures Alike(MTrap(h, k, env), h, k)
  {
    hide MTrap, KernelOk;
    MTrapDoes(h, k, env);
    assert forall r: Reg :: Within(k.tf + SlotOf(r), k.tf, 272);
    assert Within(k.tf + 248, k.tf, 272) && Within(k.tf + 256, k.tf, 272);
  }

  // ---- the vector ----

  function Back(): (p: seq<Instr>)
    ensures |p| == 5
  {
    [Csrr(T0, Sscratch), Sd(T0, 72, A0), Ld(SP, 248, A0), Ld(T0, 256, A0), Jr(T0)]
  }

  lemma VectorParts(n: nat)
    requires n <= 31
    ensures |StoreAll()| == 31
    ensures SmodeVector()[..2 + n] == [Csrrw(A0, Sscratch, A0), Addi(T6, A0, 0)] + StoreAll()[..n]
    ensures SmodeVector()[2 + n..] == StoreAll()[n..] + Back()
    ensures SmodeVector()[33..] == Back()
  {
    hide StoreAll;
    MacroPattern(0);
  }

  lemma StepAlike(a: Hart, b: Hart, k: Kernel, n: nat)
    requires FrameFits(k.tf) && Alike(a, b, k) && Get(a, A0) == k.tf && n < 5
    ensures Alike(Step(a, Back()[n]), Step(b, Back()[n]), k) && Get(Step(a, Back()[n]), A0) == k.tf
  {
    hide Step, Alike;
    if n == 0 {
      ReadsAlike(a, b, k);
    } else if n == 1 {
      StoreAlike(a, b, k);
    } else if n == 2 {
      LoadAlike(a, b, k, SP, 248);
    } else if n == 3 {
      LoadAlike(a, b, k, T0, 256);
    } else {
      JumpAlike(a, b, k);
    }
  }

  lemma ReadsAlike(a: Hart, b: Hart, k: Kernel)
    requires Alike(a, b, k)
    ensures var i := Csrr(T0, Sscratch); Alike(Step(a, i), Step(b, i), k) && Get(Step(a, i), A0) == Get(a, A0)
  {
    hide Step, Get, Wellformed, SlotOf;
    CsrrDoes(a, T0, Sscratch);
    CsrrDoes(b, T0, Sscratch);
  }

  lemma LoadAlike(a: Hart, b: Hart, k: Kernel, dst: Reg, off: nat)
    requires FrameFits(k.tf) && Alike(a, b, k) && Get(a, A0) == k.tf && dst != A0 && (off == 248 || off == 256)
    ensures var i := Ld(dst, off, A0); Alike(Step(a, i), Step(b, i), k) && Get(Step(a, i), A0) == k.tf
  {
    hide Step, Get, Wellformed, SlotOf;
    assert Get(b, A0) == k.tf;
    LdDoes(a, dst, off, A0);
    LdDoes(b, dst, off, A0);
  }

  lemma JumpAlike(a: Hart, b: Hart, k: Kernel)
    requires Alike(a, b, k)
    ensures Alike(Step(a, Jr(T0)), Step(b, Jr(T0)), k) && Get(Step(a, Jr(T0)), A0) == Get(a, A0)
  {
    hide Step, Get, Wellformed, SlotOf;
    assert Get(a, T0) == Get(b, T0);
    JrDoes(a, T0);
    JrDoes(b, T0);
  }

  lemma StoreAlike(a: Hart, b: Hart, k: Kernel)
    requires FrameFits(k.tf) && Alike(a, b, k) && Get(a, A0) == k.tf
    ensures Alike(Step(a, Sd(T0, 72, A0)), Step(b, Sd(T0, 72, A0)), k)
    ensures Get(Step(a, Sd(T0, 72, A0)), A0) == k.tf
  {
    hide Step, Get, Wellformed;
    assert Get(b, A0) == k.tf;
    SdDoes(a, T0, 72, A0);
    SdDoes(b, T0, 72, A0);
  }

  lemma {:induction false} BackAlike(a: Hart, b: Hart, k: Kernel, n: nat)
    requires FrameFits(k.tf) && Alike(a, b, k) && Get(a, A0) == k.tf && n <= 5
    ensures Alike(Exec(a, Back()[n..]), Exec(b, Back()[n..]), k)
    decreases 5 - n
  {
    hide Back, Step, Alike;
    if n < 5 {
      StepAlike(a, b, k, n);
      assert Back()[n..][1..] == Back()[n + 1..];
      BackAlike(Step(a, Back()[n]), Step(b, Back()[n]), k, n + 1);
    }
  }

  /** The scratch register is not looked at by the macro, and a0 keeps the frame. */
  lemma {:induction false} BackKeepsA0(h: Hart, k: Kernel, n: nat)
    requires FrameFits(k.tf) && Alike(h, h, k) && Get(h, A0) == k.tf && n <= 5
    ensures var e := Exec(h, Back()[..n]); Alike(e, e, k) && Get(e, A0) == k.tf
  {
    hide Back, Step, Alike;
    if n > 0 {
      BackKeepsA0(h, k, n - 1);
      assert Back()[..n] == Back()[..n - 1] + [Back()[n - 1]];
      ExecAppend(h, Back()[..n - 1], [Back()[n - 1]]);
      var p := Exec(h, Back()[..n - 1]);
      ExecOne(p, Back()[n - 1]);
      StepAlike(p, p, k, n - 1);
    } else {
      assert Back()[..0] == [];
    }
  }

  /** Once `addi t6, a0, 0` is still to come, a machine trap leaves no trace. */
  lemma FromAddi(a: Hart, b: Hart, k: Kernel)
    requires KernelOk(k) && Alike(a, b, k) && Get(a, A0) == k.tf
    ensures var p := [Addi(T6, A0, 0)] + (StoreAll() + Back()); Alike(Exec(a, p), Exec(b, p), k)
  {
    hide StoreAll, Exec, Back, Step, Alike, Get, KernelOk, FrameFits;
    var addi := Addi(T6, A0, 0);
    FromOne(a, addi, StoreAll() + Back());
    FromOne(b, addi, StoreAll() + Back());
    AddiAlike(a, b, k);
    var a1, b1 := Step(a, addi), Step(b, addi);
    ExecAppend(a1, StoreAll(), Back());
    ExecAppend(b1, StoreAll(), Back());
    FramesFit(k);
    StoreAllAlike(a1, b1, k);
    BackAlike(Exec(a1, StoreAll()), Exec(b1, StoreAll()), k, 0);
    assert Back()[0..] == Back();
  }

  lemma StoreAllAlike(a: Hart, b: Hart, k: Kernel)
    requires FrameFits(k.tf) && Alike(a, b, k) && Get(a, A0) == Get(a, T6) == Get(b, T6) == k.tf
    ensures var a', b' := Exec(a, StoreAll()), Exec(b, StoreAll()); Alike(a', b', k) && Get(a', A0) == k.tf
  {
    hide StoreAll, Exec;
    StoreAllDoes(a);
    StoreAllDoes(b);
    SameStored(a, b, Exec(a, StoreAll()), Exec(b, StoreAll()), k);
  }

  lemma SameStored(a: Hart, b: Hart, a': Hart, b': Hart, k: Kernel)
    requires Alike(a, b, k) && Get(a, T6) == Get(b, T6) == k.tf
    requires a' == a.(mem := a'.mem) && b' == b.(mem := b'.mem)
    requires forall r: Reg :: a'.mem(k.tf + SlotOf(r)) == a.x[r] && b'.mem(k.tf + SlotOf(r)) == b.x[r]
    requires forall x :: !(k.tf <= x < k.tf + 248) ==> a'.mem(x) == a.mem(x) && b'.mem(x) == b.mem(x)
    ensures Alike(a', b', k)
  {
    forall r: Reg
      ensures a'.mem(k.tf + SlotOf(r)) == b'.mem(k.tf + SlotOf(r))
    {
      assert a.x[r] == Get(a, r) && b.x[r] == Get(b, r);
    }
  }

  lemma AddiAlike(a: Hart, b: Hart, k: Kernel)
    requires Alike(a, b, k) && Get(a, A0) == k.tf
    ensures var a', b' := Step(a, Addi(T6, A0, 0)), Step(b, Addi(T6, A0, 0));
            Alike(a', b', k) && Get(a', A0) == Get(a', T6) == Get(b', T6) == k.tf
  {
    hide Step, Get, Wellformed;
    assert Get(a, A0) == Get(b, A0);
    MoveDoes(a, T6, A0);
    MoveDoes(b, T6, A0);
  }

  lemma FromOne(h: Hart, i: Instr, p: seq<Instr>)
    ensures Exec(h, [i] + p) == Exec(Step(h, i), p)
  {
    assert ([i] + p)[1..] == p;
  }

  /** A machine trap before an instruction of the vector has the effect of leaving out the rest of the macro, if that
      has begun, and no effect otherwise. */
  lemma VectorSkips(h: Hart, k: Kernel, i: nat, env: Env)
    requires KernelOk(k) && EnvOk(env) && UserInv(h, k) && i < 38
    ensures Alike(Interrupted(EnterS(h), SmodeVector(), i, k, env), Exec(EnterS(h), Skipping(SmodeVector(), i)), k)
  {
    VectorParts(0);
    if i < 2 {
      BeforeMacro(h, k, i, env);
    } else if i <= 33 {
      InMacro(h, k, i - 2, env);
    } else {
      AfterMacro(h, k, i - 33, env);
    }
  }

  /** Where the vector stands with `n` registers stored. */
  ghost function Stored(h: Hart, n: nat): Hart
    requires n <= 31
  {
    Exec(EnterS(h), SmodeVector()[..2 + n])
  }

  lemma StoredDoes(h: Hart, k: Kernel, n: nat)
    requires KernelOk(k) && UserInv(h, k) && n <= 31
    ensures var p := Stored(h, n);
            && Wellformed(p) && Get(p, A0) == Get(p, T6) == k.tf && p.sscratch == Get(h, A0) && p.mscratch == k.itr
            && p.pc == k.vector && p.stvec == k.vector && p.sepc == h.pc && !p.spp && p.ticks == h.ticks
            && p.mem(k.tf + 248) == k.kstack && p.mem(k.tf + 256) == k.handler
            && (forall r: Reg :: p.mem(k.tf + SlotOf(r))
                                 == if r > n then h.mem(k.tf + SlotOf(r))
                                    else if r == A0 || r == T6 then k.tf else Get(h, r))
  {
    hide StoreAll, Exec;
    VectorParts(n);
    var h0, front := EnterS(h), [Csrrw(A0, Sscratch, A0), Addi(T6, A0, 0)];
    ExecAppend(h0, front, StoreAll()[..n]);
    ExecTwo(h0, front[0], front[1]);
    StoresDo(Exec(h0, front), n);
  }

  lemma InMacro(h: Hart, k: Kernel, n: nat, env: Env)
    requires KernelOk(k) && EnvOk(env) && UserInv(h, k) && n <= 31
    ensures Alike(Interrupted(EnterS(h), SmodeVector(), 2 + n, k, env),
                  Exec(EnterS(h), Skipping(SmodeVector(), 2 + n)), k)
  {
    hide StoreAll, SmodeVector, Exec, MTrap, Back, KernelOk, UserInv;
    VectorParts(n);
    StoredDoes(h, k, n);
    var p := Stored(h, n);
    var m := MTrap(p, k, env);
    FramesFit(k);
    MTrapDoes(p, k, env);
    TrapAlike(p, k, env);
    StoresFrom(m, n);
    ExecAppend(m, StoreAll()[n..], Back());
    var m1 := Exec(m, StoreAll()[n..]);
    NotInTrapframe(m, m1, p, k);
    BackAlike(m1, p, k, 0);
    assert Back()[0..] == Back();
    ExecAppend(EnterS(h), SmodeVector()[..2 + n], Back());
    assert n == 31 ==> SmodeVector()[..33] + SmodeVector()[33..] == SmodeVector();
  }

  lemma FramesFit(k: Kernel)
    requires KernelOk(k)
    ensures FrameFits(k.tf) && FrameFits(k.itr)
  {
  }

  /** Stores into the interrupt frame are not seen. */
  lemma NotInTrapframe(m: Hart, m1: Hart, p: Hart, k: Kernel)
    requires KernelOk(k) && Alike(m, p, k) && m1 == m.(mem := m1.mem)
    requires forall a :: !(k.itr <= a < k.itr + 248) ==> m1.mem(a) == m.mem(a)
    ensures Alike(m1, p, k)
  {
  }

  lemma BeforeMacro(h: Hart, k: Kernel, i: nat, env: Env)
    requires KernelOk(k) && EnvOk(env) && UserInv(h, k) && i < 2
    ensures Alike(Interrupted(EnterS(h), SmodeVector(), i, k, env), Exec(EnterS(h), Skipping(SmodeVector(), i)), k)
  {
    hide StoreAll, Exec, MTrap, Back, KernelOk;
    var h0, swap, rest := EnterS(h), Csrrw(A0, Sscratch, A0), [Addi(T6, A0, 0)] + (StoreAll() + Back());
    assert SmodeVector() == [swap] + rest by { VectorIs(); }
    FromOne(h0, swap, rest);
    if i == 0 {
      assert SmodeVector()[..0] == [] && SmodeVector()[0..] == SmodeVector();
      assert Exec(h0, []) == h0 by { ExecNothing(h0); }
      var m := MTrap(h0, k, env);
      TrapAlike(h0, k, env);
      SwapAlike(m, h0, k);
      FromOne(m, swap, rest);
      FromAddi(Step(m, swap), Step(h0, swap), k);
    } else {
      var p := Step(h0, swap);
      assert SmodeVector()[..1] == [swap] && SmodeVector()[1..] == rest;
      ExecOne(h0, swap);
      TrapAlike(p, k, env);
      FromAddi(MTrap(p, k, env), p, k);
    }
  }

  lemma SwapAlike(a: Hart, b: Hart, k: Kernel)
    requires Alike(a, b, k) && b.sscratch == k.tf
    ensures Alike(Step(a, Csrrw(A0, Sscratch, A0)), Step(b, Csrrw(A0, Sscratch, A0)), k)
    ensures Get(Step(a, Csrrw(A0, Sscratch, A0)), A0) == k.tf
  {
    hide Step, Get, Wellformed;
    assert Get(a, A0) == Get(b, A0);
    SwapDoes(a, A0);
    SwapDoes(b, A0);
  }

  lemma VectorIs()
    ensures SmodeVector() == [Csrrw(A0, Sscratch, A0)] + ([Addi(T6, A0, 0)] + (StoreAll() + Back()))
  {
    hide StoreAll;
  }

  lemma ExecNothing(h: Hart)
    ensures Exec(h, []) == h
  {
  }

  lemma AfterMacro(h: Hart, k: Kernel, n: nat, env: Env)
    requires KernelOk(k) && EnvOk(env) && UserInv(h, k) && n < 5
    ensures Alike(Interrupted(EnterS(h), SmodeVector(), 33 + n, k, env),
                  Exec(EnterS(h), SmodeVector()), k)
  {
    hide StoreAll, SmodeVector, Exec, MTrap, Back, KernelOk, UserInv;
    VectorParts(31);
    StoredDoes(h, k, 31);
    var s := Stored(h, 31);
    FramesFit(k);
    BackKeepsA0(s, k, n);
    var p := Exec(s, Back()[..n]);
    assert SmodeVector()[..33 + n] == SmodeVector()[..33] + Back()[..n];
    assert SmodeVector()[33 + n..] == Back()[n..];
    ExecAppend(EnterS(h), SmodeVector()[..33], Back()[..n]);
    TrapAlike(p, k, env);
    SameA0(MTrap(p, k, env), p, k);
    BackAlike(MTrap(p, k, env), p, k, n);
    ExecAppend(p, Back()[n..], []);
    ExecAppend(EnterS(h), SmodeVector()[..33 + n], Back()[n..]);
    assert SmodeVector()[..33 + n] + Back()[n..] == SmodeVector();
  }

  lemma SameA0(a: Hart, b: Hart, k: Kernel)
    requires Alike(a, b, k)
    ensures Get(a, A0) == Get(b, A0)
  {
  }

  // ---- the return ----

  lemma ReturnParts(n: nat)
    requires n <= 31
    ensures ReturnToUser()[..2 + n] == [Csrw(Sscratch, A0), Addi(T6, A0, 0)] + RestoreAll()[..n]
    ensures ReturnToUser()[2 + n..] == RestoreAll()[n..] + [Sret]
    ensures ReturnToUser()[33..] == [Sret]
    ensures ReturnToUser() == [Csrw(Sscratch, A0)] + ([Addi(T6, A0, 0)] + (RestoreAll() + [Sret]))
  {
    hide RestoreAll;
  }

  /** Where the return stands with `n` registers loaded. */
  ghost function Loaded(s: Hart, n: nat): Hart
    requires n <= 31
  {
    Exec(s, ReturnToUser()[..2 + n])
  }

  /** A state at the start of the return. */
  ghost predicate Returning(s: Hart, k: Kernel) {
    KernelOk(k) && Wellformed(s) && Get(s, A0) == k.tf && s.mscratch == k.itr
  }

  lemma LoadedDoes(s: Hart, k: Kernel, n: nat)
    requires Returning(s, k) && n <= 31
    ensures var p := Loaded(s, n);
            && Wellformed(p) && p == s.(x := p.x, sscratch := k.tf)
            && (n < 31 ==> Get(p, T6) == k.tf)
            && (forall r: Reg :: Get(p, r) == if r <= n then s.mem(k.tf + SlotOf(r))
                                              else if r == T6 then k.tf else Get(s, r))
  {
    hide RestoreAll, Exec;
    ReturnParts(n);
    var front := [Csrw(Sscratch, A0), Addi(T6, A0, 0)];
    ExecAppend(s, front, RestoreAll()[..n]);
    ExecTwo(s, front[0], front[1]);
    LoadsDo(Exec(s, front), n);
  }

  /** A machine trap before an instruction of the return has the effect of leaving out the rest of the macro, if that
      has begun, and no effect otherwise. */
  lemma ReturnSkips(s: Hart, k: Kernel, j: nat, env: Env)
    requires Returning(s, k) && EnvOk(env) && j < 34
    ensures Alike(Interrupted(s, ReturnToUser(), j, k, env), Exec(s, Skipping(ReturnToUser(), j)), k)
  {
    if j < 2 {
      ReturnBeforeMacro(s, k, j, env);
    } else {
      ReturnInMacro(s, k, j - 2, env);
    }
  }

  lemma SretAlike(a: Hart, b: Hart, k: Kernel)
    requires Alike(a, b, k)
    ensures Alike(Exec(a, [Sret]), Exec(b, [Sret]), k)
  {
    hide Exec, Get, Wellformed;
    ExecOne(a, Sret);
    ExecOne(b, Sret);
    SameRegisters(a, Step(a, Sret));
    SameRegisters(b, Step(b, Sret));
  }

  lemma SameRegisters(h: Hart, h': Hart)
    requires h'.x == h.x
    ensures (Wellformed(h) <==> Wellformed(h')) && forall r: Reg :: Get(h', r) == Get(h, r)
  {
  }

  lemma ReturnInMacro(s: Hart, k: Kernel, n: nat, env: Env)
    requires Returning(s, k) && EnvOk(env) && n <= 31
    ensures Alike(Interrupted(s, ReturnToUser(), 2 + n, k, env), Exec(s, Skipping(ReturnToUser(), 2 + n)), k)
  {
    hide RestoreAll, ReturnToUser, Exec, MTrap, KernelOk, Get, Wellformed, Alike;
    ReturnParts(n);
    LoadedDoes(s, k, n);
    var p := Loaded(s, n);
    FramesFit(k);
    var m := TrapInMacro(p, k, env);
    LoadsFrom(m, n);
    ExecAppend(m, RestoreAll()[n..], [Sret]);
    var m1 := Exec(m, RestoreAll()[n..]);
    LoadsBack(m, m1, p, k, n);
    SretAlike(m1, p, k);
    ExecAppend(s, ReturnToUser()[..2 + n], [Sret]);
    assert n == 31 ==> ReturnToUser()[..33] + ReturnToUser()[33..] == ReturnToUser();
  }

  lemma TrapInMacro(p: Hart, k: Kernel, env: Env) returns (m: Hart)
    requires KernelOk(k) && EnvOk(env) && Wellformed(p) && p.mscratch == k.itr
    ensures m == MTrap(p, k, env) && Wellformed(m) && Alike(m, p, k) && Get(m, T6) == k.itr
    ensures forall r: Reg :: r != T6 ==> m.mem(k.itr + SlotOf(r)) == Get(p, r)
  {
    hide MTrap, KernelOk;
    m := MTrap(p, k, env);
    MTrapDoes(p, k, env);
    TrapAlike(p, k, env);
  }

  /** Loading from the interrupt frame gives back what the machine trap saved there: the registers as they were. */
  lemma LoadsBack(m: Hart, m1: Hart, p: Hart, k: Kernel, n: nat)
    requires Alike(m, p, k) && m1 == m.(x := m1.x) && Wellformed(m1)
    requires forall r: Reg :: r != T6 ==> m.mem(k.itr + SlotOf(r)) == Get(p, r)
    requires forall r: Reg :: Get(m1, r) == if r > n then m.mem(k.itr + SlotOf(r)) else Get(m, r)
    ensures Alike(m1, p, k)
  {
    hide Get, Wellformed;
  }

  lemma ReturnBeforeMacro(s: Hart, k: Kernel, j: nat, env: Env)
    requires Returning(s, k) && EnvOk(env) && j < 2
    ensures Alike(Interrupted(s, ReturnToUser(), j, k, env), Exec(s, Skipping(ReturnToUser(), j)), k)
  {
    hide RestoreAll, Exec, MTrap, KernelOk, Get, Wellformed, Alike, Step;
    var save, rest := Csrw(Sscratch, A0), [Addi(T6, A0, 0)] + (RestoreAll() + [Sret]);
    ReturnParts(0);
    FramesFit(k);
    FromOne(s, save, rest);
    SaveDoes(s, k);
    if j == 0 {
      assert ReturnToUser()[..0] == [] && ReturnToUser()[0..] == ReturnToUser();
      ExecNothing(s);
      var m := TrapInMacro(s, k, env);
      FromOne(m, save, rest);
      SaveAlike(m, s, k);
      ReturnFromAddi(Step(m, save), Step(s, save), k);
    } else {
      var p := Step(s, save);
      assert ReturnToUser()[..1] == [save] && ReturnToUser()[1..] == rest;
      ExecOne(s, save);
      var m := TrapInMacro(p, k, env);
      ReturnFromAddi(m, p, k);
    }
  }

  lemma SaveDoes(s: Hart, k: Kernel)
    requires Returning(s, k)
    ensures var e := Step(s, Csrw(Sscratch, A0)); e == s.(sscratch := k.tf) && Wellformed(e) && Get(e, A0) == k.tf
  {
  }

  lemma SaveAlike(a: Hart, b: Hart, k: Kernel)
    requires Alike(a, b, k) && Get(b, A0) == k.tf
    ensures Alike(Step(a, Csrw(Sscratch, A0)), Step(b, Csrw(Sscratch, A0)), k)
  {
    hide Get, Wellformed;
    SameRegisters(a, Step(a, Csrw(Sscratch, A0)));
    SameRegisters(b, Step(b, Csrw(Sscratch, A0)));
    assert Get(a, A0) == Get(b, A0);
  }

  lemma ReturnFromAddi(a: Hart, b: Hart, k: Kernel)
    requires FrameFits(k.tf) && Alike(a, b, k) && Get(b, A0) == k.tf
    ensures var p := [Addi(T6, A0, 0)] + (RestoreAll() + [Sret]); Alike(Exec(a, p), Exec(b, p), k)
  {
    hide RestoreAll, Exec, Step, Alike, Get, FrameFits;
    var addi := Addi(T6, A0, 0);
    FromOne(a, addi, RestoreAll() + [Sret]);
    FromOne(b, addi, RestoreAll() + [Sret]);
    SameA0(a, b, k);
    AddiAlike(a, b, k);
    var a1, b1 := Step(a, addi), Step(b, addi);
    ExecAppend(a1, RestoreAll(), [Sret]);
    ExecAppend(b1, RestoreAll(), [Sret]);
    RestoreAllAlike(a1, b1, k);
    SretAlike(Exec(a1, RestoreAll()), Exec(b1, RestoreAll()), k);
  }

  lemma RestoreAllAlike(a: Hart, b: Hart, k: Kernel)
    requires FrameFits(k.tf) && Alike(a, b, k) && Get(a, T6) == Get(b, T6) == k.tf
    ensures Alike(Exec(a, RestoreAll()), Exec(b, RestoreAll()), k)
  {
    hide RestoreAll, Exec;
    RestoreAllDoes(a);
    RestoreAllDoes(b);
  }

  // ---- whole traps ----

  /** A supervisor trap with a machine trap before instruction `i` of the vector. */
  function TrapInVector(h: Hart, k: Kernel, cause: u64, sys: SysCall, env: Env, i: nat, menv: Env): Option<Hart>
    requires i < 38
  {
    FinishTrap(Interrupted(EnterS(h), SmodeVector(), i, k, menv), k, cause, sys, env)
  }

  /** A supervisor trap with a machine trap before instruction `j` of the return. */
  function TrapInReturn(h: Hart, k: Kernel, cause: u64, sys: SysCall, env: Env, j: nat, menv: Env): Option<Hart>
    requires j < 34
  {
    var entered := Exec(EnterS(h), SmodeVector());
    if entered.pc != k.handler then None
    else
      match SmodeHandler(entered, k, cause, sys)
      case None => None
      case Some(handled) => Some(Interrupted(SwitchTo(handled, k, env), ReturnToUser(), j, k, menv))
  }

  /** A register that the path is to bring back: all but t6, which it loses in any case. */
  predicate Carried(r: Reg) {
    r != T6
  }

  /** The value a register is to come back with. */
  function Due(h: Hart, cause: u64, sys: SysCall, r: Reg): u64 {
    if r == A0 && cause == CAUSE_USER_ECALL then sys(Args(h)) else Get(h, r)
  }

  /** The trap comes back as it does undisturbed (`SmodeRoundTrip`): with every register but t6, to the right place, and
      with the user-mode invariant. */
  ghost predicate ComesBack(h: Hart, k: Kernel, cause: u64, sys: SysCall, u: Option<Hart>) {
    && u.Some? && UserInv(u.value, k)
    && (forall r: Reg :: Carried(r) ==> Get(u.value, r) == Due(h, cause, sys, r))
    && u.value.pc == (if cause == CAUSE_USER_ECALL then (h.pc + 4) % TWO64 else h.pc)
    && u.value.ticks == (if cause == CAUSE_USER_ECALL then h.ticks else (h.ticks + 1) % TWO64)
  }

  /** Registers r + 1 up to t5 are those whose store or load is left out by a trap before instruction `i`; a0 is stored
      once more behind the macro. */
  predicate LeftOut(i: nat, r: Reg) {
    2 <= i <= 33 && i - 2 < r && r != T6
  }

  ghost predicate TrapOk(h: Hart, k: Kernel, cause: u64, env: Env, menv: Env) {
    && KernelOk(k) && UserInv(h, k) && EnvOk(env) && EnvOk(menv)
    && cause in {CAUSE_USER_ECALL, CAUSE_MTIMER_S_TRAP}
  }

  /** The trapframe that an interrupted vector leaves: what is left out keeps its old contents. */
  lemma VectorLeaves(h: Hart, k: Kernel, i: nat, env: Env)
    requires KernelOk(k) && EnvOk(env) && UserInv(h, k) && i < 38
    ensures var e := Interrupted(EnterS(h), SmodeVector(), i, k, env);
            && e.pc == k.handler && !e.spp && e.mscratch == k.itr && e.sepc == h.pc && e.ticks == h.ticks
            && forall r: Reg :: Carried(r) ==>
                 e.mem(k.tf + SlotOf(r))
                 == if LeftOut(i, r) && r != A0 then h.mem(k.tf + SlotOf(r)) else Get(h, r)
  {
    hide StoreAll, SmodeVector, Exec, MTrap, KernelOk, Back, Get, SlotOf, Interrupted, Alike, Skipping, EnterS;
    VectorSkips(h, k, i, env);
    var n := if 2 <= i <= 33 then i - 2 else 31;
    VectorParts(n);
    VectorParts(31);
    var p := Stored(h, n);
    StoredDoes(h, k, n);
    FramesFit(k);
    SkippingIs(SmodeVector(), i, n);
    ExecAppend(EnterS(h), SmodeVector()[..2 + n], Back());
    BackDoes(p, k);
    SameSlots(Interrupted(EnterS(h), SmodeVector(), i, k, env), Exec(p, Back()), k);
  }

  lemma SkippingIs(prog: seq<Instr>, i: nat, n: nat)
    requires |prog| >= 33 && n == if 2 <= i <= 33 then i - 2 else 31
    ensures Skipping(prog, i) == prog[..2 + n] + prog[33..]
  {
    assert prog[..33] + prog[33..] == prog;
  }

  lemma SameSlots(a: Hart, b: Hart, k: Kernel)
    requires Alike(a, b, k)
    ensures a.pc == b.pc && a.spp == b.spp && a.mscratch == k.itr && a.sepc == b.sepc && a.ticks == b.ticks
    ensures a.sscratch == b.sscratch && a.stvec == b.stvec && Wellformed(a) && a.user == b.user && a.sie == b.sie
    ensures a.mem(k.tf + 248) == b.mem(k.tf + 248) && a.mem(k.tf + 256) == b.mem(k.tf + 256)
    ensures forall r: Reg :: a.mem(k.tf + SlotOf(r)) == b.mem(k.tf + SlotOf(r))
    ensures forall r: Reg :: Carried(r) ==> Get(a, r) == Get(b, r)
  {
    hide SlotOf;
  }

  lemma BackDoes(p: Hart, k: Kernel)
    requires Wellformed(p) && FrameFits(k.tf) && Get(p, A0) == k.tf
    ensures var e := Exec(p, Back());
            && e == p.(x := e.x, pc := p.mem(k.tf + 256), mem := e.mem)
            && forall r: Reg :: e.mem(k.tf + SlotOf(r)) == if r == A0 then p.sscratch else p.mem(k.tf + SlotOf(r))
  {
    hide Exec, FrameFits, Get, Wellformed;
    VectorEnds(p, k);
  }

  /** A trap interrupted in the vector comes back right exactly when the slots that were left out happened to hold the
      registers already. */
  lemma VectorInterrupted(h: Hart, k: Kernel, cause: u64, sys: SysCall, env: Env, i: nat, menv: Env)
    requires TrapOk(h, k, cause, env, menv) && i < 38
    ensures ComesBack(h, k, cause, sys, TrapInVector(h, k, cause, sys, env, i, menv))
            <==> forall r: Reg :: LeftOut(i, r) && r != A0 ==> h.mem(k.tf + SlotOf(r)) == Get(h, r)
  {
    hide SmodeVector, FinishTrap, Interrupted, KernelOk, SlotOf, SavedArgs, Args;
    VectorLeaves(h, k, i, menv);
    var e := Interrupted(EnterS(h), SmodeVector(), i, k, menv);
    FinishDoes(e, k, cause, sys, env);
    var u := FinishTrap(e, k, cause, sys, env).value;
    if forall r: Reg :: LeftOut(i, r) && r != A0 ==> h.mem(k.tf + SlotOf(r)) == Get(h, r) {
      SameArgs(e.mem, k.tf, h);
    } else {
      var r: Reg :| LeftOut(i, r) && r != A0 && h.mem(k.tf + SlotOf(r)) != Get(h, r);
      assert Carried(r) && Get(u, r) != Due(h, cause, sys, r);
    }
  }

  lemma SameArgs(mem: Memory, tf: u64, h: Hart)
    requires forall r: Reg :: Carried(r) ==> mem(tf + SlotOf(r)) == Get(h, r)
    ensures SavedArgs(mem, tf) == Args(h)
  {
    hide SlotOf;
  }

  /** What an interrupted return leaves: the registers that are left out keep what the kernel had in them. */
  lemma ReturnLeaves(s: Hart, k: Kernel, j: nat, env: Env)
    requires Returning(s, k) && EnvOk(env) && j < 34
    ensures var u := Interrupted(s, ReturnToUser(), j, k, env);
            && Wellformed(u) && u.pc == s.sepc && u.sscratch == k.tf && u.mscratch == k.itr && u.stvec == s.stvec
            && u.ticks == s.ticks && u.user == !s.spp && u.sie == s.spie
            && u.mem(k.tf + 248) == s.mem(k.tf + 248) && u.mem(k.tf + 256) == s.mem(k.tf + 256)
            && forall r: Reg :: Carried(r) ==>
                 Get(u, r) == if LeftOut(j, r) then Get(s, r) else s.mem(k.tf + SlotOf(r))
  {
    hide RestoreAll, ReturnToUser, Exec, MTrap, KernelOk, Get, SlotOf, Interrupted, Wellformed, Alike, Skipping;
    ReturnSkips(s, k, j, env);
    var n := if 2 <= j <= 33 then j - 2 else 31;
    ReturnParts(n);
    ReturnParts(31);
    var p := Loaded(s, n);
    LoadedDoes(s, k, n);
    SkippingIs(ReturnToUser(), j, n);
    ExecAppend(s, ReturnToUser()[..2 + n], [Sret]);
    ExecOne(p, Sret);
    SameRegisters(p, Step(p, Sret));
    SameSlots(Interrupted(s, ReturnToUser(), j, k, env), Step(p, Sret), k);
  }

  /** Where `switch_to` hands over to the return. */
  lemma SwitchedDoes(h: Hart, k: Kernel, cause: u64, sys: SysCall, env: Env)
    returns (s: Hart)
    requires KernelOk(k) && UserInv(h, k) && EnvOk(env) && cause in {CAUSE_USER_ECALL, CAUSE_MTIMER_S_TRAP}
    ensures var e := Exec(EnterS(h), SmodeVector());
            && e.pc == k.handler && SmodeHandler(e, k, cause, sys).Some?
            && s == SwitchTo(SmodeHandler(e, k, cause, sys).value, k, env)
    ensures Returning(s, k) && s.stvec == k.vector && !s.spp && s.spie
    ensures s.mem(k.tf + 248) == k.kstack && s.mem(k.tf + 256) == k.handler
    ensures s.sepc == (if cause == CAUSE_USER_ECALL then (h.pc + 4) % TWO64 else h.pc)
    ensures s.ticks == (if cause == CAUSE_USER_ECALL then h.ticks else (h.ticks + 1) % TWO64)
    ensures forall r: Reg :: Carried(r) ==> s.mem(k.tf + SlotOf(r)) == Due(h, cause, sys, r)
    ensures forall r: Reg :: Get(s, r) == if r == A0 then k.tf else env.x[r]
  {
    hide Exec, SmodeVector, SmodeHandler, SwitchTo, SlotOf, SavedArgs, Args, KernelOk;
    VectorSaves(h, k);
    var e := Exec(EnterS(h), SmodeVector());
    HandlerFrame(e, k, cause, sys);
    var handled := SmodeHandler(e, k, cause, sys).value;
    s := SwitchTo(handled, k, env);
    SwitchToFields(handled, k, env);
    SwitchToFrame(handled, k, env);
    SameArgs(e.mem, k.tf, h);
  }

  /** A trap interrupted in the return comes back right exactly when the kernel's registers that were left alone
      happened to hold what is due. */
  lemma ReturnInterrupted(h: Hart, k: Kernel, cause: u64, sys: SysCall, env: Env, j: nat, menv: Env)
    requires TrapOk(h, k, cause, env, menv) && j < 34
    ensures ComesBack(h, k, cause, sys, TrapInReturn(h, k, cause, sys, env, j, menv))
            <==> forall r: Reg :: LeftOut(j, r) ==> (if r == A0 then k.tf else env.x[r]) == Due(h, cause, sys, r)
  {
    hide Exec, SmodeVector, ReturnToUser, SmodeHandler, SwitchTo, SlotOf, KernelOk, Due, Interrupted;
    var s := SwitchedDoes(h, k, cause, sys, env);
    ReturnLeaves(s, k, j, menv);
    var u := Interrupted(s, ReturnToUser(), j, k, menv);
    assert TrapInReturn(h, k, cause, sys, env, j, menv) == Some(u);
    if r: Reg :| LeftOut(j, r) && (if r == A0 then k.tf else env.x[r]) != Due(h, cause, sys, r) {
      assert Carried(r) && Get(u, r) != Due(h, cause, sys, r);
    }
  }

  // ---- the windows ----

  /** Behind `addi t6, a0, 0`, up to the last use of t6 for a register other than t6 itself. */
  predicate InWindow(i: nat) {
    2 <= i < 32
  }

  /** A hart in user mode with one in t5, above a trapframe with zeros in the register slots. */
  function BusyHart(): Hart {
    Set(UserHart(), T5, 1)
  }

  function Env0(): Env {
    Env(UserHart().x, _ => 0)
  }

  lemma BusyOk()
    ensures TrapOk(BusyHart(), KERNEL, CAUSE_MTIMER_S_TRAP, Env0(), Env0())
    ensures Get(BusyHart(), T5) == 1 && BusyHart().mem(KERNEL.tf + SlotOf(T5)) == 0 && Env0().x[T5] == 0
  {
  }

  /** In the window of the vector this state loses t5: its stale slot comes back. */
  lemma BreaksInVector(i: nat, sys: SysCall)
    requires InWindow(i)
    ensures TrapOk(BusyHart(), KERNEL, CAUSE_MTIMER_S_TRAP, Env0(), Env0())
    ensures !ComesBack(BusyHart(), KERNEL, CAUSE_MTIMER_S_TRAP, sys,
                       TrapInVector(BusyHart(), KERNEL, CAUSE_MTIMER_S_TRAP, sys, Env0(), i, Env0()))
  {
    hide BusyHart, Env0, ComesBack, TrapInVector, TrapOk;
    BusyOk();
    VectorInterrupted(BusyHart(), KERNEL, CAUSE_MTIMER_S_TRAP, sys, Env0(), i, Env0());
    assert LeftOut(i, T5);
  }

  /** In the window of the return it loses t5 to the kernel's. */
  lemma BreaksInReturn(j: nat, sys: SysCall)
    requires InWindow(j)
    ensures TrapOk(BusyHart(), KERNEL, CAUSE_MTIMER_S_TRAP, Env0(), Env0())
    ensures !ComesBack(BusyHart(), KERNEL, CAUSE_MTIMER_S_TRAP, sys,
                       TrapInReturn(BusyHart(), KERNEL, CAUSE_MTIMER_S_TRAP, sys, Env0(), j, Env0()))
  {
    hide BusyHart, Env0, ComesBack, TrapInReturn, TrapOk;
    BusyOk();
    ReturnInterrupted(BusyHart(), KERNEL, CAUSE_MTIMER_S_TRAP, sys, Env0(), j, Env0());
    assert LeftOut(j, T5);
  }

  /** A machine trap before instruction `i` of the vector is harmless in all states exactly when `i` lies outside the
      window. */
  lemma VectorWindow(i: nat)
    requires i < 38
    ensures (forall h, k, cause, sys: SysCall, env, menv :: TrapOk(h, k, cause, env, menv) ==>
               ComesBack(h, k, cause, sys, TrapInVector(h, k, cause, sys, env, i, menv)))
            <==> !InWindow(i)
  {
    hide ComesBack, TrapInVector, TrapOk;
    if InWindow(i) {
      BreaksInVector(i, _ => 0);
    } else {
      forall h, k, cause, sys: SysCall, env, menv | TrapOk(h, k, cause, env, menv)
        ensures ComesBack(h, k, cause, sys, TrapInVector(h, k, cause, sys, env, i, menv))
      {
        VectorInterrupted(h, k, cause, sys, env, i, menv);
      }
    }
  }

  /** The same for the return. */
  lemma ReturnWindow(j: nat)
    requires j < 34
    ensures (forall h, k, cause, sys: SysCall, env, menv :: TrapOk(h, k, cause, env, menv) ==>
               ComesBack(h, k, cause, sys, TrapInReturn(h, k, cause, sys, env, j, menv)))
            <==> !InWindow(j)
  {
    hide ComesBack, TrapInReturn, TrapOk;
    if InWindow(j) {
      BreaksInReturn(j, _ => 0);
    } else {
      forall h, k, cause, sys: SysCall, env, menv | TrapOk(h, k, cause, env, menv)
        ensures ComesBack(h, k, cause, sys, TrapInReturn(h, k, cause, sys, env, j, menv))
      {
        EnvsOk(h, k, cause, env, menv);
        ReturnInterrupted(h, k, cause, sys, env, j, menv);
      }
    }
  }

  lemma EnvsOk(h: Hart, k: Kernel, cause: u64, env: Env, menv: Env)
    requires TrapOk(h, k, cause, env, menv)
    ensures EnvOk(env)
  {
  }
}
