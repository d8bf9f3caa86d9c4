/** The trap path: util/load_store.S, kernel/strap_vector.S, kernel/machine/mtrap_vector.S, kernel/strap.c and
    kernel/process.c, as programs of a small machine and the C code between them. */
module Traps {
  import opened Words

  // ---- registers and instructions ----

  const RA := 1
  const SP := 2
  const GP := 3
  const TP := 4
  const T0 := 5
  const T1 := 6
  const T2 := 7
  const S0 := 8
  const S1 := 9
  const A0 := 10
  const A1 := 11
  const A2 := 12
  const A3 := 13
  const A4 := 14
  const A5 := 15
  const A6 := 16
  const A7 := 17
  const S2 := 18
  const S3 := 19
  const S4 := 20
  const S5 := 21
  const S6 := 22
  const S7 := 23
  const S8 := 24
  const S9 := 25
  const S10 := 26
  const S11 := 27
  const T3 := 28
  const T4 := 29
  const T5 := 30
  const T6 := 31

  type Reg = r: int | 0 < r < 32 witness 1

  datatype Csr = Sscratch | Mscratch | Mhartid

  datatype Instr =
    | Sd(src: Reg, off: nat, base: Reg)
    | Ld(dst: Reg, off: nat, base: Reg)
    | Addi(dst: Reg, src: Reg, imm: nat)
    | Add(dst: Reg, a: Reg, b: Reg)
    | Mul(dst: Reg, a: Reg, b: Reg)
    | Li(dst: Reg, value: u64)
    | Csrr(dst: Reg, csr: Csr)
    | Csrw(csr: Csr, src: Reg)
    | Csrrw(dst: Reg, csr: Csr, src: Reg)
    | Jr(target: Reg)
    | Sret
    | Mret

  /** The doubleword at each address. */
  type Memory = int -> u64

  /** A hart: the registers x1 to x31 (x0 is always zero), the program counter, the control registers of the trap
      path, and memory. `user` says whether the mode below machine mode is user mode; `sie`, `spp` (true for
      supervisor mode) and `spie` are bits of sstatus, `ssip` a bit of sip. */
  datatype Hart = Hart(x: map<Reg, u64>, pc: u64, sscratch: u64, mscratch: u64, mhartid: u64, stvec: u64, sepc: u64,
                       mepc: u64, user: bool, sie: bool, spp: bool, spie: bool, ssip: bool, ticks: u64, mem: Memory)

  predicate Wellformed(h: Hart) {
    forall r: Reg :: r in h.x
  }

  function Get(h: Hart, r: Reg): u64 {
    if r in h.x then h.x[r] else 0
  }

  function Set(h: Hart, r: Reg, v: u64): Hart {
    h.(x := h.x[r := v])
  }

  function GetCsr(h: Hart, c: Csr): u64 {
    match c
    case Sscratch => h.sscratch
    case Mscratch => h.mscratch
    case Mhartid => h.mhartid
  }

  function SetCsr(h: Hart, c: Csr, v: u64): Hart {
    match c
    case Sscratch => h.(sscratch := v)
    case Mscratch => h.(mscratch := v)
    case Mhartid => h
  }

  function Store(mem: Memory, a: int, v: u64): Memory {
    (b: int) => if b == a then v else mem(b)
  }

  /** 64-bit addition of an offset. */
  function Address(base: u64, off: nat): u64 {
    (base + off) % TWO64
  }

  lemma AddressFits(base: u64, off: nat)
    requires base + off < TWO64
    ensures Address(base, off) == base + off
  {
  }

  function Step(h: Hart, i: Instr): Hart {
    match i
    case Sd(src, off, base) => h.(mem := Store(h.mem, Address(Get(h, base), off), Get(h, src)))
    case Ld(dst, off, base) => Set(h, dst, h.mem(Address(Get(h, base), off)))
    case Addi(dst, src, imm) => Set(h, dst, (Get(h, src) + imm) % TWO64)
    case Add(dst, a, b) => Set(h, dst, (Get(h, a) + Get(h, b)) % TWO64)
    case Mul(dst, a, b) => Set(h, dst, (Get(h, a) * Get(h, b)) % TWO64)
    case Li(dst, value) => Set(h, dst, value)
    case Csrr(dst, csr) => Set(h, dst, GetCsr(h, csr))
    case Csrw(csr, src) => SetCsr(h, csr, Get(h, src))
    case Csrrw(dst, csr, src) => Set(SetCsr(h, csr, Get(h, src)), dst, GetCsr(h, csr))
    case Jr(target) => h.(pc := Get(h, target))
    case Sret => h.(pc := h.sepc, user := !h.spp, sie := h.spie, spp := false, spie := true)
    case Mret => h.(pc := h.mepc)
  }

  lemma CsrrDoes(h: Hart, dst: Reg, csr: Csr)
    ensures var e := Step(h, Csrr(dst, csr));
            && e == h.(x := e.x) && (Wellformed(h) ==> Wellformed(e))
            && forall r: Reg :: Get(e, r) == if r == dst then GetCsr(h, csr) else Get(h, r)
  {
  }

  lemma SdDoes(h: Hart, src: Reg, off: nat, base: Reg)
    requires Get(h, base) + off < TWO64
    ensures var e := Step(h, Sd(src, off, base));
            && e == h.(mem := Store(h.mem, Get(h, base) + off, Get(h, src)))
            && (Wellformed(h) ==> Wellformed(e)) && forall r: Reg :: Get(e, r) == Get(h, r)
  {
    AddressFits(Get(h, base), off);
    hide Address;
  }

  lemma LdDoes(h: Hart, dst: Reg, off: nat, base: Reg)
    requires Get(h, base) + off < TWO64
    ensures var e := Step(h, Ld(dst, off, base));
            && e == h.(x := e.x) && (Wellformed(h) ==> Wellformed(e))
            && forall r: Reg :: Get(e, r) == if r == dst then h.mem(Get(h, base) + off) else Get(h, r)
  {
    AddressFits(Get(h, base), off);
    hide Address;
  }

  lemma MoveDoes(h: Hart, dst: Reg, src: Reg)
    ensures var e := Step(h, Addi(dst, src, 0));
            && e == h.(x := e.x) && (Wellformed(h) ==> Wellformed(e))
            && forall r: Reg :: Get(e, r) == if r == dst then Get(h, src) else Get(h, r)
  {
  }

  lemma SwapDoes(h: Hart, r0: Reg)
    ensures var e := Step(h, Csrrw(r0, Sscratch, r0));
            && e == h.(x := e.x, sscratch := Get(h, r0)) && (Wellformed(h) ==> Wellformed(e))
            && forall r: Reg :: Get(e, r) == if r == r0 then h.sscratch else Get(h, r)
  {
  }

  lemma JrDoes(h: Hart, target: Reg)
    ensures var e := Step(h, Jr(target));
            && e == h.(pc := Get(h, target))
            && (Wellformed(h) ==> Wellformed(e)) && forall r: Reg :: Get(e, r) == Get(h, r)
  {
  }

  function Exec(h: Hart, prog: seq<Instr>): Hart
    decreases |prog|
  {
    if prog == [] then h else Exec(Step(h, prog[0]), prog[1..])
  }

  lemma {:induction false} ExecAppend(h: Hart, p: seq<Instr>, q: seq<Instr>)
    ensures Exec(h, p + q) == Exec(Exec(h, p), q)
    decreases |p|
  {
    if p == [] {
      assert p + q == q;
    } else {
      assert (p + q)[1..] == p[1..] + q;
      ExecAppend(Step(h, p[0]), p[1..], q);
    }
  }

  // ---- saving and restoring all registers ----

  /** `store_all_registers`. */
  function StoreAll(): (p: seq<Instr>)
    ensures |p| == 31
  {
    [Sd(RA, 0, T6), Sd(SP, 8, T6), Sd(GP, 16, T6), Sd(TP, 24, T6), Sd(T0, 32, T6), Sd(T1, 40, T6), Sd(T2, 48, T6),
     Sd(S0, 56, T6), Sd(S1, 64, T6), Sd(A0, 72, T6), Sd(A1, 80, T6), Sd(A2, 88, T6), Sd(A3, 96, T6),
     Sd(A4, 104, T6), Sd(A5, 112, T6), Sd(A6, 120, T6), Sd(A7, 128, T6), Sd(S2, 136, T6), Sd(S3, 144, T6),
     Sd(S4, 152, T6), Sd(S5, 160, T6), Sd(S6, 168, T6), Sd(S7, 176, T6), Sd(S8, 184, T6), Sd(S9, 192, T6),
     Sd(S10, 200, T6), Sd(S11, 208, T6), Sd(T3, 216, T6), Sd(T4, 224, T6), Sd(T5, 232, T6), Sd(T6, 240, T6)]
  }

  /** `restore_all_registers`. */
  function RestoreAll(): (p: seq<Instr>)
    ensures |p| == 31
  {
    [Ld(RA, 0, T6), Ld(SP, 8, T6), Ld(GP, 16, T6), Ld(TP, 24, T6), Ld(T0, 32, T6), Ld(T1, 40, T6), Ld(T2, 48, T6),
     Ld(S0, 56, T6), Ld(S1, 64, T6), Ld(A0, 72, T6), Ld(A1, 80, T6), Ld(A2, 88, T6), Ld(A3, 96, T6),
     Ld(A4, 104, T6), Ld(A5, 112, T6), Ld(A6, 120, T6), Ld(A7, 128, T6), Ld(S2, 136, T6), Ld(S3, 144, T6),
     Ld(S4, 152, T6), Ld(S5, 160, T6), Ld(S6, 168, T6), Ld(S7, 176, T6), Ld(S8, 184, T6), Ld(S9, 192, T6),
     Ld(S10, 200, T6), Ld(S11, 208, T6), Ld(T3, 216, T6), Ld(T4, 224, T6), Ld(T5, 232, T6), Ld(T6, 240, T6)]
  }

  /** The slot of a register in a frame. */
  function SlotOf(r: Reg): nat {
    8 * (r - 1)
  }

  /** Both macros go through the registers in order, each at its slot. */
  lemma MacroPattern(k: nat)
    requires k < 31
    ensures |StoreAll()| == |RestoreAll()| == 31
    ensures StoreAll()[k] == Sd(k + 1, SlotOf(k + 1), T6)
    ensures RestoreAll()[k] == Ld(k + 1, SlotOf(k + 1), T6)
  {
  }

  /** A trapframe, 272 bytes, does not wrap around the address space. */
  predicate FrameFits(base: u64) {
    base + 272 <= TWO64
  }

  lemma {:induction false} StoresDo(h: Hart, k: nat)
    requires Wellformed(h) && k <= 31 && FrameFits(Get(h, T6))
    ensures k <= |StoreAll()|
    ensures var h' := Exec(h, StoreAll()[..k]);
            var base := Get(h, T6);
            && h' == h.(mem := h'.mem)
            && (forall r: Reg :: h'.mem(base + SlotOf(r)) == if r <= k then h.x[r] else h.mem(base + SlotOf(r)))
            && (forall a :: !(base <= a < base + 248) ==> h'.mem(a) == h.mem(a))
  {
    hide StoreAll, RestoreAll, Address;
    if k > 0 {
      AddressFits(Get(h, T6), SlotOf(k));
      MacroPattern(k - 1);
      StoresDo(h, k - 1);
      assert StoreAll()[..k] == StoreAll()[..k - 1] + [StoreAll()[k - 1]];
      ExecAppend(h, StoreAll()[..k - 1], [StoreAll()[k - 1]]);
      ExecOne(Exec(h, StoreAll()[..k - 1]), StoreAll()[k - 1]);
    } else {
      MacroPattern(0);
      assert StoreAll()[..0] == [];
    }
  }

  lemma ExecOne(h: Hart, i: Instr)
    ensures Exec(h, [i]) == Step(h, i)
  {
    assert [i][1..] == [];
  }

  lemma {:induction false} LoadsDo(h: Hart, k: nat)
    requires Wellformed(h) && k <= 31 && FrameFits(Get(h, T6))
    ensures k <= |RestoreAll()|
    ensures var h' := Exec(h, RestoreAll()[..k]);
            var base := Get(h, T6);
            && h' == h.(x := h'.x) && Wellformed(h')
            && (forall r: Reg :: h'.x[r] == if r <= k then h.mem(base + SlotOf(r)) else h.x[r])
  {
    hide StoreAll, RestoreAll, Address;
    if k > 0 {
      AddressFits(Get(h, T6), SlotOf(k));
      MacroPattern(k - 1);
      LoadsDo(h, k - 1);
      assert RestoreAll()[..k] == RestoreAll()[..k - 1] + [RestoreAll()[k - 1]];
      ExecAppend(h, RestoreAll()[..k - 1], [RestoreAll()[k - 1]]);
      ExecOne(Exec(h, RestoreAll()[..k - 1]), RestoreAll()[k - 1]);
    } else {
      MacroPattern(0);
      assert RestoreAll()[..0] == [];
    }
  }

  /** The rest of the storing macro, from register n + 1 on, writes nothing outside its frame. */
  lemma {:induction false} StoresFrom(h: Hart, n: nat)
    requires Wellformed(h) && n <= 31 && FrameFits(Get(h, T6))
    ensures n <= |StoreAll()|
    ensures var h' := Exec(h, StoreAll()[n..]);
            var base := Get(h, T6);
            h' == h.(mem := h'.mem) && forall a :: !(base <= a < base + 248) ==> h'.mem(a) == h.mem(a)
    decreases 31 - n
  {
    hide StoreAll, RestoreAll, Address;
    if n < 31 {
      AddressFits(Get(h, T6), SlotOf(n + 1));
      MacroPattern(n);
      assert StoreAll()[n..][1..] == StoreAll()[n + 1..];
      StoresFrom(Step(h, StoreAll()[n]), n + 1);
    } else {
      MacroPattern(0);
      assert StoreAll()[31..] == [];
    }
  }

  lemma LoadsFromStep(h: Hart, n: nat)
    requires Wellformed(h) && n < 31 && FrameFits(Get(h, T6))
    ensures n < |RestoreAll()|
    ensures var e := Step(h, RestoreAll()[n]);
            && e == h.(x := e.x) && Wellformed(e)
            && forall r: Reg :: Get(e, r) == if r == n + 1 then h.mem(Get(h, T6) + SlotOf(r)) else Get(h, r)
  {
    hide RestoreAll, StoreAll, Step;
    MacroPattern(n);
    LdDoes(h, n + 1, SlotOf(n + 1), T6);
  }

  /** The rest of the loading macro. */
  lemma {:induction false} LoadsFrom(h: Hart, n: nat)
    requires Wellformed(h) && n <= 31 && FrameFits(Get(h, T6))
    ensures n <= |RestoreAll()|
    ensures var h' := Exec(h, RestoreAll()[n..]);
            && h' == h.(x := h'.x) && Wellformed(h')
            && (forall r: Reg :: Get(h', r) == if r > n then h.mem(Get(h, T6) + SlotOf(r)) else Get(h, r))
    decreases 31 - n
  {
    hide StoreAll, RestoreAll, Step, Get, Wellformed;
    if n < 31 {
      MacroPattern(n);
      assert RestoreAll()[n..][1..] == RestoreAll()[n + 1..];
      LoadsFromStep(h, n);
      if n == 30 {
        assert RestoreAll()[31..] == [];
      } else {
        LoadsFrom(Step(h, RestoreAll()[n]), n + 1);
      }
    } else {
      MacroPattern(0);
      assert RestoreAll()[31..] == [];
    }
  }

  /** `store_all_registers` fills the frame that t6 points to and changes nothing else. */
  lemma StoreAllDoes(h: Hart)
    requires Wellformed(h) && FrameFits(Get(h, T6))
    ensures var h' := Exec(h, StoreAll());
            var base := Get(h, T6);
            && h' == h.(mem := h'.mem)
            && (forall r: Reg :: h'.mem(base + SlotOf(r)) == h.x[r])
            && (forall a :: !(base <= a < base + 248) ==> h'.mem(a) == h.mem(a))
  {
    hide StoreAll, Exec, FrameFits;
    MacroPattern(0);
    StoresDo(h, 31);
    assert StoreAll()[..31] == StoreAll();
  }

  /** `restore_all_registers` takes every register, t6 last, from the frame that t6 points to. */
  lemma RestoreAllDoes(h: Hart)
    requires Wellformed(h) && FrameFits(Get(h, T6))
    ensures var h' := Exec(h, RestoreAll());
            var base := Get(h, T6);
            && h' == h.(x := h'.x) && Wellformed(h')
            && (forall r: Reg :: h'.x[r] == h.mem(base + SlotOf(r)))
  {
    hide RestoreAll, Exec, FrameFits;
    MacroPattern(0);
    LoadsDo(h, 31);
    assert RestoreAll()[..31] == RestoreAll();
  }

  /** Restoring after storing gives the registers back, whatever the registers held in between. */
  lemma RestoreInvertsStore(h: Hart, x: map<Reg, u64>)
    requires Wellformed(h) && FrameFits(Get(h, T6))
    requires (forall r: Reg :: r in x) && x[T6] == Get(h, T6)
    ensures forall r: Reg :: Get(Exec(Exec(h, StoreAll()).(x := x), RestoreAll()), r) == Get(h, r)
  {
    hide StoreAll, RestoreAll, Exec, FrameFits, SlotOf;
    StoreAllDoes(h);
    var h1 := Exec(h, StoreAll()).(x := x);
    RestoreAllDoes(h1);
  }
}
