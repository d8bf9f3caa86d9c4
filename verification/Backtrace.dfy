/** The stack unwinder of kernel/syscall.c, lines 65-135. */
module Backtrace {
  import opened Words
  import opened Wrappers
  import opened CText
  import opened Symbols
  import opened Lines

  const USER_STACK: u64 := 0x8110_0000

  /** What an eight-byte load from each address yields. */
  type Memory = u64 -> u64

  /** What an unwinding prints, and the addresses it loads from. */
  datatype Trail = Trail(lines: seq<Line>, loads: seq<u64>)

  function Then(a: Trail, b: Trail): Trail {
    Trail(a.lines + b.lines, a.loads + b.loads)
  }

  /** `(uint64)&frame_view[-k]`, in 64-bit arithmetic. */
  function Slot(fp: u64, k: nat): u64
    requires k <= 2
  {
    if fp >= 8 * k then fp - 8 * k else fp - 8 * k + TWO64
  }

  /** `find_symbol_name`, as text. */
  function NameAt(t: SymbolTable, addr: u64): Option<string> {
    var r := Lookup(t.symbols, t.strtabSize, addr);
    if r.Some? then Some(NameText(t, r.value)) else None
  }

  predicate IsHelper(name: string) {
    name == "print_backtrace" || name == "do_user_call"
  }

  /** What is printed for one return address. */
  function LineFor(t: SymbolTable, ret: u64): seq<Line> {
    match NameAt(t, ret)
    case Some(name) => if IsHelper(name) then [] else [Named(name)]
    case None => [Address(ret)]
  }

  predicate IsMain(t: SymbolTable, ret: u64) {
    NameAt(t, ret) == Some("main")
  }

  /** The walk from one frame on, with `left` lines still to print. */
  function Walk(mem: Memory, t: SymbolTable, sp: u64, fp: u64, left: nat): Trail
    decreases if fp < USER_STACK then USER_STACK - fp else 0
  {
    if fp == 0 || left == 0 || fp <= sp || fp >= USER_STACK || Slot(fp, 1) <= sp then Trail([], [])
    else
      var ret := mem(Slot(fp, 1));
      var seen := Trail([], [Slot(fp, 1)]);
      if ret == 0 || IsMain(t, ret) then seen
      else
        var printed := Trail(LineFor(t, ret), [Slot(fp, 1)]);
        if Slot(fp, 2) <= sp then printed
        else
          var next := mem(Slot(fp, 2));
          var loaded := printed.(loads := printed.loads + [Slot(fp, 2)]);
          if next == 0 || next <= fp || next >= USER_STACK then loaded
          else Then(loaded, Walk(mem, t, sp, next, left - |LineFor(t, ret)|))
  }

  /** The whole unwinding, from the registers at the system call: the first frame is that of a leaf function, which
      saves only the caller's frame pointer. */
  function Unwind(mem: Memory, t: SymbolTable, sp: u64, fp: u64, maxDepth: nat): Trail {
    if maxDepth == 0 || fp == 0 || fp <= sp || fp >= USER_STACK || Slot(fp, 1) <= sp then Trail([], [])
    else
      var next := mem(Slot(fp, 1));
      if next == 0 || next <= fp || next >= USER_STACK then Trail([], [Slot(fp, 1)])
      else Then(Trail([], [Slot(fp, 1)]), Walk(mem, t, sp, next, maxDepth))
  }

  /** `sys_user_backtrace`: it loads as `Unwind` says, hands its lines to the host and returns their number. */
  method SysUserBacktrace(mem: Memory, t: SymbolTable, sp: u64, fp: u64, maxDepth: u64)
    returns (count: nat, out: string, ghost loads: seq<u64>)
    requires |t.strtab| + 1 < TWO31
    ensures out == Output(Unwind(mem, t, sp, fp, maxDepth).lines)
    ensures count == |Unwind(mem, t, sp, fp, maxDepth).lines|
    ensures loads == Unwind(mem, t, sp, fp, maxDepth).loads
  {
    hide *;
    UnwindSteps(mem, t, sp, fp, maxDepth);
    NoOutput();
    ghost var lines := [];
    count, out, loads := 0, "", [];
    if maxDepth == 0 {
      return;
    }
    var currentFp: u64 := fp;
    if currentFp == 0 || currentFp <= sp || currentFp >= USER_STACK {
      return;
    }
    if Slot(currentFp, 1) <= sp {
      return;
    }
    loads := loads + [Slot(currentFp, 1)];
    var nextFp := mem(Slot(currentFp, 1));
    if nextFp == 0 || nextFp <= currentFp || nextFp >= USER_STACK {
      return;
    }
    currentFp := nextFp;
    ghost var goal := Unwind(mem, t, sp, fp, maxDepth);
    while currentFp != 0 && count < maxDepth
      invariant count == |lines| <= maxDepth && out == Output(lines)
      invariant Then(Trail(lines, loads), Walk(mem, t, sp, currentFp, maxDepth - count)) == goal
      decreases if currentFp < USER_STACK then USER_STACK - currentFp else 0
    {
      ghost var here, left := Trail(lines, loads), maxDepth - count;
      if currentFp <= sp || currentFp >= USER_STACK {
        WalkStops(mem, t, sp, currentFp, left, here);
        break;
      }
      if Slot(currentFp, 1) <= sp {
        WalkStops(mem, t, sp, currentFp, left, here);
        break;
      }
      loads := loads + [Slot(currentFp, 1)];
      var retAddr := mem(Slot(currentFp, 1));
      WalkSteps(mem, t, sp, currentFp, left, here);
      if retAddr == 0 { break; }
      var sym := FindSymbol(t, retAddr);
      NameFound(t, retAddr);
      if sym.Some? && NameText(t, sym.value) == "main" { break; }
      if sym.Some? {
        if !IsHelper(NameText(t, sym.value)) {
          var bytes := PrintName(t, sym.value);
          OutputMore(lines, Named(NameText(t, sym.value)));
          out, lines := out + bytes, lines + [Named(NameText(t, sym.value))];
          count := count + 1;
        }
      } else {
        var bytes := PrintAddress(retAddr);
        OutputMore(lines, Line.Address(retAddr));
        out, lines := out + bytes, lines + [Line.Address(retAddr)];
        count := count + 1;
      }
      assert lines == here.lines + LineFor(t, retAddr);
      if Slot(currentFp, 2) <= sp { break; }
      loads := loads + [Slot(currentFp, 2)];
      var oldFp := mem(Slot(currentFp, 2));
      if oldFp == 0 || oldFp <= currentFp || oldFp >= USER_STACK { break; }
      currentFp := oldFp;
    }
    if currentFp == 0 || count >= maxDepth {
      WalkStops(mem, t, sp, currentFp, maxDepth - count, Trail(lines, loads));
    }
  }

  lemma UnwindSteps(mem: Memory, t: SymbolTable, sp: u64, fp: u64, maxDepth: nat)
    ensures var all := Unwind(mem, t, sp, fp, maxDepth);
            if maxDepth == 0 || fp == 0 || fp <= sp || fp >= USER_STACK || Slot(fp, 1) <= sp then all == Trail([], [])
            else
              var next := mem(Slot(fp, 1));
              var here := Trail([], [] + [Slot(fp, 1)]);
              if next == 0 || next <= fp || next >= USER_STACK then all == here
              else all == Then(here, Walk(mem, t, sp, next, maxDepth))
  {
    hide Walk, Slot;
    EmptyTrail([Slot(fp, 1)]);
  }

  lemma EmptyTrail(loads: seq<u64>)
    ensures [] + loads == loads
  {
  }

  /** Where the walk stops without another load. */
  lemma WalkStops(mem: Memory, t: SymbolTable, sp: u64, fp: u64, left: nat, before: Trail)
    requires fp == 0 || left == 0 || fp <= sp || fp >= USER_STACK || Slot(fp, 1) <= sp
    ensures Then(before, Walk(mem, t, sp, fp, left)) == before
  {
    assert before.lines + [] == before.lines && before.loads + [] == before.loads;
  }

  /** One frame of the walk, behind what was printed and loaded before. */
  lemma WalkSteps(mem: Memory, t: SymbolTable, sp: u64, fp: u64, left: nat, before: Trail)
    requires !(fp == 0 || left == 0 || fp <= sp || fp >= USER_STACK || Slot(fp, 1) <= sp)
    ensures var all := Then(before, Walk(mem, t, sp, fp, left));
            var ret, line := mem(Slot(fp, 1)), LineFor(t, mem(Slot(fp, 1)));
            var loads := before.loads + [Slot(fp, 1)];
            if ret == 0 || IsMain(t, ret) then all == Trail(before.lines, loads)
            else if Slot(fp, 2) <= sp then all == Trail(before.lines + line, loads)
            else
              var next := mem(Slot(fp, 2));
              var here := Trail(before.lines + line, loads + [Slot(fp, 2)]);
              if next == 0 || next <= fp || next >= USER_STACK then all == here
              else |line| <= 1 && all == Then(here, Walk(mem, t, sp, next, left - |line|))
  {
    hide IsMain, NameAt, Slot;
    var ret := mem(Slot(fp, 1));
    var line := LineFor(t, ret);
    assert before.lines + [] == before.lines;
    if ret != 0 && !IsMain(t, ret) && Slot(fp, 2) > sp {
      var next := mem(Slot(fp, 2));
      assert [Slot(fp, 1)] + [Slot(fp, 2)] == [Slot(fp, 1), Slot(fp, 2)];
      assert before.loads + [Slot(fp, 1)] + [Slot(fp, 2)] == before.loads + [Slot(fp, 1), Slot(fp, 2)];
      if next != 0 && fp < next < USER_STACK {
        ThenAssociates(before, Trail(line, [Slot(fp, 1), Slot(fp, 2)]), Walk(mem, t, sp, next, left - |line|));
      }
    }
  }

  lemma NameFound(t: SymbolTable, ret: u64)
    ensures var r := Lookup(t.symbols, t.strtabSize, ret);
            && (IsMain(t, ret) <==> r.Some? && NameText(t, r.value) == "main")
            && LineFor(t, ret) == if r.None? then [Address(ret)]
                                  else if IsHelper(NameText(t, r.value)) then []
                                  else [Named(NameText(t, r.value))]
  {
    hide Lookup, NameText;
  }

  lemma ThenAssociates(a: Trail, b: Trail, c: Trail)
    ensures Then(Then(a, b), c) == Then(a, Then(b, c))
  {
    assert (a.lines + b.lines) + c.lines == a.lines + (b.lines + c.lines);
    assert (a.loads + b.loads) + c.loads == a.loads + (b.loads + c.loads);
  }

  // ---- arbitrary memory ----

  /** The lines never outnumber the depth asked for, and a smaller depth prints a prefix of a larger one: exactly
      its first lines. */
  lemma {:induction false} WalkTruncates(mem: Memory, t: SymbolTable, sp: u64, fp: u64, left: nat, more: nat)
    requires left <= more
    ensures var long := Walk(mem, t, sp, fp, more).lines;
            && |long| <= more
            && Walk(mem, t, sp, fp, left).lines == if left <= |long| then long[..left] else long
    decreases if fp < USER_STACK then USER_STACK - fp else 0
  {
    hide IsMain, NameAt, LineFor;
    LineForBound(t, mem(Slot(fp, 1)));
    if fp != 0 && sp < fp < USER_STACK && Slot(fp, 1) > sp && left > 0 {
      var ret := mem(Slot(fp, 1));
      var next := mem(Slot(fp, 2));
      if ret != 0 && !IsMain(t, ret) && Slot(fp, 2) > sp && fp < next < USER_STACK {
        var n := |LineFor(t, ret)|;
        WalkTruncates(mem, t, sp, next, left - n, more - n);
      }
    } else if left == 0 {
      WalkBounded(mem, t, sp, fp, more);
    }
  }

  lemma WalkBounded(mem: Memory, t: SymbolTable, sp: u64, fp: u64, left: nat)
    ensures |Walk(mem, t, sp, fp, left).lines| <= left
    decreases if fp < USER_STACK then USER_STACK - fp else 0
  {
    if fp != 0 && sp < fp < USER_STACK && Slot(fp, 1) > sp && left > 0 {
      var ret := mem(Slot(fp, 1));
      var next := mem(Slot(fp, 2));
      if ret != 0 && !IsMain(t, ret) && Slot(fp, 2) > sp && fp < next < USER_STACK {
        WalkBounded(mem, t, sp, next, left - |LineFor(t, ret)|);
      }
    }
  }

  lemma UnwindTruncates(mem: Memory, t: SymbolTable, sp: u64, fp: u64, depth: nat, more: nat)
    requires depth <= more
    ensures var long := Unwind(mem, t, sp, fp, more).lines;
            && |long| <= more
            && Unwind(mem, t, sp, fp, depth).lines == if depth <= |long| then long[..depth] else long
  {
    if fp != 0 && sp < fp < USER_STACK && Slot(fp, 1) > sp {
      WalkTruncates(mem, t, sp, mem(Slot(fp, 1)), depth, more);
    }
  }

  /** All eight bytes of a load lie strictly between the stack pointer and the top of the user stack. */
  predicate Inside(sp: u64, a: u64) {
    sp < a && a + 8 <= USER_STACK
  }

  predicate AllInside(sp: u64, loads: seq<u64>) {
    forall i :: 0 <= i < |loads| ==> Inside(sp, loads[i])
  }

  lemma {:induction false} WalkStaysInside(mem: Memory, t: SymbolTable, sp: u64, fp: u64, left: nat)
    requires sp >= 7
    ensures AllInside(sp, Walk(mem, t, sp, fp, left).loads)
    decreases if fp < USER_STACK then USER_STACK - fp else 0
  {
    hide LineFor, IsMain;
    if fp != 0 && sp < fp < USER_STACK && Slot(fp, 1) > sp && left > 0 {
      var ret := mem(Slot(fp, 1));
      var next := mem(Slot(fp, 2));
      if ret != 0 && !IsMain(t, ret) && Slot(fp, 2) > sp && fp < next < USER_STACK {
        assert |LineFor(t, ret)| <= 1 by { LineForBound(t, ret); }
        WalkStaysInside(mem, t, sp, next, left - |LineFor(t, ret)|);
      }
    }
  }

  lemma LineForBound(t: SymbolTable, ret: u64)
    ensures |LineFor(t, ret)| <= 1
  {
  }

  /** The bounds checks keep every load inside the user stack for all memories and frame pointers exactly when the
      stack pointer is at least 7: below that, `fp - 8` can wrap around and pass the check. */
  lemma StaysInsideIff(sp: u64)
    ensures sp >= 7 <==>
            forall mem: Memory, t, fp: u64, depth: nat :: AllInside(sp, Unwind(mem, t, sp, fp, depth).loads)
  {
    if sp >= 7 {
      forall mem: Memory, t, fp: u64, depth: nat
        ensures AllInside(sp, Unwind(mem, t, sp, fp, depth).loads)
      {
        if fp != 0 && sp < fp < USER_STACK && Slot(fp, 1) > sp {
          WalkStaysInside(mem, t, sp, mem(Slot(fp, 1)), depth);
        }
      }
    } else {
      var mem: Memory := _ => 0;
      var t := SymbolTable([], "", 0);
      var u := Unwind(mem, t, sp, sp + 1, 1);
      assert u.loads == [sp + 1 - 8 + TWO64];
      assert !Inside(sp, u.loads[0]);
      assert !AllInside(sp, u.loads);
    }
  }

  // ---- a stack laid out by a chain of calls ----

  /** The frame of a caller: its frame pointer and the return address saved in it. */
  datatype Frame = Frame(fp: u64, ret: u64)

  function Store(mem: Memory, a: u64, v: u64): Memory {
    (x: u64) => if x == a then v else mem(x)
  }

  /** What is saved as the caller's frame pointer in the innermost of some frames. */
  function Above(frames: seq<Frame>, bottom: u64): u64 {
    if frames == [] then bottom else frames[0].fp
  }

  /** The stack slots that a chain of calls fills: each frame saves its return address eight bytes below its frame
      pointer and its caller's frame pointer sixteen bytes below; the outermost saves `bottom`. */
  function LayFrames(mem: Memory, frames: seq<Frame>, bottom: u64): Memory
    requires forall i :: 0 <= i < |frames| ==> frames[i].fp >= 16
  {
    if frames == [] then mem
    else
      var rest := LayFrames(mem, frames[1..], bottom);
      Store(Store(rest, frames[0].fp - 8, frames[0].ret), frames[0].fp - 16, Above(frames[1..], bottom))
  }

  /** The leaf frame saves only its caller's frame pointer, eight bytes below its own. */
  function LayStack(mem: Memory, leaf: u64, frames: seq<Frame>, bottom: u64): Memory
    requires leaf >= 8 && forall i :: 0 <= i < |frames| ==> frames[i].fp >= 16
  {
    Store(LayFrames(mem, frames, bottom), leaf - 8, Above(frames, bottom))
  }

  /** Frames from the innermost out, each 16 bytes or more above the one before, below the top of the stack. */
  predicate Rising(low: u64, frames: seq<Frame>) {
    && (forall i :: 0 <= i < |frames| ==> low + 16 <= frames[i].fp < USER_STACK && frames[i].ret != 0)
    && forall i, j :: 0 <= i < j < |frames| ==> frames[i].fp + 16 <= frames[j].fp
  }

  /** The callers nearest first, up to but not including `main`. */
  function BeforeMain(t: SymbolTable, frames: seq<Frame>): seq<Frame> {
    if frames == [] || IsMain(t, frames[0].ret) then [] else [frames[0]] + BeforeMain(t, frames[1..])
  }

  /** A line for each, leaving the helpers out. */
  function LinesOf(t: SymbolTable, frames: seq<Frame>): seq<Line> {
    if frames == [] then [] else LineFor(t, frames[0].ret) + LinesOf(t, frames[1..])
  }

  function FirstLines(lines: seq<Line>, n: nat): seq<Line> {
    if n <= |lines| then lines[..n] else lines
  }

  predicate SlotsHold(mem: Memory, frames: seq<Frame>, bottom: u64) {
    forall i {:trigger frames[i]} :: 0 <= i < |frames| ==>
      frames[i].fp >= 16
      && mem(frames[i].fp - 8) == frames[i].ret
      && mem(frames[i].fp - 16) == Above(frames[i + 1..], bottom)
  }

  lemma {:induction false} LayFramesHolds(mem: Memory, low: u64, frames: seq<Frame>, bottom: u64)
    requires Rising(low, frames)
    ensures SlotsHold(LayFrames(mem, frames, bottom), frames, bottom)
    decreases |frames|
  {
    if frames != [] {
      var rest := frames[1..];
      LayFramesHolds(mem, frames[0].fp, rest, bottom);
      var inner := LayFrames(mem, rest, bottom);
      var outer := LayFrames(mem, frames, bottom);
      forall i | 0 <= i < |frames|
        ensures outer(frames[i].fp - 8) == frames[i].ret
        ensures outer(frames[i].fp - 16) == Above(frames[i + 1..], bottom)
      {
        if i > 0 {
          assert frames[i] == rest[i - 1] && frames[i + 1..] == rest[i..];
          assert frames[0].fp + 16 <= frames[i].fp;
        }
      }
    }
  }

  /** One frame of the walk, where both of its slots lie above the stack pointer. */
  lemma WalkAt(mem: Memory, t: SymbolTable, sp: u64, fp: u64, left: nat)
    requires sp + 16 < fp < USER_STACK
    ensures |LineFor(t, mem(fp - 8))| <= 1
    ensures var ret, next := mem(fp - 8), mem(fp - 16);
            Walk(mem, t, sp, fp, left).lines
            == if left == 0 || ret == 0 || IsMain(t, ret) then []
               else if next == 0 || next <= fp || next >= USER_STACK then LineFor(t, ret)
               else LineFor(t, ret) + Walk(mem, t, sp, next, left - |LineFor(t, ret)|).lines
  {
  }

  lemma FirstLinesAppend(a: seq<Line>, b: seq<Line>, n: nat)
    requires |a| <= n
    ensures FirstLines(a + b, n) == a + FirstLines(b, n - |a|)
  {
  }

  /** The walk over frames laid out in memory. `bottom` ends the chain: it is no frame pointer above the last. */
  lemma {:induction false} WalkInvertsFrames(mem: Memory, t: SymbolTable, sp: u64, frames: seq<Frame>, bottom: u64,
                                             left: nat)
    requires frames != [] && Rising(sp, frames) && sp < frames[0].fp - 16
    requires SlotsHold(mem, frames, bottom)
    requires bottom == 0 || bottom >= USER_STACK || bottom <= frames[|frames| - 1].fp
    ensures Walk(mem, t, sp, frames[0].fp, left).lines == FirstLines(LinesOf(t, BeforeMain(t, frames)), left)
    decreases |frames|
  {
    hide Walk, LineFor, IsMain, FirstLines;
    var fp, ret, rest := frames[0].fp, frames[0].ret, frames[1..];
    assert mem(fp - 8) == ret && mem(fp - 16) == Above(rest, bottom);
    WalkAt(mem, t, sp, fp, left);
    if left == 0 {
      FirstNone(LinesOf(t, BeforeMain(t, frames)));
    } else if IsMain(t, ret) {
      FirstFew([], left);
    } else {
      var line := LineFor(t, ret);
      assert LinesOf(t, BeforeMain(t, frames)) == line + LinesOf(t, BeforeMain(t, rest)) by {
        assert ([frames[0]] + BeforeMain(t, rest))[1..] == BeforeMain(t, rest);
      }
      FirstLinesAppend(line, LinesOf(t, BeforeMain(t, rest)), left);
      if rest == [] {
        FirstFew([], left - |line|);
        assert line + [] == line;
      } else {
        RestRises(sp, mem, frames, bottom);
        WalkInvertsFrames(mem, t, sp, rest, bottom, left - |line|);
      }
    }
  }

  lemma RestRises(sp: u64, mem: Memory, frames: seq<Frame>, bottom: u64)
    requires |frames| > 1 && Rising(sp, frames) && sp < frames[0].fp - 16 && SlotsHold(mem, frames, bottom)
    ensures Rising(sp, frames[1..]) && sp < frames[1].fp - 16 && SlotsHold(mem, frames[1..], bottom)
  {
    var rest := frames[1..];
    forall i | 0 <= i < |rest|
      ensures rest[i] == frames[i + 1] && rest[i + 1..] == frames[i + 2..]
    {
    }
  }

  lemma FirstNone(lines: seq<Line>)
    ensures FirstLines(lines, 0) == []
  {
  }

  lemma FirstFew(lines: seq<Line>, n: nat)
    requires |lines| <= n
    ensures FirstLines(lines, n) == lines
  {
  }

  /** Unwinding inverts layout: for a leaf frame and callers laid out on the stack, the backtrace of depth d prints
      the first d callers that are not helpers, nearest first, and stops before `main`. */
  lemma UnwindInvertsLayout(mem0: Memory, t: SymbolTable, sp: u64, leaf: u64, frames: seq<Frame>, bottom: u64,
                            depth: nat)
    requires sp + 8 < leaf < USER_STACK
    requires frames != [] && Rising(leaf, frames)
    requires bottom == 0 || bottom >= USER_STACK || bottom <= frames[|frames| - 1].fp
    ensures Unwind(LayStack(mem0, leaf, frames, bottom), t, sp, leaf, depth).lines
            == FirstLines(LinesOf(t, BeforeMain(t, frames)), depth)
  {
    var mem := LayStack(mem0, leaf, frames, bottom);
    LayFramesHolds(mem0, leaf, frames, bottom);
    assert SlotsHold(mem, frames, bottom);
    assert mem(leaf - 8) == frames[0].fp;
    WalkInvertsFrames(mem, t, sp, frames, bottom, depth);
  }

  // ---- the names and the lines, told from the table ----

  /** The name found for an address is that of the first function around it (`LookupInFields`), spelled in the string
      table at that symbol's offset. */
  lemma NameFoundInFields(t: SymbolTable, addr: u64, i: nat, name: string)
    requires i < |t.symbols| && t.strtabSize <= |t.strtab|
    requires Answers(t.symbols[i], t.strtabSize, addr)
    requires forall j :: 0 <= j < i ==> !Answers(t.symbols[j], t.strtabSize, addr)
    ensures NameAt(t, addr) == Some(name) <==> SpelledAt(t.strtab, t.symbols[i].name, name)
  {
    hide Lookup, NameText, Answers, SpelledAt;
    LookupInFields(t.symbols, t.strtabSize, addr);
    NameWithin(t.symbols[i], t.strtabSize, addr);
    NameTextSpelled(t, t.symbols[i].name, name);
  }

  lemma NameWithin(s: Symbol, strtabSize: nat, addr: u64)
    requires Answers(s, strtabSize, addr)
    ensures s.name < strtabSize
  {
  }

  /** A leaf frame at 0x8100_0E00 and the frames of four callers. */
  function ExampleStack(): Memory {
    (a: u64) =>
      if a == 0x8100_0DF8 then 0x8100_0E40
      else if a == 0x8100_0E38 then 0x8100_1000 else if a == 0x8100_0E30 then 0x8100_0E80
      else if a == 0x8100_0E78 then 0x8100_2000 else if a == 0x8100_0E70 then 0x8100_0EC0
      else if a == 0x8100_0EB8 then 0x8100_3000 else if a == 0x8100_0EB0 then 0x8100_0F00
      else if a == 0x8100_0EF8 then 0x8100_4000 else if a == 0x8100_0EF0 then 0
      else 0
  }

  /** The helper is left out, the unnamed caller is printed as an address, and nothing is printed from `main` on. */
  lemma Example(t: SymbolTable)
    requires NameAt(t, 0x8100_1000) == Some("print_backtrace") && NameAt(t, 0x8100_2000) == Some("f")
    requires NameAt(t, 0x8100_3000) == None && NameAt(t, 0x8100_4000) == Some("main")
    ensures Unwind(ExampleStack(), t, 0x8100_0DC0, 0x8100_0E00, 7)
            == Trail([Named("f"), Line.Address(0x8100_3000)],
                     [0x8100_0DF8, 0x8100_0E38, 0x8100_0E30, 0x8100_0E78, 0x8100_0E70, 0x8100_0EB8, 0x8100_0EB0,
                      0x8100_0EF8])
  {
    ExampleSlots();
    hide NameAt, ExampleStack, Walk;
    ExampleWalk(ExampleStack(), t);
  }

  /** These are frames as `UnwindInvertsLayout` asks for them. */
  lemma ExampleRises()
    ensures Rising(0x8100_0E00, [Frame(0x8100_0E40, 0x8100_1000), Frame(0x8100_0E80, 0x8100_2000),
                                 Frame(0x8100_0EC0, 0x8100_3000), Frame(0x810F_FFFF, 0x8100_4000)])
  {
  }

  lemma ExampleSlots()
    ensures var m := ExampleStack();
            && m(0x8100_0DF8) == 0x8100_0E40 && m(0x8100_0EF8) == 0x8100_4000
            && m(0x8100_0E38) == 0x8100_1000 && m(0x8100_0E30) == 0x8100_0E80
            && m(0x8100_0E78) == 0x8100_2000 && m(0x8100_0E70) == 0x8100_0EC0
            && m(0x8100_0EB8) == 0x8100_3000 && m(0x8100_0EB0) == 0x8100_0F00
  {
  }

  lemma ExampleWalk(m: Memory, t: SymbolTable)
    requires NameAt(t, 0x8100_1000) == Some("print_backtrace") && NameAt(t, 0x8100_2000) == Some("f")
    requires NameAt(t, 0x8100_3000) == None && NameAt(t, 0x8100_4000) == Some("main")
    requires m(0x8100_0E38) == 0x8100_1000 && m(0x8100_0E30) == 0x8100_0E80
    requires m(0x8100_0E78) == 0x8100_2000 && m(0x8100_0E70) == 0x8100_0EC0
    requires m(0x8100_0EB8) == 0x8100_3000 && m(0x8100_0EB0) == 0x8100_0F00
    requires m(0x8100_0EF8) == 0x8100_4000
    ensures Walk(m, t, 0x8100_0DC0, 0x8100_0E40, 7)
            == Trail([Named("f"), Line.Address(0x8100_3000)],
                     [0x8100_0E38, 0x8100_0E30, 0x8100_0E78, 0x8100_0E70, 0x8100_0EB8, 0x8100_0EB0, 0x8100_0EF8])
  {
    hide NameAt, Walk, LineFor;
    var sp := 0x8100_0DC0;
    ExampleLines(t);
    WalkEndsAtMain(m, t, sp, 0x8100_0F00, 5);
    WalkFrame(m, t, sp, 0x8100_0EC0, 6);
    WalkFrame(m, t, sp, 0x8100_0E80, 7);
    WalkFrame(m, t, sp, 0x8100_0E40, 7);
  }

  lemma ExampleLines(t: SymbolTable)
    requires NameAt(t, 0x8100_1000) == Some("print_backtrace") && NameAt(t, 0x8100_2000) == Some("f")
    requires NameAt(t, 0x8100_3000) == None
    ensures LineFor(t, 0x8100_1000) == [] && LineFor(t, 0x8100_2000) == [Named("f")]
    ensures LineFor(t, 0x8100_3000) == [Line.Address(0x8100_3000)]
  {
    hide NameAt;
  }

  lemma WalkFrame(mem: Memory, t: SymbolTable, sp: u64, fp: u64, left: nat)
    requires sp + 16 < fp && left > 0 && fp < mem(fp - 16) < 0x8110_0000
    requires mem(fp - 8) != 0 && NameAt(t, mem(fp - 8)) != Some("main")
    ensures var line := LineFor(t, mem(fp - 8));
            && |line| <= 1
            && Walk(mem, t, sp, fp, left) == Then(Trail(line, [fp - 8, fp - 16]),
                                                  Walk(mem, t, sp, mem(fp - 16), left - |line|))
  {
    hide NameAt;
    LineForBound(t, mem(fp - 8));
    assert [fp - 8] + [fp - 16] == [fp - 8, fp - 16];
  }

  lemma WalkEndsAtMain(mem: Memory, t: SymbolTable, sp: u64, fp: u64, left: nat)
    requires sp + 16 < fp < 0x8110_0000 && left > 0
    requires mem(fp - 8) != 0 && NameAt(t, mem(fp - 8)) == Some("main")
    ensures Walk(mem, t, sp, fp, left) == Trail([], [fp - 8])
  {
    hide NameAt;
  }

  /** The other helper is left out as well, and no other name is. */
  lemma OnlyHelpersLeftOut(t: SymbolTable, ret: u64, name: string)
    requires NameAt(t, ret) == Some(name)
    ensures LineFor(t, ret) == if name in ["print_backtrace", "do_user_call"] then [] else [Named(name)]
  {
  }

  /** A frame at the top of the user stack is used, and one past it is not. */
  lemma StackTop(mem: Memory, t: SymbolTable, sp: u64, depth: nat)
    requires depth > 0 && sp < 0x8100_0000
    ensures Unwind(mem, t, sp, 0x8110_0000, depth).loads == []
    ensures Unwind(mem, t, sp, 0x810F_FFFF, depth).loads != []
  {
    hide Walk;
  }

  /** A saved return address of zero ends the walk before any line, and a saved frame pointer that does not lead on
      ends it after this frame's. */
  lemma WalkEnds(mem: Memory, t: SymbolTable, sp: u64, fp: u64, left: nat)
    requires sp + 16 < fp < 0x8110_0000 && left > 0
    ensures mem(fp - 8) == 0 ==> Walk(mem, t, sp, fp, left) == Trail([], [fp - 8])
    ensures mem(fp - 8) != 0 && !IsMain(t, mem(fp - 8)) && !(fp < mem(fp - 16) < 0x8110_0000) ==>
              Walk(mem, t, sp, fp, left) == Trail(LineFor(t, mem(fp - 8)), [fp - 8, fp - 16])
  {
    hide LineFor, IsMain;
    assert [fp - 8] + [fp - 16] == [fp - 8, fp - 16];
  }
}
