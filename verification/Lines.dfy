/** The lines of a backtrace, and what of them reaches the host (kernel/syscall.c, lines 113 and 118, through the
    256-byte buffer of spike_interface/spike_utils.c). */
module Lines {
  import opened Words
  import opened CText
  import opened Numerals
  import opened Printf
  import opened PrintfRefinement
  import opened Symbols

  datatype Line = Named(name: string) | Address(addr: u64)

  /** A line in full. */
  function LineText(l: Line): string {
    match l
    case Named(name) => name + "\n"
    case Address(addr) => "0x" + Hex(addr, 16) + "\n"
  }

  /** What the host gets for some lines. */
  function Output(lines: seq<Line>): string {
    if lines == [] then "" else Output(lines[..|lines| - 1]) + HandedOut(LineText(lines[|lines| - 1]))
  }

  /** A name of up to 254 characters arrives as it is; of a longer one the first 255, with a NUL in place of the end of
      the line. An address always arrives. */
  lemma LineArrives(l: Line)
    ensures l.Named? && |l.name| > 254 ==> HandedOut(LineText(l)) == l.name[..255] + "\0"
    ensures (l.Named? ==> |l.name| <= 254) <==> HandedOut(LineText(l)) == LineText(l)
  {
    if l.Named? && |l.name| > 254 {
      assert (l.name + "\n")[..255] == l.name[..255];
      assert LineText(l)[|l.name|] == '\n';
      if |l.name| == 255 {
        assert HandedOut(LineText(l))[255] == '\0';
      }
    }
  }

  /** The strings behind pointers into a string table. */
  function StringsAt(strtab: string): Heap {
    (p: int) => if 0 <= p <= |strtab| then strtab[p..] else ""
  }

  /** What the rest of a format prints and reads, in any buffer of 256, and whether its length is fixed. */
  ghost predicate Formats(s: string, m: Mode, args: seq<int>, heap: Heap, text: string, count: nat, fixed: bool) {
    && Full(s, m, args, heap) == text
    && Conversions(s, m) == count
    && (VariableWidth(s, m) <==> !fixed)
    && forall pos: nat :: NoLongMin(s, m, args, heap, pos, 256)
  }

  lemma NothingLeft(m: Mode, args: seq<int>, heap: Heap)
    ensures Formats("", m, args, heap, "", 0, true)
  {
  }

  /** A character that reads no argument. */
  lemma Passes(s: string, m: Mode, args: seq<int>, heap: Heap, text: string, count: nat, fixed: bool)
    requires s != "" && !(m.Directive? && Converts(s[0]))
    requires Formats(s[1..], NextMode(m, s[0]), args, heap, text, count, fixed)
    ensures Formats(s, m, args, heap, Copied(m, s[0]) + text, count, fixed)
  {
    hide NextMode, Copied;
    forall pos: nat
      ensures NoLongMin(s, m, args, heap, pos, 256)
    {
      assert NoLongMin(s[1..], NextMode(m, s[0]), args, heap, pos + |Copied(m, s[0])|, 256);
    }
  }

  /** A character that prints one. */
  lemma Prints(s: string, m: Mode, args: seq<int>, heap: Heap, text: string, count: nat, fixed: bool)
    requires s != "" && m.Directive? && Converts(s[0]) && s[0] != 'c' && s[0] != 'd'
    requires Formats(s[1..], Copy, Rest(args), heap, text, count, fixed)
    ensures Formats(s, m, args, heap, Converted(s[0], m.long, Arg(args), heap) + text, count + 1,
                    fixed && s[0] != 's')
  {
    hide Converted, Rest, Arg;
    forall pos: nat
      ensures NoLongMin(s, m, args, heap, pos, 256)
    {
      assert NoLongMin(s[1..], Copy, Rest(args), heap, pos + |Converted(s[0], m.long, Arg(args), heap)|, 256);
    }
  }

  lemma NameFormat(p: int, heap: Heap)
    ensures Formats("%s\n", Copy, [p], heap, CStr(heap(p)) + "\n", 1, false)
  {
    hide Formats, CStr;
    var s, text := "%s\n", CStr(heap(p)) + "\n";
    assert s[1..] == "s\n" && s[1..][1..] == "\n" && "\n"[1..] == "" && [p][1..] == [] && "\n" + "" == "\n";
    assert "" + text == text;
    NothingLeft(Copy, [], heap);
    Passes("\n", Copy, [], heap, "", 0, true);
    Prints("s\n", Directive(false), [p], heap, "\n", 0, true);
    Passes("%s\n", Copy, [p], heap, text, 1, false);
  }

  lemma AddressFormat(v: int, heap: Heap)
    ensures Formats("0x%lx\n", Copy, [v], heap, "0x" + Hex(v, 16) + "\n", 1, true)
  {
    hide Formats, Hex;
    var s, text := "0x%lx\n", Hex(v, 16) + "\n";
    assert s[1..] == "x%lx\n" && s[1..][1..] == "%lx\n" && s[1..][1..][1..] == "lx\n";
    assert "lx\n"[1..] == "x\n" && "x\n"[1..] == "\n" && "\n"[1..] == "" && [v][1..] == [] && "\n" + "" == "\n";
    assert "" + text == text && "0" + ("x" + text) == "0x" + Hex(v, 16) + "\n";
    NothingLeft(Copy, [], heap);
    Passes("\n", Copy, [], heap, "", 0, true);
    Prints("x\n", Directive(true), [v], heap, "\n", 0, true);
    Passes("lx\n", Directive(false), [v], heap, text, 1, true);
    Passes("%lx\n", Copy, [v], heap, text, 1, true);
    Passes("x%lx\n", Copy, [v], heap, text, 1, true);
    Passes("0x%lx\n", Copy, [v], heap, "x" + text, 1, true);
  }

  /** `sprint("%s\n", sym_name)`. */
  method PrintName(t: SymbolTable, offset: u32) returns (bytes: string)
    requires |t.strtab| + 1 < TWO31
    ensures bytes == HandedOut(LineText(Named(NameText(t, offset))))
  {
    hide Emitted, Full, HandedOut;
    var heap := StringsAt(t.strtab);
    NameFormat(offset, heap);
    NoCharCut("%s\n", [offset], heap);
    bytes := Vprintk("%s\n", [offset], heap);
  }

  /** A name is as long as it looks: nothing is cut before it. */
  lemma NoCharCut(s: string, args: seq<int>, heap: Heap)
    requires s == "%s\n"
    ensures |Emitted(s, Copy, args, heap, 0, 256)| == |Full(s, Copy, args, heap)|
  {
    hide Converted;
    assert s[1..] == "s\n" && s[1..][1..] == "\n" && s[1..][1..][1..] == "";
    assert forall a, pos: nat :: LengthSafe("\n", Copy, a, heap, pos, 256);
    assert LengthSafe(s[1..], Directive(false), args, heap, 0, 256);
    LengthIsRight(s, Copy, args, heap, 0, 256);
  }

  /** A 64-bit value as a signed number. */
  function ToInt64(v: u64): int {
    if v < TWO63 then v else v - TWO64
  }

  lemma {:induction false} HexModulo(v: int, c: int, k: nat)
    ensures Hex(v + c * Pow16(k), k) == Hex(v, k)
    decreases k
  {
    if k > 0 {
      var d := c * Pow16(k - 1);
      assert c * Pow16(k) == 16 * d by {
        assert c * (16 * Pow16(k - 1)) == 16 * (c * Pow16(k - 1));
      }
      assert (v + 16 * d) / 16 == v / 16 + d && (v + 16 * d) % 16 == v % 16;
      HexModulo(v / 16, c, k - 1);
    }
  }

  /** `sprint("0x%lx\n", ret_addr)`. */
  method PrintAddress(addr: u64) returns (bytes: string)
    ensures bytes == HandedOut(LineText(Line.Address(addr)))
  {
    hide Emitted, Full, HandedOut, Hex;
    var v := ToInt64(addr);
    var heap: Heap := _ => "";
    AddressFormat(v, heap);
    LengthIsFixed("0x%lx\n", Copy, [v], [v], heap, 0, 256);
    SignedHex(addr);
    bytes := Vprintk("0x%lx\n", [v], heap);
  }

  lemma SignedHex(addr: u64)
    ensures Hex(ToInt64(addr), 16) == Hex(addr, 16)
  {
    hide Hex, Pow16;
    Pow16Of16();
    HexModulo(addr, if addr < TWO63 then 0 else -1, 16);
  }

  lemma NoOutput()
    ensures Output([]) == ""
  {
  }

  lemma OutputMore(lines: seq<Line>, l: Line)
    ensures Output(lines + [l]) == Output(lines) + HandedOut(LineText(l))
  {
    assert (lines + [l])[..|lines|] == lines;
  }
}
