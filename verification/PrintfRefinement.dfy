/** How the bounded formatter refines the unbounded one, and where it does not: `%c` reads its argument only when
    its character fits (util/snprintf.c, line 65), so behind a cut-off `%c` later conversions read the wrong ones. */
module PrintfRefinement {
  import opened Words
  import opened CText
  import opened Numerals
  import opened Printf

  /** What of some output at `pos` fits into a buffer of `n` beside the terminator. */
  function Fitting(t: string, pos: nat, n: nat): string {
    if pos + |t| < n then t else if pos + 1 >= n then "" else t[..n - 1 - pos]
  }

  lemma FittingAppend(text: string, a: string, b: string, pos: nat, n: nat)
    requires Fitting(a, pos + |text|, n) == Fitting(b, pos + |text|, n)
    requires pos + |text| + |a| < n <==> pos + |text| + |b| < n
    ensures Fitting(text + a, pos, n) == Fitting(text + b, pos, n)
  {
    if pos + 1 < n && pos + |text + a| >= n {
      var k := n - 1 - pos;
      if k <= |text| {
        assert (text + a)[..k] == text[..k] == (text + b)[..k];
      } else {
        assert (text + a)[..k] == text + a[..k - |text|];
        assert (text + b)[..k] == text + b[..k - |text|];
      }
    }
  }

  /** What fits is always right, and whether everything fits is always right. */
  lemma {:induction false} FittingIsRight(s: string, m: Mode, args: seq<int>, heap: Heap, pos: nat, n: nat)
    ensures var e, f := Emitted(s, m, args, heap, pos, n), Full(s, m, args, heap);
            && Fitting(e, pos, n) == Fitting(f, pos, n)
            && (pos + |e| < n <==> pos + |f| < n)
  {
    hide Converted, Fitting;
    if s != "" {
      if m.Directive? && Converts(s[0]) {
        var text := Converted(s[0], m.long, Arg(args), heap);
        var f := Full(s[1..], Copy, Rest(args), heap);
        if s[0] == 'c' && pos + 1 >= n {
          CharConverted(m.long, Arg(args), heap);
          NothingFits(text + Emitted(s[1..], Copy, args, heap, pos + |text|, n), pos, n);
          NothingFits(text + f, pos, n);
        } else {
          FittingIsRight(s[1..], Copy, Rest(args), heap, pos + |text|, n);
          FittingAppend(text, Emitted(s[1..], Copy, Rest(args), heap, pos + |text|, n), f, pos, n);
        }
      } else {
        var text := Copied(m, s[0]);
        var m' := NextMode(m, s[0]);
        FittingIsRight(s[1..], m', args, heap, pos + |text|, n);
        FittingAppend(text, Emitted(s[1..], m', args, heap, pos + |text|, n), Full(s[1..], m', args, heap), pos, n);
      }
    }
  }

  lemma NothingFits(t: string, pos: nat, n: nat)
    requires pos + 1 >= n && t != ""
    ensures Fitting(t, pos, n) == ""
  {
  }

  /** A buffer after writing `t` and terminating it: the text that fits, a NUL, and otherwise what it held. */
  lemma StoredText(buf: string, n: nat, t: string)
    requires n <= |buf|
    ensures var r := Terminate(Put(buf, n, 0, t), n, |t|);
            if n == 0 then r == buf
            else
              var kept := Fitting(t, 0, n);
              |kept| < n && r == kept + "\0" + buf[|kept| + 1..]
  {
  }

  /** Bounded formatting stores what unbounded formatting would, cut to fit, for every format and argument list. */
  lemma StoresFullOutput(buf: string, n: nat, s: string, args: seq<int>, heap: Heap)
    requires n <= |buf|
    ensures var e, f := Emitted(s, Copy, args, heap, 0, n), Full(s, Copy, args, heap);
            Terminate(Put(buf, n, 0, e), n, |e|) == Terminate(Put(buf, n, 0, f), n, |f|)
  {
    hide Emitted, Full, Put, Terminate, Fitting;
    FittingIsRight(s, Copy, args, heap, 0, n);
    StoredText(buf, n, Emitted(s, Copy, args, heap, 0, n));
    StoredText(buf, n, Full(s, Copy, args, heap));
  }

  // ---- the length that is returned ----

  /** A conversion whose width depends on its argument is still to come. */
  predicate VariableWidth(s: string, m: Mode) {
    s != ""
    && if m.Directive? && Converts(s[0]) then s[0] == 'd' || s[0] == 's' || VariableWidth(s[1..], Copy)
       else VariableWidth(s[1..], NextMode(m, s[0]))
  }

  /** No `%d` or `%s` follows a `%c` that is cut off. */
  predicate LengthSafe(s: string, m: Mode, args: seq<int>, heap: Heap, pos: nat, n: nat) {
    s == ""
    || if m.Directive? && Converts(s[0]) then
         if s[0] == 'c' && pos + 1 >= n then !VariableWidth(s[1..], Copy)
         else LengthSafe(s[1..], Copy, Rest(args), heap, pos + |Converted(s[0], m.long, Arg(args), heap)|, n)
       else LengthSafe(s[1..], NextMode(m, s[0]), args, heap, pos + |Copied(m, s[0])|, n)
  }

  lemma FixedWidth(c: char, long: bool, a: int, b: int, heap: Heap)
    requires Converts(c) && c != 'd' && c != 's'
    ensures |Converted(c, long, a, heap)| == |Converted(c, long, b, heap)|
  {
    hide Hex, Number;
  }

  /** Without conversions of variable width the arguments do not matter to the length. */
  lemma {:induction false} LengthIsFixed(s: string, m: Mode, a: seq<int>, b: seq<int>, heap: Heap, pos: nat, n: nat)
    requires !VariableWidth(s, m)
    ensures |Emitted(s, m, a, heap, pos, n)| == |Full(s, m, b, heap)|
  {
    hide Converted;
    if s != "" {
      if m.Directive? && Converts(s[0]) {
        var text := Converted(s[0], m.long, Arg(a), heap);
        FixedWidth(s[0], m.long, Arg(a), Arg(b), heap);
        var a' := if s[0] == 'c' && pos + 1 >= n then a else Rest(a);
        LengthIsFixed(s[1..], Copy, a', Rest(b), heap, pos + |text|, n);
      } else {
        LengthIsFixed(s[1..], NextMode(m, s[0]), a, b, heap, pos + |Copied(m, s[0])|, n);
      }
    }
  }

  /** The result is the length of the full output whenever no `%d` or `%s` follows a cut-off `%c`. */
  lemma {:induction false} LengthIsRight(s: string, m: Mode, args: seq<int>, heap: Heap, pos: nat, n: nat)
    requires LengthSafe(s, m, args, heap, pos, n)
    ensures |Emitted(s, m, args, heap, pos, n)| == |Full(s, m, args, heap)|
  {
    hide Converted;
    if s != "" {
      if m.Directive? && Converts(s[0]) {
        var text := Converted(s[0], m.long, Arg(args), heap);
        if s[0] == 'c' && pos + 1 >= n {
          LengthIsFixed(s[1..], Copy, args, Rest(args), heap, pos + |text|, n);
        } else {
          LengthIsRight(s[1..], Copy, Rest(args), heap, pos + |text|, n);
        }
      } else {
        LengthIsRight(s[1..], NextMode(m, s[0]), args, heap, pos + |Copied(m, s[0])|, n);
      }
    }
  }

  /** A format, arguments and a size for which the result is not the length of the full output. */
  lemma LengthCanBeWrong()
    ensures var heap: Heap := _ => "";
            && Full("%c%d", Copy, [97, 5], heap) == "a5"
            && |Emitted("%c%d", Copy, [97, 5], heap, 0, 1)| == 3
  {
    hide Full, Emitted;
    FullOfCharNumber(_ => "");
    EmittedOfCharNumber(_ => "");
  }

  lemma CharNumber()
    ensures var s := "%c%d"; s[1..] == "c%d" && s[1..][1..] == "%d" && s[1..][1..][1..] == "d"
    ensures var s := "%c%d"; s[1..][1..][1..][1..] == ""
    ensures Dec(97) == "97" && Dec(5) == "5"
  {
    assert DecNat(97) == DecNat(9) + "7";
  }

  lemma FullOfCharNumber(heap: Heap)
    ensures Full("%c%d", Copy, [97, 5], heap) == "a5"
  {
    hide Dec, Emitted;
    CharNumber();
    assert Full("d", Directive(false), [5], heap) == "5" + "";
    assert Full("%d", Copy, [5], heap) == "" + "5";
    assert Full("c%d", Directive(false), [97, 5], heap) == "a" + "5";
  }

  lemma EmittedOfCharNumber(heap: Heap)
    ensures Emitted("%c%d", Copy, [97, 5], heap, 0, 1) == "a97"
  {
    hide Dec, Full;
    CharNumber();
    assert Emitted("d", Directive(false), [97, 5], heap, 1, 1) == "97" + "";
    assert Emitted("%d", Copy, [97, 5], heap, 1, 1) == "" + "97";
    assert Emitted("c%d", Directive(false), [97, 5], heap, 0, 1) == "a" + "97";
  }

  // ---- printing through a fixed buffer ----

  /** What reaches the host for a full output: all of it if shorter than 256, else 255 characters and the NUL. */
  function HandedOut(f: string): string {
    if |f| < 256 then f else f[..255] + "\0"
  }

  /** `vprintk`: the bytes handed to the host file are right even where the returned length is not. */
  method Vprintk(s: string, args: seq<int>, heap: Heap) returns (bytes: string)
    requires Conversions(s, Copy) <= |args|
    requires NoLongMin(s, Copy, args, heap, 0, 256)
    requires |Emitted(s, Copy, args, heap, 0, 256)| < TWO31
    ensures bytes == HandedOut(Full(s, Copy, args, heap))
  {
    hide Emitted, Full, Put, Terminate, Conversions, NoLongMin;
    var out := new char[256];
    ghost var buf := out[..];
    var res := Vsnprintf(out, 256, s, args, heap);
    StoresFullOutput(buf, 256, s, args, heap);
    FittingIsRight(s, Copy, args, heap, 0, 256);
    StoredText(buf, 256, Full(s, Copy, args, heap));
    bytes := out[..if 0 <= res < 256 then res else 256];
  }

  /** Printing a number with `%ld` and reading it back with `atol` gives the number. */
  lemma PrintedNumberReadsBack(v: int, heap: Heap)
    requires -TWO63 < v < TWO63
    ensures Full("%ld", Copy, [v], heap) == Dec(v)
    ensures AtolFits(Full("%ld", Copy, [v], heap)) && AtolValue(Full("%ld", Copy, [v], heap)) == v
  {
    hide Dec, AtolFits, AtolValue;
    var s := "%ld";
    assert s[1..] == "ld" && s[1..][1..] == "d" && s[1..][1..][1..] == "";
    assert Full("d", Directive(true), [v], heap) == Dec(v) + "";
    assert Full("ld", Directive(false), [v], heap) == "" + Dec(v);
    assert Full("%ld", Copy, [v], heap) == "" + Dec(v);
    AtolInvertsDec(v);
  }

  /** The same through a buffer: what `vsnprintf` stores in one that is large enough, `atol` reads as the number. */
  method PrintThenRead(v: int, out: array<char>, n: nat, heap: Heap) returns (r: int)
    requires -TWO63 < v < TWO63
    requires |Dec(v)| < n <= out.Length
    modifies out
    ensures r == v
    ensures out[..] == Dec(v) + "\0" + old(out[..])[|Dec(v)| + 1..]
  {
    hide Dec, AtolFits, AtolValue, Emitted, Full, Put, Terminate;
    ghost var buf := out[..];
    PrintedNumberReadsBack(v, heap);
    NumberIsCallable(v, heap, n);
    var _ := Vsnprintf(out, n, "%ld", [v], heap);
    StoresFullOutput(buf, n, "%ld", [v], heap);
    StoredText(buf, n, Dec(v));
    DecIsText(v, out[..]);
    r := Atol(out[..]);
  }

  lemma NumberIsCallable(v: int, heap: Heap, n: nat)
    requires v > -TWO63
    ensures Conversions("%ld", Copy) == 1 && NoLongMin("%ld", Copy, [v], heap, 0, n)
  {
    hide Dec;
    var s := "%ld";
    assert s[1..] == "ld" && s[1..][1..] == "d" && s[1..][1..][1..] == "";
    assert Conversions("d", Directive(true)) == 1;
    assert Conversions("ld", Directive(false)) == 1;
    assert NoLongMin("d", Directive(true), [v], heap, 0, n);
    assert NoLongMin("ld", Directive(false), [v], heap, 0, n);
  }

  lemma DecIsText(v: int, s: string)
    requires |Dec(v)| < |s| && s[..|Dec(v)|] == Dec(v) && s[|Dec(v)|] == '\0'
    ensures Terminated(s) && CStr(s) == Dec(v)
  {
    hide DecNat;
    forall k | 0 <= k < |Dec(v)|
      ensures s[k] != '\0'
    {
      assert s[k] == Dec(v)[k];
    }
    NulIndexUnique(s, |Dec(v)|);
  }
}
