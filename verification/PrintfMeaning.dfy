/** What a format prints, directive by directive, told from its characters. */
module PrintfMeaning {
  import opened Words
  import opened CText
  import opened Numerals
  import opened Printf
  import opened PrintfRefinement

  /** Text without a `%` is printed as it is. */
  lemma {:induction false} PlainText(t: string, u: string, args: seq<int>, heap: Heap)
    requires '%' !in t
    ensures Full(t + u, Copy, args, heap) == t + Full(u, Copy, args, heap)
    ensures Conversions(t + u, Copy) == Conversions(u, Copy)
  {
    if t == "" {
      assert t + u == u && t + Full(u, Copy, args, heap) == Full(u, Copy, args, heap);
    } else {
      assert (t + u)[1..] == t[1..] + u;
      PlainText(t[1..], u, args, heap);
      assert t == [t[0]] + t[1..];
    }
  }

  lemma {:induction false} PlainEmitted(t: string, args: seq<int>, heap: Heap, pos: nat, n: nat)
    requires '%' !in t
    ensures Emitted(t, Copy, args, heap, pos, n) == t && Conversions(t, Copy) == 0
    ensures NoLongMin(t, Copy, args, heap, pos, n)
  {
    if t != "" {
      PlainEmitted(t[1..], args, heap, pos + 1, n);
      assert t == [t[0]] + t[1..];
    }
  }

  /** A format without a `%` is stored as itself, as far as it fits, and its length is returned. */
  method PrintPlain(out: array<char>, n: nat, s: string) returns (r: int)
    requires n <= out.Length && '%' !in s && |s| < TWO31
    modifies out
    ensures r == |s|
    ensures n == 0 ==> out[..] == old(out[..])
    ensures |s| < n ==> out[..] == s + "\0" + old(out[..])[|s| + 1..]
    ensures 0 < n <= |s| ==> out[..] == s[..n - 1] + "\0" + old(out[..])[n..]
  {
    hide Put, Terminate, Emitted, Conversions, NoLongMin;
    var heap: Heap := _ => "";
    PlainEmitted(s, [], heap, 0, n);
    StoredText(out[..], n, s);
    r := Vsnprintf(out, n, s, [], heap);
  }

  /** The rest of a directive whose characters so far convert nothing. */
  lemma {:induction false} InDirective(j: string, c: char, u: string, long: bool, args: seq<int>, heap: Heap)
    requires (forall k :: 0 <= k < |j| ==> j[k] !in "pxdsc") && c in "pxdsc"
    ensures Full(j + [c] + u, Directive(long), args, heap)
            == Converted(c, long || 'l' in j, Arg(args), heap) + Full(u, Copy, Rest(args), heap)
    ensures Conversions(j + [c] + u, Directive(long)) == 1 + Conversions(u, Copy)
  {
    hide Converted;
    if j == "" {
      assert j + [c] + u == [c] + u && ([c] + u)[1..] == u;
    } else {
      assert (j + [c] + u)[1..] == j[1..] + [c] + u;
      InDirective(j[1..], c, u, long || j[0] == 'l', args, heap);
      assert 'l' in j <==> j[0] == 'l' || 'l' in j[1..];
    }
  }

  /** A directive: a `%`, any characters that convert nothing, and one of p, x, d, s and c, which prints the next
      argument, as a long if an `l` came before. */
  lemma DirectivePrints(j: string, c: char, u: string, args: seq<int>, heap: Heap)
    requires (forall k :: 0 <= k < |j| ==> j[k] !in "pxdsc") && c in "pxdsc"
    ensures Full("%" + j + [c] + u, Copy, args, heap)
            == Converted(c, 'l' in j, Arg(args), heap) + Full(u, Copy, Rest(args), heap)
    ensures Conversions("%" + j + [c] + u, Copy) == 1 + Conversions(u, Copy)
  {
    hide Converted;
    var s := "%" + j + [c] + u;
    assert s[1..] == j + [c] + u;
    InDirective(j, c, u, false, args, heap);
    assert Full(s, Copy, args, heap) == "" + Full(s[1..], Directive(false), args, heap);
  }

  /** What each conversion prints of a 64-bit argument. */
  lemma ConvertedMeans(c: char, long: bool, a: int, heap: Heap)
    requires c in "pxdsc" && -TWO63 < a < TWO63
    ensures var t := Converted(c, long, a, heap);
            && (c == 'p' ==> |t| == 18 && t[..2] == "0x" && HexValue(t[2..]) == a % 0x1_0000_0000_0000_0000)
            && (c == 'x' && long ==> |t| == 16 && HexValue(t) == a % 0x1_0000_0000_0000_0000)
            && (c == 'x' && !long ==> |t| == 8 && HexValue(t) == a % 0x1_0000_0000)
            && (c == 'd' && long ==> AtolValue(t) == a)
            && (c == 'd' && !long ==> -0x8000_0000 <= AtolValue(t) < 0x8000_0000
                                      && AtolValue(t) % 0x1_0000_0000 == a % 0x1_0000_0000)
            && (c == 's' ==> SpelledAt(heap(a), 0, t))
            && (c == 'c' ==> |t| == 1 && t[0] as int == a % 256)
  {
    hide Hex, HexValue, Dec, AtolValue, SpelledAt, CStr;
    var v := Number(a, long);
    HexWidths(a);
    HexWidths(v);
    AtolInvertsDec(v);
    assert heap(a)[0..] == heap(a);
    CStrSpelled(heap(a), 0, CStr(heap(a)));
    if c == 'p' {
      assert ("0x" + Hex(a, 16))[2..] == Hex(a, 16);
    }
  }

  /** The digits. */
  lemma DigitLetters(d: nat)
    requires d < 16
    ensures HexDigit(d) == "0123456789abcdef"[d]
    ensures d < 10 ==> DecNat(d) == ["0123456789"[d]]
  {
  }
}
