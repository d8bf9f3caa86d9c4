/** When the length that `vsnprintf` returns is that of the full output, exactly: for a format and a size, over all
    calls with them. */
module PrintfLength {
  import opened Words
  import opened Wrappers
  import opened CText
  import opened Numerals
  import opened Printf
  import opened PrintfRefinement

  ghost predicate LengthRight(s: string, m: Mode, args: seq<int>, heap: Heap, pos: nat, n: nat) {
    |Emitted(s, m, args, heap, pos, n)| == |Full(s, m, args, heap)|
  }

  // ---- arguments that show a wrong length ----

  /** `p` everywhere but at index `k`, where it is `q`. */
  predicate OneOff(a: seq<int>, k: int, p: int, q: int) {
    forall i :: 0 <= i < |a| ==> a[i] == if i == k then q else p
  }

  /** How many arguments precede that of the last conversion of variable width. */
  function LastVariable(s: string, m: Mode): (k: nat)
    requires VariableWidth(s, m)
    ensures k < Conversions(s, m)
  {
    if m.Directive? && Converts(s[0]) then
      if VariableWidth(s[1..], Copy) then 1 + LastVariable(s[1..], Copy) else 0
    else LastVariable(s[1..], NextMode(m, s[0]))
  }

  /** That conversion. */
  function LastKind(s: string, m: Mode): (r: (char, bool))
    requires VariableWidth(s, m)
    ensures r.0 == 'd' || r.0 == 's'
  {
    if m.Directive? && Converts(s[0]) then
      if VariableWidth(s[1..], Copy) then LastKind(s[1..], Copy) else (s[0], m.long)
    else LastKind(s[1..], NextMode(m, s[0]))
  }

  predicate Differ(kind: (char, bool), p: int, q: int, heap: Heap)
    requires Converts(kind.0)
  {
    |Converted(kind.0, kind.1, p, heap)| != |Converted(kind.0, kind.1, q, heap)|
  }

  /** Reading its own arguments, the last such conversion alone prints `q`. */
  lemma {:induction false} OwnArguments(s: string, m: Mode, a: seq<int>, b: seq<int>, p: int, q: int, heap: Heap)
    requires VariableWidth(s, m) && Differ(LastKind(s, m), p, q, heap)
    requires OneOff(a, LastVariable(s, m), p, q) && OneOff(b, -1, p, q)
    requires |a| >= Conversions(s, m) && |b| >= Conversions(s, m)
    ensures |Full(s, m, a, heap)| != |Full(s, m, b, heap)|
  {
    hide Converted;
    if m.Directive? && Converts(s[0]) {
      if VariableWidth(s[1..], Copy) {
        OwnArguments(s[1..], Copy, a[1..], b[1..], p, q, heap);
      } else {
        LengthIsFixed(s[1..], Copy, [], a[1..], heap, 0, 0);
        LengthIsFixed(s[1..], Copy, [], b[1..], heap, 0, 0);
      }
    } else {
      OwnArguments(s[1..], NextMode(m, s[0]), a, b, p, q, heap);
    }
  }

  /** Reading one argument too early or more, it does not reach the `q`. */
  lemma {:induction false} EarlierArguments(s: string, m: Mode, a: seq<int>, k: nat, b: seq<int>, p: int, q: int,
                                            heap: Heap, pos: nat, n: nat)
    requires VariableWidth(s, m) && k > LastVariable(s, m) && pos + 1 >= n
    requires OneOff(a, k, p, q) && OneOff(b, -1, p, q)
    requires |a| >= Conversions(s, m) && |b| >= Conversions(s, m)
    ensures |Emitted(s, m, a, heap, pos, n)| == |Full(s, m, b, heap)|
  {
    hide Converted;
    if m.Directive? && Converts(s[0]) {
      var text := Converted(s[0], m.long, p, heap);
      var a', k' := if s[0] == 'c' then a else a[1..], if s[0] == 'c' then k else k - 1;
      if VariableWidth(s[1..], Copy) {
        EarlierArguments(s[1..], Copy, a', k', b[1..], p, q, heap, pos + |text|, n);
      } else {
        LengthIsFixed(s[1..], Copy, a', b[1..], heap, pos + |text|, n);
      }
    } else {
      EarlierArguments(s[1..], NextMode(m, s[0]), a, k, b, p, q, heap, pos + |Copied(m, s[0])|, n);
    }
  }

  /** A small pointer value that is not among those given. */
  lemma FreshPointer(avoid: seq<int>) returns (x: int)
    ensures 0 <= x <= |avoid| && x !in avoid
    decreases |avoid|
  {
    if |avoid| !in avoid {
      x := |avoid|;
    } else {
      var i :| 0 <= i < |avoid| && avoid[i] == |avoid|;
      var others := avoid[..i] + avoid[i + 1..];
      x := FreshPointer(others);
      assert forall j :: 0 <= j < |avoid| && j != i ==> avoid[j] == others[if j < i then j else j - 1];
    }
  }

  /** Two small arguments that a conversion of variable width prints at different lengths, under a heap that keeps
      the strings at some pointers. */
  lemma TwoWidths(kind: (char, bool), heap: Heap, avoid: seq<int>) returns (p: int, q: int, h: Heap)
    requires kind.0 == 'd' || kind.0 == 's'
    ensures Differ(kind, p, q, h)
    ensures 0 <= p <= |avoid| + 10 && 0 <= q <= |avoid| + 10
    ensures forall i :: 0 <= i < |avoid| ==> h(avoid[i]) == heap(avoid[i])
  {
    if kind.0 == 'd' {
      p, q, h := 0, 10, heap;
      assert DecNat(10) == DecNat(1) + "0";
    } else {
      q := FreshPointer(avoid);
      p := if q == 0 then 1 else 0;
      var other := if CStr(heap(p)) == "" then "a" else "";
      h := (x: int) => if x == q then other else heap(x);
      assert CStr(h(p)) == CStr(heap(p)) && CStr(h(q)) == CStr(other);
      NulIndexUnique(other, |other|);
    }
  }

  lemma SmallNotLongMin(s: string, m: Mode, args: seq<int>, heap: Heap, pos: nat, n: nat)
    requires forall i :: 0 <= i < |args| ==> args[i] > -TWO63
    ensures NoLongMin(s, m, args, heap, pos, n)
  {
    hide Converted;
  }

  /** How many arguments are read before the first `%c` that is cut off. */
  function CutAfter(s: string, m: Mode, args: seq<int>, heap: Heap, pos: nat, n: nat): Option<nat> {
    if s == "" then None
    else if m.Directive? && Converts(s[0]) then
      if s[0] == 'c' && pos + 1 >= n then Some(0)
      else Later(CutAfter(s[1..], Copy, Rest(args), heap, pos + |Converted(s[0], m.long, Arg(args), heap)|, n))
    else CutAfter(s[1..], NextMode(m, s[0]), args, heap, pos + |Copied(m, s[0])|, n)
  }

  function Later(c: Option<nat>): Option<nat> {
    if c.Some? then Some(1 + c.value) else None
  }

  /** Wherever a `%d` or `%s` follows a cut-off `%c`, there are arguments that lead to the same cut and to a wrong
      length: the `c` arguments read up to it and their strings are kept, and small ones follow. */
  lemma {:induction false} Misread(s: string, m: Mode, args: seq<int>, heap: Heap, pos: nat, n: nat, avoid: seq<int>)
    returns (a: seq<int>, h: Heap, c: nat)
    requires !LengthSafe(s, m, args, heap, pos, n) && Conversions(s, m) <= |args|
    ensures !LengthRight(s, m, a, h, pos, n) && !LengthSafe(s, m, a, h, pos, n)
    ensures c <= |a| == Conversions(s, m) && a[..c] == args[..c]
    ensures forall i :: 0 <= i < c ==> h(args[i]) == heap(args[i])
    ensures CutAfter(s, m, args, heap, pos, n) == CutAfter(s, m, a, h, pos, n) == Some(c)
    ensures forall i :: 0 <= i < |avoid| ==> h(avoid[i]) == heap(avoid[i])
    ensures forall i :: 0 <= i < |a| ==> a[i] in args || 0 <= a[i] <= |avoid| + |a| + 10
    ensures NoLongMin(s, m, args, heap, pos, n) ==> NoLongMin(s, m, a, h, pos, n)
  {
    hide Converted, LengthRight, NoLongMin, LengthSafe, VariableWidth, CutAfter;
    Unfinished(s, m, args, heap, pos, n);
    if m.Directive? && Converts(s[0]) {
      if s[0] == 'c' && pos + 1 >= n {
        a, h := CutMisread(s, m.long, heap, pos, n, avoid);
        c := 0;
      } else {
        var text := Converted(s[0], m.long, args[0], heap);
        assert args == [args[0]] + args[1..];
        Lead(s, m, args[0], args[1..], heap, pos, n);
        var a', h', c' := Misread(s[1..], Copy, args[1..], heap, pos + |text|, n, avoid + [args[0]]);
        a, h, c := [args[0]] + a', h', 1 + c';
        assert (avoid + [args[0]])[|avoid|] == args[0];
        assert forall i :: 0 <= i < |avoid| ==> (avoid + [args[0]])[i] == avoid[i];
        SameConverted(s[0], m.long, args[0], heap, h);
        Lead(s, m, args[0], a', h, pos, n);
      }
    } else {
      Skip(s, m, args, heap, pos, n);
      a, h, c := Misread(s[1..], NextMode(m, s[0]), args, heap, pos + |Copied(m, s[0])|, n, avoid);
      Skip(s, m, a, h, pos, n);
    }
  }

  lemma Unfinished(s: string, m: Mode, args: seq<int>, heap: Heap, pos: nat, n: nat)
    requires !LengthSafe(s, m, args, heap, pos, n)
    ensures s != ""
    ensures m.Directive? && s[0] == 'c' && pos + 1 >= n ==>
              VariableWidth(s[1..], Copy) && CutAfter(s, m, args, heap, pos, n) == Some(0)
  {
  }

  /** A conversion that reads its argument. */
  lemma Lead(s: string, m: Mode, x: int, a: seq<int>, heap: Heap, pos: nat, n: nat)
    requires s != "" && m.Directive? && Converts(s[0]) && !(s[0] == 'c' && pos + 1 >= n)
    ensures var rest, args, pos' := s[1..], [x] + a, pos + |Converted(s[0], m.long, x, heap)|;
            && (LengthRight(s, m, args, heap, pos, n) <==> LengthRight(rest, Copy, a, heap, pos', n))
            && (LengthSafe(s, m, args, heap, pos, n) <==> LengthSafe(rest, Copy, a, heap, pos', n))
            && CutAfter(s, m, args, heap, pos, n) == Later(CutAfter(rest, Copy, a, heap, pos', n))
            && (NoLongMin(s, m, args, heap, pos, n)
                <==> (s[0] == 'd' ==> Number(x, m.long) > -TWO63) && NoLongMin(rest, Copy, a, heap, pos', n))
  {
    hide Converted;
    assert ([x] + a)[1..] == a;
  }

  /** A character that reads none. */
  lemma Skip(s: string, m: Mode, args: seq<int>, heap: Heap, pos: nat, n: nat)
    requires s != "" && !(m.Directive? && Converts(s[0]))
    ensures var rest, m', pos' := s[1..], NextMode(m, s[0]), pos + |Copied(m, s[0])|;
            && (LengthRight(s, m, args, heap, pos, n) <==> LengthRight(rest, m', args, heap, pos', n))
            && (LengthSafe(s, m, args, heap, pos, n) <==> LengthSafe(rest, m', args, heap, pos', n))
            && CutAfter(s, m, args, heap, pos, n) == CutAfter(rest, m', args, heap, pos', n)
            && (NoLongMin(s, m, args, heap, pos, n) <==> NoLongMin(rest, m', args, heap, pos', n))
  {
    hide Converted, Copied, NextMode;
  }

  lemma SameConverted(c: char, long: bool, a: int, heap: Heap, h: Heap)
    requires Converts(c) && h(a) == heap(a)
    ensures Converted(c, long, a, h) == Converted(c, long, a, heap)
  {
  }

  lemma CutMisread(s: string, long: bool, heap: Heap, pos: nat, n: nat, avoid: seq<int>)
    returns (a: seq<int>, h: Heap)
    requires s != "" && s[0] == 'c' && pos + 1 >= n && VariableWidth(s[1..], Copy)
    ensures !LengthRight(s, Directive(long), a, h, pos, n) && !LengthSafe(s, Directive(long), a, h, pos, n)
    ensures CutAfter(s, Directive(long), a, h, pos, n) == Some(0)
    ensures |a| == Conversions(s, Directive(long))
    ensures forall i :: 0 <= i < |avoid| ==> h(avoid[i]) == heap(avoid[i])
    ensures forall i :: 0 <= i < |a| ==> 0 <= a[i] <= |avoid| + 10
    ensures NoLongMin(s, Directive(long), a, h, pos, n)
  {
    hide Converted, Differ;
    var rest := s[1..];
    var k := LastVariable(rest, Copy);
    var p, q;
    p, q, h := TwoWidths(LastKind(rest, Copy), heap, avoid);
    a := seq(Conversions(s, Directive(long)), i => if i == k + 1 then q else p);
    var b := seq(|a|, i => p);
    CharConverted(long, p, h);
    OwnArguments(rest, Copy, a[1..], b, p, q, h);
    EarlierArguments(rest, Copy, a, k + 1, b, p, q, h, pos + 1, n);
    SmallNotLongMin(s, Directive(long), a, h, pos, n);
  }

  // ---- over all calls ----

  /** A call of `vsnprintf`: arguments of 64 bits that fit in memory, enough of them, and no `%ld` of LONG_MIN. */
  ghost predicate Callable(s: string, args: seq<int>, heap: Heap, n: nat) {
    && Conversions(s, Copy) <= |args|
    && 8 * |args| < TWO64
    && (forall i :: 0 <= i < |args| ==> InLong(args[i]))
    && NoLongMin(s, Copy, args, heap, 0, n)
  }

  lemma SafeIsRight(s: string, args: seq<int>, heap: Heap, n: nat)
    requires LengthSafe(s, Copy, args, heap, 0, n)
    ensures LengthRight(s, Copy, args, heap, 0, n)
  {
    LengthIsRight(s, Copy, args, heap, 0, n);
  }

  /** For every format and size: the length is right in all calls exactly when in none of them a `%d` or `%s` follows a
      cut-off `%c`; and so for all argument lists that are long enough. */
  lemma LengthExactlyWhen(s: string, n: nat)
    ensures (forall args, heap: Heap :: Callable(s, args, heap, n) ==> LengthRight(s, Copy, args, heap, 0, n))
            <==> forall args, heap: Heap :: Callable(s, args, heap, n) ==> LengthSafe(s, Copy, args, heap, 0, n)
    ensures (forall args, heap: Heap :: Conversions(s, Copy) <= |args| ==> LengthRight(s, Copy, args, heap, 0, n))
            <==> forall args, heap: Heap :: Conversions(s, Copy) <= |args| ==> LengthSafe(s, Copy, args, heap, 0, n)
  {
    hide NoLongMin, Conversions, LengthRight, LengthSafe;
    forall args, heap: Heap | LengthSafe(s, Copy, args, heap, 0, n)
      ensures LengthRight(s, Copy, args, heap, 0, n)
    {
      SafeIsRight(s, args, heap, n);
    }
    if args, heap: Heap :| Conversions(s, Copy) <= |args| && !LengthSafe(s, Copy, args, heap, 0, n) {
      var a, h, _ := Misread(s, Copy, args, heap, 0, n, []);
      assert Conversions(s, Copy) <= |a| && !LengthRight(s, Copy, a, h, 0, n);
    }
    if args, heap: Heap :| Callable(s, args, heap, n) && !LengthSafe(s, Copy, args, heap, 0, n) {
      var a, h, _ := Misread(s, Copy, args, heap, 0, n, []);
      assert Callable(s, a, h, n);
    }
  }

  /** The same from within a format: once a `%c` is cut off, the length is right for all arguments exactly when neither
      a `%d` nor a `%s` follows. */
  lemma CutExactlyWhen(s: string, long: bool, pos: nat, n: nat)
    requires s != "" && s[0] == 'c' && pos + 1 >= n
    ensures !VariableWidth(s[1..], Copy) <==>
            forall args, heap: Heap :: Conversions(s, Directive(long)) <= |args| ==>
              LengthRight(s, Directive(long), args, heap, pos, n)
  {
    if VariableWidth(s[1..], Copy) {
      var a, h := CutMisread(s, long, _ => "", pos, n, []);
    } else {
      forall args, heap: Heap
        ensures LengthRight(s, Directive(long), args, heap, pos, n)
      {
        LengthIsRight(s, Directive(long), args, heap, pos, n);
      }
    }
  }

  // ---- read off the format ----

  /** The most that a conversion prints; for `%s`, enough to fill the buffer. */
  function MaxWidth(c: char, long: bool, n: nat): nat
    requires Converts(c)
  {
    if c == 'p' then 18
    else if c == 'x' then (if long then 16 else 8)
    else if c == 'd' then (if long then 20 else 11)
    else if c == 's' then n
    else 1
  }

  /** Even at its widest the format cuts off no `%c` that a `%d` or `%s` follows. */
  predicate AlwaysSafe(s: string, m: Mode, pos: nat, n: nat) {
    s == ""
    || if m.Directive? && Converts(s[0]) then
         if s[0] == 'c' && pos + 1 >= n then !VariableWidth(s[1..], Copy)
         else AlwaysSafe(s[1..], Copy, pos + MaxWidth(s[0], m.long, n), n)
       else AlwaysSafe(s[1..], NextMode(m, s[0]), pos + |Copied(m, s[0])|, n)
  }

  function Pow10(k: nat): nat {
    if k == 0 then 1 else 10 * Pow10(k - 1)
  }

  lemma {:induction false} DecNatLength(v: nat, k: nat)
    requires k > 0
    ensures v < Pow10(k) ==> |DecNat(v)| <= k
    ensures v >= Pow10(k - 1) ==> |DecNat(v)| >= k
    decreases k
  {
    if k > 1 {
      DecNatLength(v / 10, k - 1);
    }
  }

  lemma Powers()
    ensures Pow10(9) == 1_000_000_000 && Pow10(10) == 10_000_000_000
    ensures Pow10(18) == 1_000_000_000_000_000_000 && Pow10(19) == 10_000_000_000_000_000_000
  {
    assert Pow10(5) == 100_000;
    assert Pow10(14) == 100_000_000_000_000 by { assert Pow10(10) == 10_000_000_000; }
  }

  lemma WidthBound(c: char, long: bool, a: int, heap: Heap, n: nat)
    requires Converts(c) && c != 's' && InLong(a)
    requires c == 'd' ==> Number(a, long) > -TWO63
    ensures |Converted(c, long, a, heap)| <= MaxWidth(c, long, n)
  {
    hide Hex, DecNat;
    if c == 'd' {
      var v := Number(a, long);
      Powers();
      DecNatLength(if v < 0 then -v else v, if long then 19 else 10);
    }
  }

  lemma {:induction false} FixedIsSafe(s: string, m: Mode, args: seq<int>, heap: Heap, pos: nat, n: nat)
    requires !VariableWidth(s, m)
    ensures LengthSafe(s, m, args, heap, pos, n)
  {
    hide Converted;
    if s != "" {
      if m.Directive? && Converts(s[0]) {
        FixedIsSafe(s[1..], Copy, Rest(args), heap, pos + |Converted(s[0], m.long, Arg(args), heap)|, n);
      } else {
        FixedIsSafe(s[1..], NextMode(m, s[0]), args, heap, pos + |Copied(m, s[0])|, n);
      }
    }
  }

  /** A format that is safe at its widest is safe: at no position are its characters further right. */
  lemma {:induction false} SafeAtWidest(s: string, m: Mode, args: seq<int>, heap: Heap, pos: nat, widest: nat, n: nat)
    requires AlwaysSafe(s, m, widest, n) && (pos <= widest || widest + 1 >= n)
    requires (forall i :: 0 <= i < |args| ==> InLong(args[i])) && NoLongMin(s, m, args, heap, pos, n)
    ensures LengthSafe(s, m, args, heap, pos, n)
  {
    hide Converted, MaxWidth;
    if s != "" {
      if m.Directive? && Converts(s[0]) {
        var text := Converted(s[0], m.long, Arg(args), heap);
        if s[0] == 'c' && widest + 1 >= n {
          FixedIsSafe(s[1..], Copy, Rest(args), heap, pos + |text|, n);
        } else {
          Advance(s[0], m.long, Arg(args), heap, pos, widest, n);
          SafeAtWidest(s[1..], Copy, Rest(args), heap, pos + |text|, widest + MaxWidth(s[0], m.long, n), n);
        }
      } else {
        var k := |Copied(m, s[0])|;
        SafeAtWidest(s[1..], NextMode(m, s[0]), args, heap, pos + k, widest + k, n);
      }
    }
  }

  lemma Advance(c: char, long: bool, a: int, heap: Heap, pos: nat, widest: nat, n: nat)
    requires Converts(c) && InLong(a) && (c == 'd' ==> Number(a, long) > -TWO63)
    requires pos <= widest || widest + 1 >= n
    ensures var k, w := |Converted(c, long, a, heap)|, MaxWidth(c, long, n);
            pos + k <= widest + w || widest + w + 1 >= n
  {
    hide Converted;
    if c != 's' {
      WidthBound(c, long, a, heap, n);
    }
  }

  /** The argument that a conversion prints widest, with `LongStrings` behind every pointer. */
  function Widest(c: char, long: bool): int {
    if c != 'd' then 0 else if long then 1 - TWO63 else -TWO31
  }

  function LongStrings(n: nat): Heap {
    _ => seq(n, _ => 'a')
  }

  function WidestArgs(s: string, m: Mode): (a: seq<int>)
    ensures |a| == Conversions(s, m)
    ensures forall i :: 0 <= i < |a| ==> -TWO63 < a[i] < TWO63
  {
    if s == "" then []
    else if m.Directive? && Converts(s[0]) then [Widest(s[0], m.long)] + WidestArgs(s[1..], Copy)
    else WidestArgs(s[1..], NextMode(m, s[0]))
  }

  lemma WidestIsMax(c: char, long: bool, n: nat)
    requires Converts(c)
    ensures |Converted(c, long, Widest(c, long), LongStrings(n))| == MaxWidth(c, long, n)
  {
    hide Hex, DecNat;
    if c == 's' {
      NulIndexUnique(LongStrings(n)(0), n);
    } else if c == 'd' {
      Powers();
      DecNatLength(if long then TWO63 - 1 else TWO31, if long then 19 else 10);
    }
  }

  lemma {:induction false} UnsafeAtWidest(s: string, m: Mode, pos: nat, n: nat)
    requires !AlwaysSafe(s, m, pos, n)
    ensures !LengthSafe(s, m, WidestArgs(s, m), LongStrings(n), pos, n)
  {
    hide Converted, MaxWidth, LongStrings, Widest;
    if m.Directive? && Converts(s[0]) {
      WidestIsMax(s[0], m.long, n);
      var args := WidestArgs(s, m);
      assert args[0] == Widest(s[0], m.long) && args[1..] == WidestArgs(s[1..], Copy);
      if !(s[0] == 'c' && pos + 1 >= n) {
        UnsafeAtWidest(s[1..], Copy, pos + MaxWidth(s[0], m.long, n), n);
      }
    } else {
      UnsafeAtWidest(s[1..], NextMode(m, s[0]), pos + |Copied(m, s[0])|, n);
    }
  }

  /** Whether all calls with a format and a size return the right length can be read off these two. */
  lemma FormatDecides(s: string, n: nat)
    requires 8 * Conversions(s, Copy) < TWO64
    ensures (forall args, heap: Heap :: Callable(s, args, heap, n) ==> LengthRight(s, Copy, args, heap, 0, n))
            <==> AlwaysSafe(s, Copy, 0, n)
  {
    hide NoLongMin, Conversions, LengthRight, LengthSafe, AlwaysSafe;
    LengthExactlyWhen(s, n);
    if AlwaysSafe(s, Copy, 0, n) {
      forall args, heap: Heap | Callable(s, args, heap, n)
        ensures LengthSafe(s, Copy, args, heap, 0, n)
      {
        SafeAtWidest(s, Copy, args, heap, 0, 0, n);
      }
    } else {
      var args, heap := WidestArgs(s, Copy), LongStrings(n);
      SmallNotLongMin(s, Copy, args, heap, 0, n);
      assert Callable(s, args, heap, n);
      UnsafeAtWidest(s, Copy, 0, n);
    }
  }
}
