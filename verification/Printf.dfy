/** The formatter of util/snprintf.c and the printing of spike_interface/spike_utils.c, lines 47-52. */
module Printf {
  import opened Words
  import opened CText
  import opened Numerals

  // ---- the unbounded formatter ----

  /** Where the state machine is: copying, or inside a directive, with or without an `l` seen. */
  datatype Mode = Copy | Directive(long: bool)

  /** The text that each pointer value points to. */
  type Heap = int -> string

  /** The next variadic argument, as a signed 64-bit value. Reading past the last one is undefined in C. */
  function Arg(args: seq<int>): int {
    if args == [] then 0 else args[0]
  }

  function Rest(args: seq<int>): seq<int> {
    if args == [] then [] else args[1..]
  }

  /** `longarg ? va_arg(vl, long) : va_arg(vl, int)`: an int is the sign-extended low half. */
  function Number(a: int, long: bool): int {
    if long then a else ToInt32(a % TWO32)
  }

  /** A character that ends a directive by reading an argument. */
  predicate Converts(c: char) {
    c in "pxdsc"
  }

  /** What a conversion prints for its argument. */
  function Converted(c: char, long: bool, a: int, heap: Heap): string
    requires Converts(c)
  {
    if c == 'p' then "0x" + Hex(a, 16)
    else if c == 'x' then Hex(Number(a, long), if long then 16 else 8)
    else if c == 'd' then Dec(Number(a, long))
    else if c == 's' then CStr(heap(a))
    else [(a % 256) as char]
  }

  /** The mode after a character that reads no argument: `%` opens a directive, `l` widens it, and any other
      character inside a directive is skipped. */
  function NextMode(m: Mode, c: char): Mode {
    if m.Copy? then (if c == '%' then Directive(false) else Copy)
    else if c == 'l' then Directive(true)
    else m
  }

  function Copied(m: Mode, c: char): string {
    if m.Copy? && c != '%' then [c] else ""
  }

  /** The full output of a format: every conversion prints its own argument. */
  function Full(s: string, m: Mode, args: seq<int>, heap: Heap): string {
    if s == "" then ""
    else if m.Directive? && Converts(s[0]) then
      Converted(s[0], m.long, Arg(args), heap) + Full(s[1..], Copy, Rest(args), heap)
    else Copied(m, s[0]) + Full(s[1..], NextMode(m, s[0]), args, heap)
  }

  /** What `vsnprintf` counts as output at position `pos` of a buffer of `n`: like `Full`, except that `%c` reads its
      argument only when its character fits. */
  function Emitted(s: string, m: Mode, args: seq<int>, heap: Heap, pos: nat, n: nat): string {
    if s == "" then ""
    else if m.Directive? && Converts(s[0]) then
      var text := Converted(s[0], m.long, Arg(args), heap);
      var args' := if s[0] == 'c' && pos + 1 >= n then args else Rest(args);
      text + Emitted(s[1..], Copy, args', heap, pos + |text|, n)
    else
      var text := Copied(m, s[0]);
      text + Emitted(s[1..], NextMode(m, s[0]), args, heap, pos + |text|, n)
  }

  // ---- the buffer ----

  /** A buffer of `n` after `text` is written at `pos`, one character at a time, each only if one more would fit. */
  function Put(buf: string, n: nat, pos: nat, text: string): (r: string)
    ensures |r| == |buf|
  {
    seq(|buf|, k requires 0 <= k < |buf| => if pos <= k < pos + |text| && k + 1 < n then text[k - pos] else buf[k])
  }

  /** The terminating NUL: behind the output, or in the last place. */
  function Terminate(buf: string, n: nat, pos: nat): (r: string)
    requires n <= |buf|
    ensures |r| == |buf|
  {
    if pos < n then buf[pos := '\0'] else if n > 0 then buf[n - 1 := '\0'] else buf
  }

  lemma PutNothing(buf: string, n: nat, pos: nat)
    ensures Put(buf, n, pos, "") == buf
  {
  }

  lemma PutMore(buf: string, n: nat, pos: nat, a: string, b: string)
    ensures Put(Put(buf, n, pos, a), n, pos + |a|, b) == Put(buf, n, pos, a + b)
  {
  }

  /** Output behind the last place that is written changes nothing. */
  lemma PutCut(buf: string, n: nat, done: string, text: string)
    requires |done| + 1 >= n
    ensures Put(buf, n, 0, done + text) == Put(buf, n, 0, done)
  {
  }

  /** `if (++pos < n) out[pos - 1] = c`. */
  method PutChar(out: array<char>, n: nat, pos: nat, c: char) returns (pos': nat)
    requires n <= out.Length
    modifies out
    ensures pos' == pos + 1
    ensures out[..] == Put(old(out[..]), n, pos, [c])
  {
    pos' := pos + 1;
    if pos' < n {
      out[pos' - 1] := c;
    }
  }

  /** The digit loop of `%x`, most significant digit first. */
  method PutHex(out: array<char>, n: nat, pos: nat, num: int, digits: nat) returns (pos': nat)
    requires n <= out.Length
    modifies out
    ensures pos' == pos + digits
    ensures out[..] == Put(old(out[..]), n, pos, Hex(num, digits))
  {
    pos' := pos;
    ghost var buf, text := out[..], Hex(num, digits);
    PutNothing(buf, n, pos);
    assert text[..0] == "";
    var i := digits as int - 1;
    while i >= 0
      invariant -1 <= i < digits && pos' == pos + (digits - 1 - i)
      invariant out[..] == Put(buf, n, pos, text[..digits - 1 - i])
    {
      var d := ShiftRight4(num, i) % 16;
      HexDigitAt(num, digits, i);
      PutMore(buf, n, pos, text[..digits - 1 - i], [HexDigit(d)]);
      assert text[..digits - i] == text[..digits - 1 - i] + [HexDigit(d)];
      pos' := PutChar(out, n, pos', if d < 10 then '0' + d as char else 'a' + (d - 10) as char);
      i := i - 1;
    }
    assert text[..digits] == text;
  }

  /** The counting loop of `%d`: `for (long nn = num; nn /= 10; digits++)`, from one digit. */
  method CountDigits(num: nat) returns (digits: nat)
    ensures digits == |DecNat(num)|
  {
    digits := 1;
    var nn := num;
    nn := nn / 10;
    while nn != 0
      invariant digits + (if nn == 0 then 0 else |DecNat(nn)|) == |DecNat(num)|
      decreases nn
    {
      digits := digits + 1;
      nn := nn / 10;
    }
  }

  /** The number left to print and the digits printed, from the back. */
  lemma DecNatSplit(n: nat)
    ensures |DecNat(n)| > 1 <==> n >= 10
    ensures n >= 10 ==> DecNat(n)[..|DecNat(n)| - 1] == DecNat(n / 10)
    ensures DecNat(n)[|DecNat(n)| - 1] == Digit(n % 10)
  {
  }

  lemma PutPointwise(buf: string, n: nat, pos: nat, text: string, r: string)
    requires |r| == |buf|
    requires forall k :: 0 <= k < |r| ==>
               r[k] == if pos <= k < pos + |text| && k + 1 < n then text[k - pos] else buf[k]
    ensures r == Put(buf, n, pos, text)
  {
  }

  /** The storing loop of `%d`: the digits are stored back to front. */
  method PutDigits(out: array<char>, n: nat, pos: nat, number: nat, digits: nat)
    requires n <= out.Length && digits == |DecNat(number)|
    modifies out
    ensures out[..] == Put(old(out[..]), n, pos, DecNat(number))
  {
    hide Put, DecNat;
    var num: nat := number;
    ghost var text := DecNat(num);
    var i: int := digits - 1;
    while i >= 0
      invariant -1 <= i < digits == |text|
      invariant i >= 0 ==> DecNat(num) == text[..i + 1]
      invariant forall k :: 0 <= k < out.Length ==>
                  out[k] == if pos + i < k < pos + digits && k + 1 < n then text[k - pos] else old(out[k])
    {
      DecNatSplit(num);
      if pos + i + 1 < n {
        out[pos + i] := '0' + (num % 10) as char;
      }
      num := num / 10;
      i := i - 1;
    }
    PutPointwise(old(out[..]), n, pos, text, out[..]);
  }

  /** The `%d` conversion. */
  method PutDec(out: array<char>, n: nat, pos: nat, v: int) returns (pos': nat)
    requires n <= out.Length
    modifies out
    ensures pos' == pos + |Dec(v)|
    ensures out[..] == Put(old(out[..]), n, pos, Dec(v))
  {
    hide Put;
    pos' := pos;
    var num: int := v;
    ghost var buf := out[..];
    PutNothing(buf, n, pos);
    if num < 0 {
      num := -num;
      pos' := PutChar(out, n, pos', '-');
    }
    var digits := CountDigits(num);
    PutMore(buf, n, pos, if v < 0 then "-" else "", DecNat(num));
    assert v >= 0 ==> "" + DecNat(num) == DecNat(num);
    PutDigits(out, n, pos', num, digits);
    pos' := pos' + digits;
  }

  method PutText(out: array<char>, n: nat, pos: nat, text: string) returns (pos': nat)
    requires n <= out.Length
    modifies out
    ensures pos' == pos + |text|
    ensures out[..] == Put(old(out[..]), n, pos, text)
  {
    pos' := pos;
    ghost var buf := out[..];
    PutNothing(buf, n, pos);
    var k := 0;
    assert text[..0] == "";
    while k < |text|
      invariant k <= |text| && pos' == pos + k
      invariant out[..] == Put(buf, n, pos, text[..k])
    {
      PutMore(buf, n, pos, text[..k], [text[k]]);
      assert text[..k + 1] == text[..k] + [text[k]];
      pos' := PutChar(out, n, pos', text[k]);
      k := k + 1;
    }
    assert text[..k] == text;
  }

  /** How many arguments a format reads. */
  function Conversions(s: string, m: Mode): nat {
    if s == "" then 0
    else if m.Directive? && Converts(s[0]) then 1 + Conversions(s[1..], Copy)
    else Conversions(s[1..], NextMode(m, s[0]))
  }

  /** No `%ld` reads LONG_MIN, whose negation overflows. */
  predicate NoLongMin(s: string, m: Mode, args: seq<int>, heap: Heap, pos: nat, n: nat) {
    s == ""
    || if m.Directive? && Converts(s[0]) then
         var text := Converted(s[0], m.long, Arg(args), heap);
         var args' := if s[0] == 'c' && pos + 1 >= n then args else Rest(args);
         && (s[0] == 'd' ==> Number(Arg(args), m.long) > -TWO63)
         && NoLongMin(s[1..], Copy, args', heap, pos + |text|, n)
       else NoLongMin(s[1..], NextMode(m, s[0]), args, heap, pos + |Copied(m, s[0])|, n)
  }

  /** The conversions that always read their argument. */
  method PutConverted(out: array<char>, n: nat, pos: nat, c: char, long: bool, a: int, heap: Heap)
    returns (pos': nat)
    requires n <= out.Length
    requires Converts(c) && c != 'c'
    modifies out
    ensures pos' == pos + |Converted(c, long, a, heap)|
    ensures out[..] == Put(old(out[..]), n, pos, Converted(c, long, a, heap))
  {
    hide Put, Hex, Dec, CStr;
    if c == 'p' {
      ghost var buf := out[..];
      pos' := PutChar(out, n, pos, '0');
      PutMore(buf, n, pos, "0", "x");
      pos' := PutChar(out, n, pos', 'x');
      PutMore(buf, n, pos, "0x", Hex(a, 16));
      assert "0" + "x" == "0x";
      pos' := PutHex(out, n, pos', a, 16);
    } else if c == 'x' {
      pos' := PutHex(out, n, pos, Number(a, long), if long then 16 else 8);
    } else if c == 'd' {
      pos' := PutDec(out, n, pos, Number(a, long));
    } else {
      pos' := PutText(out, n, pos, CStr(heap(a)));
    }
  }

  /** One character of the format. */
  lemma EmittedStep(s: string, i: nat, m: Mode, args: seq<int>, heap: Heap, pos: nat, n: nat, done: string)
    requires i < |s|
    ensures var c := s[i];
            var all := done + Emitted(s[i..], m, args, heap, pos, n);
            if m.Directive? && Converts(c) then
              var text := Converted(c, m.long, Arg(args), heap);
              var args' := if c == 'c' && pos + 1 >= n then args else Rest(args);
              && Conversions(s[i..], m) == 1 + Conversions(s[i + 1..], Copy)
              && all == done + text + Emitted(s[i + 1..], Copy, args', heap, pos + |text|, n)
            else
              var text := Copied(m, c);
              && Conversions(s[i..], m) == Conversions(s[i + 1..], NextMode(m, c))
              && all == done + text + Emitted(s[i + 1..], NextMode(m, c), args, heap, pos + |text|, n)
  {
    hide Converted;
    assert s[i..][1..] == s[i + 1..];
  }

  lemma EmittedEnd(m: Mode, args: seq<int>, heap: Heap, pos: nat, n: nat)
    ensures Emitted("", m, args, heap, pos, n) == ""
  {
  }

  lemma CharConverted(long: bool, a: int, heap: Heap)
    ensures Converted('c', long, a, heap) == [(a % 256) as char]
  {
  }

  /** `vsnprintf`: the buffer holds what is emitted, cut to fit and terminated, and the result is its length. */
  method Vsnprintf(out: array<char>, n: nat, s: string, args: seq<int>, heap: Heap) returns (r: int)
    requires n <= out.Length
    requires Conversions(s, Copy) <= |args|
    requires NoLongMin(s, Copy, args, heap, 0, n)
    modifies out
    ensures var e := Emitted(s, Copy, args, heap, 0, n);
            && out[..] == Terminate(Put(old(out[..]), n, 0, e), n, |e|)
            && r == ToInt32(|e| % TWO32)
  {
    hide Put, Converted, NoLongMin, Emitted, Conversions;
    ghost var buf := out[..];
    ghost var whole, done := Emitted(s, Copy, args, heap, 0, n), "";
    PutNothing(buf, n, 0);
    var pos, vl, i, m := 0, args, 0, Copy;
    assert s[0..] == s && "" + whole == whole;
    while i < |s|
      invariant i <= |s| && pos == |done|
      invariant done + Emitted(s[i..], m, vl, heap, pos, n) == whole
      invariant out[..] == Put(buf, n, 0, done)
      invariant Conversions(s[i..], m) <= |vl|
    {
      var c := s[i];
      EmittedStep(s, i, m, vl, heap, pos, n, done);
      ghost var text := if m.Directive? && Converts(c) then Converted(c, m.long, Arg(vl), heap) else Copied(m, c);
      PutMore(buf, n, 0, done, text);
      assert done + "" == done;
      if m.Directive? && Converts(c) {
        if c == 'c' {
          CharConverted(m.long, vl[0], heap);
          if pos + 1 >= n {
            PutCut(buf, n, done, text);
          }
          pos := pos + 1;
          if pos < n {
            pos := PutChar(out, n, pos - 1, (vl[0] % 256) as char);
            vl := vl[1..];
          }
        } else {
          pos := PutConverted(out, n, pos, c, m.long, vl[0], heap);
          vl := vl[1..];
        }
        m := Copy;
      } else if m.Directive? {
        if c == 'l' {
          m := Directive(true);
        }
      } else if c == '%' {
        m := Directive(false);
      } else {
        pos := PutChar(out, n, pos, c);
      }
      done := done + text;
      i := i + 1;
    }
    EmittedEnd(m, vl, heap, pos, n);
    assert s[i..] == "" && done + "" == done;
    if pos < n {
      out[pos] := '\0';
    } else if n > 0 {
      out[n - 1] := '\0';
    }
    return ToInt32(pos % TWO32);
  }
}
