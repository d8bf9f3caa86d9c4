/** Numbers as text: the digit loops of util/snprintf.c and `atol` of util/string.c, as inverses of each other. */
module Numerals {
  import opened Words
  import opened CText

  // ---- decimal ----

  function Digit(d: nat): char
    requires d < 10
  {
    '0' + d as char
  }

  function DecNat(n: nat): (s: string)
    ensures |s| > 0
    ensures forall k :: 0 <= k < |s| ==> '0' <= s[k] <= '9'
  {
    if n < 10 then [Digit(n)] else DecNat(n / 10) + [Digit(n % 10)]
  }

  /** What `%ld` prints. */
  function Dec(v: int): string {
    if v < 0 then "-" + DecNat(-v) else DecNat(v)
  }

  /** The value of decimal digits, as `atol` accumulates it. */
  function Accumulated(s: string): int {
    if s == "" then 0 else Accumulated(s[..|s| - 1]) * 10 + (s[|s| - 1] as int - '0' as int)
  }

  lemma {:induction false} DecNatValue(n: nat)
    ensures Accumulated(DecNat(n)) == n
    ensures forall k :: 0 <= k <= |DecNat(n)| ==> 0 <= Accumulated(DecNat(n)[..k]) <= n
    ensures forall k :: 0 <= k < |DecNat(n)| ==> Accumulated(DecNat(n)[..k]) * 10 <= n
  {
    var s := DecNat(n);
    if n < 10 {
      assert s[..0] == "" && s[..1] == s;
    } else {
      var t := DecNat(n / 10);
      DecNatValue(n / 10);
      assert s[..|s| - 1] == t;
      forall k | 0 <= k <= |s|
        ensures 0 <= Accumulated(s[..k]) <= n
        ensures k < |s| ==> Accumulated(s[..k]) * 10 <= n
      {
        if k < |s| {
          assert s[..k] == t[..k];
        } else {
          assert s[..k] == s;
        }
      }
    }
  }

  predicate InLong(v: int) {
    -TWO63 <= v < TWO63
  }

  function SkipSpaces(s: string): string {
    if s != "" && s[0] == ' ' then SkipSpaces(s[1..]) else s
  }

  predicate HasSign(s: string) {
    s != "" && (s[0] == '-' || s[0] == '+')
  }

  function Unsigned(s: string): string {
    var t := SkipSpaces(s);
    if HasSign(t) then t[1..] else t
  }

  /** The value `atol` returns. */
  function AtolValue(s: string): int {
    var t := SkipSpaces(s);
    if t != "" && t[0] == '-' then -Accumulated(Unsigned(s)) else Accumulated(Unsigned(s))
  }

  /** No intermediate result of `atol` overflows. */
  predicate AtolFits(s: string) {
    var t := Unsigned(s);
    && (forall k :: 0 <= k <= |t| ==> InLong(Accumulated(t[..k])))
    && (forall k :: 0 <= k < |t| ==> InLong(Accumulated(t[..k]) * 10))
    && InLong(-Accumulated(t))
  }

  /** `atol`, on the text up to the first NUL. A character is an unsigned byte, as on RISC-V. */
  method Atol(str: string) returns (r: int)
    requires Terminated(str) && AtolFits(CStr(str))
    ensures r == AtolValue(CStr(str)) && InLong(r)
  {
    hide Accumulated, SkipSpaces, CStr, NulIndex, Unsigned, AtolFits, AtolValue;
    ghost var text := CStr(str);
    var res, sign, i := 0, false, 0;
    assert text[0..] == text;
    InText(str, i);
    while str[i] == ' '
      invariant i <= |text| < |str| && SkipSpaces(text) == SkipSpaces(text[i..])
      invariant str[i] == if i < |text| then text[i] else '\0'
      decreases |str| - i
    {
      SkipOne(text, i);
      i := i + 1;
      InText(str, i);
    }
    SkipOne(text, i);
    SignAt(text, i);
    if str[i] == '-' || str[i] == '+' {
      sign := str[i] == '-';
      i := i + 1;
    }
    ghost var t, start := Unsigned(text), i;
    AccumulatedNothing();
    assert t[..0] == "";
    InText(str, i);
    while str[i] != '\0'
      invariant start <= i <= |text| < |str| && t == text[start..]
      invariant str[i] == '\0' <==> i == |text|
      invariant res == Accumulated(t[..i - start])
      decreases |str| - i
    {
      InText(str, i);
      AccumulatedStep(t, i - start);
      FitsSoFar(text, i - start);
      res := res * 10;
      res := res + (str[i] as int - '0' as int);
      i := i + 1;
      InText(str, i);
    }
    assert t[..i - start] == t;
    FitsInTheEnd(text);
    return if sign then -res else res;
  }

  lemma InText(str: string, i: nat)
    requires Terminated(str) && i <= |CStr(str)|
    ensures i <= |CStr(str)| < |str| && (str[i] == '\0' <==> i == |CStr(str)|)
    ensures str[i] == if i < |CStr(str)| then CStr(str)[i] else '\0'
  {
  }

  lemma SkipOne(t: string, i: nat)
    requires i <= |t|
    ensures if i < |t| && t[i] == ' ' then SkipSpaces(t[i..]) == SkipSpaces(t[i + 1..]) else SkipSpaces(t[i..]) == t[i..]
  {
    assert i < |t| ==> t[i..][1..] == t[i + 1..];
  }

  /** The sign and what follows it, once the spaces are passed. */
  lemma SignAt(text: string, i: nat)
    requires i <= |text| && SkipSpaces(text) == text[i..]
    ensures var signed := i < |text| && (text[i] == '-' || text[i] == '+');
            Unsigned(text) == text[if signed then i + 1 else i..]
    ensures AtolValue(text) == (if i < |text| && text[i] == '-' then -Accumulated(Unsigned(text))
                                else Accumulated(Unsigned(text)))
  {
    hide SkipSpaces, Accumulated;
    assert i < |text| ==> text[i..][1..] == text[i + 1..];
  }

  lemma FitsSoFar(s: string, k: nat)
    requires AtolFits(s) && k < |Unsigned(s)|
    ensures InLong(Accumulated(Unsigned(s)[..k]) * 10) && InLong(Accumulated(Unsigned(s)[..k + 1]))
  {
    hide Accumulated, Unsigned;
  }

  lemma FitsInTheEnd(s: string)
    requires AtolFits(s)
    ensures InLong(Accumulated(Unsigned(s))) && InLong(-Accumulated(Unsigned(s)))
  {
    hide Accumulated, Unsigned;
    var t := Unsigned(s);
    assert t[..|t|] == t;
  }

  lemma AccumulatedNothing()
    ensures Accumulated("") == 0
  {
  }

  lemma AccumulatedStep(t: string, k: nat)
    requires k < |t|
    ensures Accumulated(t[..k + 1]) == Accumulated(t[..k]) * 10 + (t[k] as int - '0' as int)
  {
    assert t[..k + 1][..k] == t[..k];
  }

  lemma DecReads(v: int)
    ensures var n: nat := if v < 0 then -v else v;
            SkipSpaces(Dec(v)) == Dec(v) && Unsigned(Dec(v)) == DecNat(n) && Dec(v) != ""
            && (Dec(v)[0] == '-' <==> v < 0)
  {
    hide DecNat;
    var s := Dec(v);
    assert s[0] != ' ';
    assert v < 0 ==> s[1..] == DecNat(-v);
  }

  lemma FitsWhenSmall(s: string, t: string, n: nat)
    requires Unsigned(s) == t && n < TWO63
    requires Accumulated(t) == n
    requires forall k :: 0 <= k <= |t| ==> 0 <= Accumulated(t[..k]) <= n
    requires forall k :: 0 <= k < |t| ==> Accumulated(t[..k]) * 10 <= n
    ensures AtolFits(s)
  {
    hide Accumulated, Unsigned;
  }

  /** Reading back what `%ld` printed gives the number, for all numbers but LONG_MIN, without overflow. */
  lemma AtolInvertsDec(v: int)
    requires -TWO63 < v < TWO63
    ensures AtolFits(Dec(v)) && AtolValue(Dec(v)) == v
  {
    hide Accumulated, DecNat, Dec, SkipSpaces, AtolFits, Unsigned;
    var n: nat := if v < 0 then -v else v;
    DecNatValue(n);
    DecReads(v);
    FitsWhenSmall(Dec(v), DecNat(n), n);
  }

  /** Leading spaces do not count. */
  lemma AtolSkipsSpaces(k: nat, t: string)
    ensures AtolValue(seq(k, _ => ' ') + t) == AtolValue(t)
  {
    var s := seq(k, _ => ' ') + t;
    if k == 0 {
      assert s == t;
    } else {
      assert s[1..] == seq(k - 1, _ => ' ') + t;
      AtolSkipsSpaces(k - 1, t);
    }
  }

  /** A plus sign is passed over. */
  lemma AtolReadsPlus(n: nat)
    ensures AtolValue("+" + DecNat(n)) == n
  {
    hide DecNat, Accumulated;
    DecNatValue(n);
    var s := "+" + DecNat(n);
    assert s[1..] == DecNat(n);
  }

  // ---- hexadecimal ----

  function HexDigit(d: nat): char
    requires d < 16
  {
    if d < 10 then '0' + d as char else 'a' + (d - 10) as char
  }

  /** The low `k` hexadecimal digits of a signed number in two's complement. */
  function Hex(v: int, k: nat): (s: string)
    ensures |s| == k
    decreases k
  {
    if k == 0 then "" else Hex(v / 16, k - 1) + [HexDigit(v % 16)]
  }

  /** `num >> (4 * i)`: an arithmetic shift rounds down. */
  function ShiftRight4(v: int, i: nat): int
    decreases i
  {
    if i == 0 then v else ShiftRight4(v / 16, i - 1)
  }

  lemma {:induction false} HexDigitAt(v: int, k: nat, i: nat)
    requires i < k
    ensures Hex(v, k)[k - 1 - i] == HexDigit(ShiftRight4(v, i) % 16)
    decreases i
  {
    if i > 0 {
      HexDigitAt(v / 16, k - 1, i - 1);
    }
  }

  function HexDigitValue(c: char): int {
    if '0' <= c <= '9' then c as int - '0' as int else c as int - 'a' as int + 10
  }

  function HexValue(s: string): int {
    if s == "" then 0 else HexValue(s[..|s| - 1]) * 16 + HexDigitValue(s[|s| - 1])
  }

  function Pow16(k: nat): (p: nat)
    ensures p > 0
  {
    if k == 0 then 1 else 16 * Pow16(k - 1)
  }

  /** Reading hexadecimal output back gives the number modulo 16^k. */
  lemma {:induction false} HexValueInverts(v: int, k: nat)
    ensures HexValue(Hex(v, k)) == v % Pow16(k)
    decreases k
  {
    if k > 0 {
      var q, r, p := v / 16, v % 16, Pow16(k - 1);
      HexValueInverts(q, k - 1);
      assert Hex(v, k)[..k - 1] == Hex(q, k - 1);
      DigitMod(q, r, p);
    }
  }

  lemma DigitMod(q: int, r: nat, p: nat)
    requires p > 0 && r < 16
    ensures (16 * q + r) % (16 * p) == q % p * 16 + r
  {
    var a, b := q / p, q % p;
    assert q == a * p + b;
    assert 16 * q + r == a * (16 * p) + (16 * b + r) by {
      assert 16 * (a * p) == a * (16 * p);
    }
    ModIs(16 * q + r, a, 16 * p, 16 * b + r);
  }

  lemma ModIs(n: int, a: int, m: nat, b: nat)
    requires m > 0 && b < m && n == a * m + b
    ensures n % m == b
  {
    var c := n / m - a;
    assert n == (n / m) * m + n % m;
    assert c * m == b - n % m by {
      assert (n / m - a) * m == (n / m) * m - a * m;
    }
    Multiple(c, m);
  }

  lemma Multiple(c: int, m: nat)
    ensures c >= 1 ==> c * m >= m
    ensures c <= -1 ==> c * m <= 0 - m
  {
  }

  /** `%lx` prints exactly 16 digits and `%x` exactly 8; they read back modulo 2^64 and 2^32. */
  lemma HexWidths(v: int)
    ensures |Hex(v, 16)| == 16 && HexValue(Hex(v, 16)) == v % TWO64
    ensures |Hex(v, 8)| == 8 && HexValue(Hex(v, 8)) == v % TWO32
  {
    HexValueInverts(v, 16);
    HexValueInverts(v, 8);
    hide Hex, HexValue;
    Pow16Of16();
  }

  lemma Pow16Of16()
    ensures Pow16(8) == TWO32 && Pow16(16) == TWO64
  {
    assert Pow16(8) == TWO32 by {
      assert Pow16(4) == 0x1_0000;
    }
    assert Pow16(16) == TWO64 by {
      assert Pow16(12) == 0x1_0000_0000_0000 by {
        assert Pow16(8) == TWO32;
      }
    }
  }
}
