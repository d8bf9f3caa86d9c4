/** The flattened device tree format (Devicetree Specification, section 5.4): abstract trees, their layouts as
    words, and the pruning of both. */
module FdtFormat {
  import opened Words
  import opened CText

  // The tokens of section 5.4.1.
  const BEGIN_NODE: byte := 1
  const END_NODE: byte := 2
  const PROP: byte := 3
  const NOP: byte := 4

  // ---- abstract trees ----

  /** A property: its name, its length in bytes, and the whole words that hold its value. */
  datatype PropVal = PropVal(name: string, len: nat, value: seq<Word>)

  datatype Tree = Tree(name: string, props: seq<PropVal>, kids: Forest)

  datatype Forest = Nil | Cons(head: Tree, tail: Forest)

  // ---- layouts ----

  /** What may stand between a node's name and its END_NODE, token by token, with NOPs anywhere between tokens.
      Name words and value words may carry any padding. */
  datatype Body =
    | Done
    | Nop(rest: Body)
    | Prop(len: Word, off: Word, value: seq<Word>, rest: Body)
    | Sub(name: seq<Word>, body: Body, rest: Body)

  function Encode(b: Body): seq<Word> {
    match b
    case Done => []
    case Nop(rest) => [Token(NOP)] + Encode(rest)
    case Prop(len, off, value, rest) => [Token(PROP), len, off] + value + Encode(rest)
    case Sub(name, body, rest) => Wrap(name, Encode(body)) + Encode(rest)
  }

  /** A node from its BEGIN_NODE to its END_NODE, both included. */
  function Wrap(name: seq<Word>, inner: seq<Word>): seq<Word> {
    [Token(BEGIN_NODE)] + name + inner + [Token(END_NODE)]
  }

  function ByteAt(ws: seq<Word>, k: nat): byte
    requires k < 4 * |ws|
  {
    var w := ws[k / 4];
    if k % 4 == 0 then w.b0 else if k % 4 == 1 then w.b1 else if k % 4 == 2 then w.b2 else w.b3
  }

  /** The bytes of some words, as characters. */
  function Chars(ws: seq<Word>): (s: string)
    ensures |s| == 4 * |ws|
    ensures forall k :: 0 <= k < |s| ==> s[k] == ByteAt(ws, k) as char
  {
    seq(4 * |ws|, k requires 0 <= k < 4 * |ws| => ByteAt(ws, k) as char)
  }

  function NameOf(ws: seq<Word>): string {
    CStr(Chars(ws))
  }

  /** The words of a node name: terminated, and no longer than the terminator needs. */
  predicate IsName(ws: seq<Word>) {
    Terminated(Chars(ws)) && |ws| == |NameOf(ws)| / 4 + 1
  }

  function ValueWords(len: nat): (n: nat)
    ensures len <= 4 * n < len + 4
  {
    (len + 3) / 4
  }

  predicate NoProps(b: Body) {
    match b
    case Done => true
    case Nop(rest) => NoProps(rest)
    case Prop(_, _, _, _) => false
    case Sub(_, _, rest) => NoProps(rest)
  }

  predicate IsCellCount(name: string) {
    name == "#address-cells" || name == "#size-cells"
  }

  function PropName(strings: string, off: nat): string
    requires off <= |strings|
  {
    CStr(strings[off..])
  }

  /** Section 5.4.2: properties before sub-nodes, names inside the strings block, a cell count of at least one
      word, and a length whose round-up to words stays an `int`. */
  predicate WellFormed(b: Body, strings: string) {
    match b
    case Done => true
    case Nop(rest) => WellFormed(rest, strings)
    case Prop(len, off, value, rest) =>
      && Be(len) + 3 < TWO31
      && |value| == ValueWords(Be(len))
      && Be(off) <= |strings|
      && (IsCellCount(PropName(strings, Be(off))) ==> 1 <= |value|)
      && WellFormed(rest, strings)
    case Sub(name, body, rest) =>
      && IsName(name)
      && WellFormed(body, strings)
      && WellFormed(rest, strings)
      && NoProps(rest)
  }

  // ---- what a layout means ----

  function Props(b: Body, strings: string): seq<PropVal>
    requires WellFormed(b, strings)
  {
    match b
    case Done => []
    case Nop(rest) => Props(rest, strings)
    case Prop(len, off, value, rest) => [PropVal(PropName(strings, Be(off)), Be(len), value)] + Props(rest, strings)
    case Sub(_, _, _) => []
  }

  function Kids(b: Body, strings: string): Forest
    requires WellFormed(b, strings)
  {
    match b
    case Done => Nil
    case Nop(rest) => Kids(rest, strings)
    case Prop(_, _, _, rest) => Kids(rest, strings)
    case Sub(name, body, rest) => Cons(Tree(NameOf(name), Props(body, strings), Kids(body, strings)), Kids(rest, strings))
  }

  /** What a layout means, told from its words and its strings block alone: each property has the name spelled at
      its offset, its own length and value; each node has the name spelled by its words. */
  ghost predicate Means(b: Body, strings: string, ps: seq<PropVal>, kids: Forest) {
    match b
    case Done => ps == [] && kids == Nil
    case Nop(rest) => Means(rest, strings, ps, kids)
    case Prop(len, off, value, rest) =>
      && ps != []
      && SpelledAt(strings, Be(off), ps[0].name) && ps[0].len == Be(len) && ps[0].value == value
      && Means(rest, strings, ps[1..], kids)
    case Sub(name, body, rest) =>
      && ps == [] && kids.Cons?
      && SpelledAt(Chars(name), 0, kids.head.name)
      && Means(body, strings, kids.head.props, kids.head.kids)
      && Means(rest, strings, [], kids.tail)
  }

  /** The properties and sub-nodes of a layout are those that its words and strings mean. */
  lemma {:induction false} LayoutMeans(b: Body, strings: string)
    requires WellFormed(b, strings)
    ensures Means(b, strings, Props(b, strings), Kids(b, strings))
  {
    hide CStr, SpelledAt, IsCellCount, IsName, Chars;
    match b
    case Done =>
    case Nop(rest) => LayoutMeans(rest, strings);
    case Prop(len, off, value, rest) =>
      CStrSpelled(strings, Be(off), PropName(strings, Be(off)));
      LayoutMeans(rest, strings);
      assert Props(b, strings)[1..] == Props(rest, strings);
    case Sub(name, body, rest) =>
      assert Chars(name)[0..] == Chars(name);
      CStrSpelled(Chars(name), 0, NameOf(name));
      LayoutMeans(body, strings);
      LayoutMeans(rest, strings);
      NoPropsMeansNone(rest, strings);
  }

  lemma NoPropsMeansNone(b: Body, strings: string)
    requires WellFormed(b, strings) && NoProps(b)
    ensures Props(b, strings) == []
  {
  }

  // ---- deletion ----

  /** Which nodes of a forest are deleted: for each node, in order, whether it is, and the marks below it. */
  datatype Marks = Unmarked | Mark(gone: bool, below: Marks, next: Marks)

  function Prune(f: Forest, m: Marks): Forest {
    match (f, m)
    case (Cons(t, rest), Mark(gone, below, next)) =>
      if gone then Prune(rest, next)
      else Cons(Tree(t.name, t.props, Prune(t.kids, below)), Prune(rest, next))
    case _ => f
  }

  function Nops(n: nat, b: Body): Body {
    if n == 0 then b else Nop(Nops(n - 1, b))
  }

  /** The layout after deletion: every word of a deleted node is a NOP, and nothing else differs. */
  function Blank(b: Body, m: Marks): Body {
    match b
    case Done => Done
    case Nop(rest) => Nop(Blank(rest, m))
    case Prop(len, off, value, rest) => Prop(len, off, value, Blank(rest, m))
    case Sub(name, body, rest) =>
      match m
      case Unmarked => b
      case Mark(gone, below, next) =>
        if gone then Nops(|Wrap(name, Encode(body))|, Blank(rest, next))
        else Sub(name, Blank(body, below), Blank(rest, next))
  }

  lemma NopsWords(n: nat, b: Body)
    ensures Encode(Nops(n, b)) == seq(n, _ => Token(NOP)) + Encode(b)
  {
    if n > 0 {
      NopsWords(n - 1, b);
      assert seq(n, _ => Token(NOP)) == [Token(NOP)] + seq(n - 1, _ => Token(NOP));
    }
  }

  lemma NopsMeaning(n: nat, b: Body, strings: string)
    ensures NoProps(Nops(n, b)) == NoProps(b)
    ensures WellFormed(Nops(n, b), strings) == WellFormed(b, strings)
    ensures WellFormed(b, strings) ==> Props(Nops(n, b), strings) == Props(b, strings)
                                       && Kids(Nops(n, b), strings) == Kids(b, strings)
  {
    if n > 0 {
      NopsMeaning(n - 1, b, strings);
    }
  }

  /** Deletion leaves every word where it was. */
  lemma BlankLength(b: Body, m: Marks)
    ensures |Encode(Blank(b, m))| == |Encode(b)|
  {
    match b
    case Done =>
    case Nop(rest) => BlankLength(rest, m);
    case Prop(_, _, _, rest) => BlankLength(rest, m);
    case Sub(name, body, rest) =>
      match m {
        case Unmarked =>
        case Mark(gone, below, next) =>
          BlankLength(body, below);
          BlankLength(rest, next);
          NopsWords(|Wrap(name, Encode(body))|, Blank(rest, next));
      }
  }

  /** Blanking a layout is pruning its tree. */
  lemma {:induction false} BlankIsPrune(b: Body, m: Marks, strings: string)
    requires WellFormed(b, strings)
    ensures WellFormed(Blank(b, m), strings)
    ensures NoProps(b) ==> NoProps(Blank(b, m))
    ensures Props(Blank(b, m), strings) == Props(b, strings)
    ensures Kids(Blank(b, m), strings) == Prune(Kids(b, strings), m)
  {
    match b
    case Done =>
    case Nop(rest) => BlankIsPrune(rest, m, strings);
    case Prop(_, _, _, rest) => BlankIsPrune(rest, m, strings);
    case Sub(name, body, rest) =>
      match m {
        case Unmarked =>
        case Mark(gone, below, next) =>
          BlankIsPrune(rest, next, strings);
          NoPropsMeansNone(rest, strings);
          BlankIsPrune(body, below, strings);
          if gone {
            NopsMeaning(|Wrap(name, Encode(body))|, Blank(rest, next), strings);
            NoPropsMeansNone(Blank(rest, next), strings);
          }
      }
  }

  /** Word by word, `b` is `a` or NOPs. */
  ghost predicate OnlyNops(a: seq<Word>, b: seq<Word>) {
    |a| == |b| && forall i :: 0 <= i < |a| ==> b[i] == a[i] || b[i] == Token(NOP)
  }

  lemma OnlyNopsConcat(a: seq<Word>, b: seq<Word>, a': seq<Word>, b': seq<Word>)
    requires OnlyNops(a, b) && OnlyNops(a', b')
    ensures OnlyNops(a + a', b + b')
  {
  }

  /** Every word after deletion is the old word or a NOP: nothing is moved or invented. */
  lemma {:induction false} BlankOnlyWritesNops(b: Body, m: Marks, strings: string)
    requires WellFormed(b, strings)
    ensures OnlyNops(Encode(b), Encode(Blank(b, m)))
  {
    hide IsName, OnlyNops, IsCellCount;
    match b
    case Done => assert OnlyNops([], []) by { hide Encode; OnlyNopsSame([]); }
    case Nop(rest) =>
      BlankOnlyWritesNops(rest, m, strings);
      OnlyNopsSame([Token(NOP)]);
      OnlyNopsConcat([Token(NOP)], [Token(NOP)], Encode(rest), Encode(Blank(rest, m)));
    case Prop(len, off, value, rest) =>
      BlankOnlyWritesNops(rest, m, strings);
      OnlyNopsSame([Token(PROP), len, off] + value);
      OnlyNopsConcat([Token(PROP), len, off] + value, [Token(PROP), len, off] + value, Encode(rest),
                     Encode(Blank(rest, m)));
    case Sub(name, body, rest) =>
      match m {
        case Unmarked => OnlyNopsSame(Encode(b));
        case Mark(gone, below, next) =>
          var whole, kept := Wrap(name, Encode(body)), Wrap(name, Encode(Blank(body, below)));
          var nops := seq(|whole|, _ => Token(NOP));
          BlankOnlyWritesNops(rest, next, strings);
          if gone {
            OnlyNopsAll(whole);
            NopsWords(|whole|, Blank(rest, next));
            OnlyNopsConcat(whole, nops, Encode(rest), Encode(Blank(rest, next)));
          } else {
            BlankOnlyWritesNops(body, below, strings);
            OnlyNopsWrap(name, Encode(body), Encode(Blank(body, below)));
            OnlyNopsConcat(whole, kept, Encode(rest), Encode(Blank(rest, next)));
          }
      }
  }

  lemma OnlyNopsSame(a: seq<Word>)
    ensures OnlyNops(a, a)
  {
  }

  lemma OnlyNopsAll(a: seq<Word>)
    ensures OnlyNops(a, seq(|a|, _ => Token(NOP)))
  {
  }

  lemma OnlyNopsWrap(name: seq<Word>, a: seq<Word>, b: seq<Word>)
    requires OnlyNops(a, b)
    ensures OnlyNops(Wrap(name, a), Wrap(name, b))
  {
    OnlyNopsConcat([Token(BEGIN_NODE)] + name, [Token(BEGIN_NODE)] + name, a, b);
    OnlyNopsConcat([Token(BEGIN_NODE)] + name + a, [Token(BEGIN_NODE)] + name + b, [Token(END_NODE)],
                   [Token(END_NODE)]);
  }
}
