/** The scanner itself (spike_interface/dts_parse.c): a recursive loop over the words of the structure block. */
module FdtScanner {
  import opened Words
  import opened Wrappers
  import opened CText
  import opened FdtFormat
  import opened FdtVisit

  const FDT_MAGIC: u32 := 0xd00dfeed
  const FDT_VERSION: u32 := 17

  /** `struct fdt_scan_node`: one object serves all the siblings under a node. */
  class ScanNode {
    const parent: ScanNode?
    ghost const ancestors: set<ScanNode>
    var name: string
    var addressCells: int
    var sizeCells: int

    /** The default cell counts of section 2.3.5. */
    constructor (parent: ScanNode?)
      requires Linked(parent)
      ensures this.parent == parent && Linked(this)
      ensures addressCells == 2 && sizeCells == 1
      ensures this !in Chain(parent) && ViewOf(parent) == old(ViewOf(parent))
    {
      this.parent := parent;
      this.ancestors := Chain(parent);
      name, addressCells, sizeCells := "", 2, 1;
      new;
      ViewUnchanged(parent);
    }
  }

  /** A node and its ancestors. */
  ghost function Chain(n: ScanNode?): set<ScanNode> {
    if n == null then {} else {n} + n.ancestors
  }

  ghost predicate Linked(n: ScanNode?)
    decreases |Chain(n)|
  {
    n == null || (n !in n.ancestors && n.ancestors == Chain(n.parent) && Linked(n.parent))
  }

  function ViewOf(n: ScanNode?): (v: View)
    requires Linked(n)
    reads Chain(n)
    ensures v.Null? <==> n == null
    decreases |Chain(n)|
  {
    if n == null then Null else View(ViewOf(n.parent), n.name, n.addressCells, n.sizeCells)
  }

  twostate lemma ViewUnchanged(n: ScanNode?)
    requires Linked(n)
    requires forall o :: o in Chain(n) ==> old(allocated(o)) && unchanged(o)
    ensures old(ViewOf(n)) == ViewOf(n)
    decreases |Chain(n)|
  {
    if n != null {
      ViewUnchanged(n.parent);
    }
  }

  ghost predicate Holds(mem: seq<Word>, at: nat, ws: seq<Word>) {
    at + |ws| <= |mem| && mem[at..at + |ws|] == ws
  }

  /** `mem` with the words from `at` on replaced by `ws`. */
  function Overwrite(mem: seq<Word>, at: nat, ws: seq<Word>): (r: seq<Word>)
    requires at + |ws| <= |mem|
    ensures |r| == |mem|
  {
    mem[..at] + ws + mem[at + |ws|..]
  }

  /** A token that ends the loop: END_NODE, or anything that is neither BEGIN_NODE, PROP nor NOP. */
  predicate Ends(w: Word) {
    Be(w) != BEGIN_NODE as int && Be(w) != PROP as int && Be(w) != NOP as int
  }

  // ---- one item at a time ----

  /** Where the loop stands: what it has scanned, what is left (`rem`), and why finishing what is left finishes
      the whole visit. `goal` is the region as the scan is to leave it. */
  ghost predicate Progress<S>(cb: Callbacks<S>, strings: string, whole: Visited<S>, goal: seq<Word>, v: View,
                              cells: (int, int), last: bool, s: S, rem: Body, marks: Marks, scanned: seq<Word>)
  {
    && WellFormed(rem, strings)
    && scanned + Encode(Blank(rem, marks)) == goal
    && (!last ==>
          && cells == (2, 1)
          && marks == whole.marks
          && VisitContent(cb, v, Props(rem, strings), Kids(rem, strings), s) == whole)
    && (last ==>
          && NoProps(rem)
          && v == whole.node
          && VisitKids(cb, v, cells.0, cells.1, Kids(rem, strings), s) == (whole.s, marks))
  }

  lemma AfterNop<S>(cb: Callbacks<S>, strings: string, whole: Visited<S>, goal: seq<Word>, v: View,
                    cells: (int, int), last: bool, s: S, rem: Body, marks: Marks, scanned: seq<Word>)
    requires rem.Nop?
    requires Progress(cb, strings, whole, goal, v, cells, last, s, rem, marks, scanned)
    ensures WellFormed(rem.rest, strings)
    ensures Progress(cb, strings, whole, goal, v, cells, last, s, rem.rest, marks, scanned + FirstWords(rem))
  {
    hide VisitContent, VisitKids, IsName;
    var bl := Encode(Blank(rem.rest, marks));
    assert scanned + [Token(NOP)] + bl == scanned + ([Token(NOP)] + bl);
  }

  lemma AfterProp<S>(cb: Callbacks<S>, strings: string, whole: Visited<S>, goal: seq<Word>, v: View,
                     cells: (int, int), last: bool, s: S, rem: Body, marks: Marks, scanned: seq<Word>)
    requires rem.Prop?
    requires Progress(cb, strings, whole, goal, v, cells, last, s, rem, marks, scanned)
    ensures !last
    ensures WellFormed(rem.rest, strings)
    ensures FirstWords(rem) == [Token(PROP), rem.len, rem.off] + rem.value
    ensures Be(rem.off) <= |strings| && (IsCellCount(PropName(strings, Be(rem.off))) ==> 1 <= |rem.value|)
    ensures |rem.value| == ValueWords(Be(rem.len))
    ensures var p := PropVal(PropName(strings, Be(rem.off)), Be(rem.len), rem.value);
            var v' := SetCells(v, p);
            Progress(cb, strings, whole, goal, v', cells, false, cb.prop(v', p, s), rem.rest, marks,
                     scanned + FirstWords(rem))
  {
    hide VisitKids, IsName, SetCells, IsCellCount;
    assert scanned + ([Token(PROP), rem.len, rem.off] + rem.value) + Encode(Blank(rem.rest, marks))
           == scanned + ([Token(PROP), rem.len, rem.off] + rem.value + Encode(Blank(rem.rest, marks)));
    var p := PropVal(PropName(strings, Be(rem.off)), Be(rem.len), rem.value);
    var ps := Props(rem, strings);
    assert ps[0] == p && ps[1..] == Props(rem.rest, strings);
  }

  /** Once no property can follow, `done` fires, and only once. */
  lemma AfterProps<S>(cb: Callbacks<S>, strings: string, whole: Visited<S>, goal: seq<Word>, v: View,
                      cells: (int, int), s: S, rem: Body, marks: Marks, scanned: seq<Word>)
    requires rem.Sub? || rem.Done?
    requires Progress(cb, strings, whole, goal, v, cells, false, s, rem, marks, scanned)
    ensures Progress(cb, strings, whole, goal, v, cells, true, DoneProps(cb, v, s), rem, marks, scanned)
  {
    hide VisitKids, IsName, DoneProps;
    NoPropsMeansNone(rem, strings);
  }

  /** What a BEGIN_NODE leads to, by the abstract visit. */
  ghost function VisitSub<S>(cb: Callbacks<S>, child: View, body: Body, strings: string, s: S): (Visited<S>, S, bool)
    requires WellFormed(body, strings)
  {
    var inner := VisitContent(cb, child, Props(body, strings), Kids(body, strings), Open(cb, child, s));
    var (s', gone) := Close(cb, inner.node, inner.s);
    (inner, s', gone)
  }

  lemma AfterSub<S>(cb: Callbacks<S>, strings: string, whole: Visited<S>, goal: seq<Word>, v: View,
                    cells: (int, int), s: S, rem: Body, marks: Marks, scanned: seq<Word>)
    requires rem.Sub?
    requires Progress(cb, strings, whole, goal, v, cells, true, s, rem, marks, scanned)
    ensures IsName(rem.name) && WellFormed(rem.body, strings) && WellFormed(rem.rest, strings) && marks.Mark?
    ensures FirstWords(rem) == Wrap(rem.name, Encode(rem.body))
    ensures var (inner, s', gone) :=
              VisitSub(cb, View(v, NameOf(rem.name), cells.0, cells.1), rem.body, strings, s);
            Progress(cb, strings, whole, goal, v, CellsOf(inner.node), true, s', rem.rest, marks.next,
                     scanned + Left(rem.name, rem.body, inner.marks, gone))
  {
    hide VisitContent, IsName, Open, Close, CellsOf;
    var rest := Blank(rem.rest, marks.next);
    var (inner, s', gone) := VisitSub(cb, View(v, NameOf(rem.name), cells.0, cells.1), rem.body, strings, s);
    NopsMeaning(|Wrap(rem.name, Encode(rem.body))|, rest, strings);
    NopsWords(|Wrap(rem.name, Encode(rem.body))|, rest);
    var left := Left(rem.name, rem.body, inner.marks, gone);
    assert scanned + left + Encode(rest) == scanned + (left + Encode(rest));
  }

  /** The words a sub-node leaves behind. */
  ghost function Left(name: seq<Word>, body: Body, below: Marks, gone: bool): (ws: seq<Word>)
    ensures |ws| == |Wrap(name, Encode(body))|
  {
    BlankLength(body, below);
    if gone then seq(|Wrap(name, Encode(body))|, _ => Token(NOP)) else Wrap(name, Encode(Blank(body, below)))
  }

  lemma LeftIs(name: seq<Word>, body: Body, below: Marks, gone: bool)
    ensures Left(name, body, below, gone)
            == if gone then seq(|Wrap(name, Encode(body))|, _ => Token(NOP)) else Wrap(name, Encode(Blank(body, below)))
  {
  }

  lemma AtEnd<S>(cb: Callbacks<S>, strings: string, whole: Visited<S>, goal: seq<Word>, v: View,
                 cells: (int, int), s: S, marks: Marks, scanned: seq<Word>)
    requires Progress(cb, strings, whole, goal, v, cells, true, s, Body.Done, marks, scanned)
    ensures v == whole.node && s == whole.s && scanned == goal
  {
    assert scanned + [] == scanned;
  }

  /** The words of the first item of what is left. */
  ghost function FirstWords(rem: Body): seq<Word> {
    match rem
    case Done => []
    case Nop(_) => [Token(NOP)]
    case Prop(len, off, value, _) => [Token(PROP), len, off] + value
    case Sub(name, body, _) => Wrap(name, Encode(body))
  }

  /** Where the parts of an encoded node lie. */
  lemma SubWords(mem: seq<Word>, at: nat, name: seq<Word>, inner: seq<Word>)
    requires Holds(mem, at, Wrap(name, inner))
    ensures Holds(mem, at + 1, name)
    ensures Holds(mem, at + 1 + |name|, inner)
    ensures at + 1 + |name| + |inner| < |mem|
    ensures Be(mem[at + 1 + |name| + |inner|]) == END_NODE as int && Ends(mem[at + 1 + |name| + |inner|])
    ensures |Wrap(name, inner)| == |name| + |inner| + 2
  {
    var w := Wrap(name, inner);
    assert mem[at..at + |w|] == w;
    var head := [Token(BEGIN_NODE)];
    assert Wrap(name, inner) == head + (name + (inner + [Token(END_NODE)]));
    HoldsParts(mem, at, head, name + (inner + [Token(END_NODE)]));
    HoldsParts(mem, at + 1, name, inner + [Token(END_NODE)]);
    HoldsParts(mem, at + 1 + |name|, inner, [Token(END_NODE)]);
    var end := at + 1 + |name| + |inner|;
    assert mem[end..end + 1][0] == mem[end];
  }

  lemma HoldsParts(mem: seq<Word>, at: nat, a: seq<Word>, b: seq<Word>)
    requires Holds(mem, at, a + b)
    ensures Holds(mem, at, a) && Holds(mem, at + |a|, b)
  {
    assert mem[at..at + |a|] == (a + b)[..|a|];
    assert mem[at + |a|..at + |a| + |b|] == (a + b)[|a|..];
  }

  /** Changing what is inside a node leaves its wrapping. */
  lemma Rewrap(mem: seq<Word>, at: nat, name: seq<Word>, inner: seq<Word>, kept: seq<Word>)
    requires Holds(mem, at, Wrap(name, inner)) && |kept| == |inner|
    ensures |Wrap(name, kept)| == |Wrap(name, inner)|
    ensures at + 1 + |name| + |kept| <= |mem|
    ensures Overwrite(mem, at + 1 + |name|, kept) == Overwrite(mem, at, Wrap(name, kept))
  {
    hide Holds;
    var start := at + 1 + |name|;
    var w := Wrap(name, inner);
    SubWords(mem, at, name, inner);
    HoldsSplit(mem, at, w);
    var front, back := mem[..at], mem[at + |w|..];
    assert mem == (front + ([Token(BEGIN_NODE)] + name)) + inner + ([Token(END_NODE)] + back);
    assert Overwrite(mem, start, kept) == (front + ([Token(BEGIN_NODE)] + name)) + kept + ([Token(END_NODE)] + back);
  }

  lemma HoldsSplit(mem: seq<Word>, at: nat, ws: seq<Word>)
    requires Holds(mem, at, ws)
    ensures at + |ws| <= |mem|
    ensures mem == mem[..at] + ws + mem[at + |ws|..]
  {
  }

  lemma OverwriteAgain(mem: seq<Word>, at: nat, ws: seq<Word>, ws': seq<Word>)
    requires at + |ws| <= |mem| && |ws| == |ws'|
    ensures Overwrite(Overwrite(mem, at, ws), at, ws') == Overwrite(mem, at, ws')
  {
  }

  /** How memory stands with the cursor behind `scanned`: `ws` is still to be scanned, and outside the region
      that began at `start` memory is as it was in `mem0`. */
  ghost predicate Standing(mem: seq<Word>, mem0: seq<Word>, start: nat, scanned: seq<Word>, ws: seq<Word>) {
    && start + |scanned| + |ws| <= |mem0|
    && mem == mem0[..start] + scanned + ws + mem0[start + |scanned| + |ws|..]
  }

  lemma Stand(mem: seq<Word>, start: nat, ws: seq<Word>)
    requires Holds(mem, start, ws)
    ensures Standing(mem, mem, start, [], ws)
  {
    assert mem[..start] + [] == mem[..start];
  }

  /** The word at the cursor says what comes next. */
  lemma Peek(mem: seq<Word>, mem0: seq<Word>, start: nat, scanned: seq<Word>, rem: Body, strings: string)
    requires Standing(mem, mem0, start, scanned, Encode(rem))
    requires var end := start + |scanned| + |Encode(rem)|; end < |mem0| && Ends(mem0[end])
    requires WellFormed(rem, strings)
    ensures start + |scanned| < |mem| == |mem0|
    ensures var token := Be(mem[start + |scanned|]);
            && (token == NOP as int <==> rem.Nop?)
            && (token == PROP as int <==> rem.Prop?)
            && (token == BEGIN_NODE as int <==> rem.Sub?)
            && (rem.Nop? || rem.Prop? || rem.Sub? || (rem == Body.Done && token == Be(mem0[start + |scanned|])))
    ensures rem.Done? ==> Encode(rem) == []
  {
    hide Be, IsName, IsCellCount;
    var lex := start + |scanned|;
    var after := mem0[lex + |Encode(rem)|..];
    assert mem == (mem0[..start] + scanned) + (Encode(rem) + after);
    assert mem[lex] == (Encode(rem) + after)[0];
    if !rem.Done? {
      assert Encode(rem) == FirstWords(rem) + Encode(rem.rest);
      assert mem[lex] == FirstWords(rem)[0];
    }
  }

  lemma Finish(mem: seq<Word>, mem0: seq<Word>, start: nat, scanned: seq<Word>)
    requires Standing(mem, mem0, start, scanned, [])
    ensures start + |scanned| <= |mem0|
    ensures mem == Overwrite(mem0, start, scanned)
  {
    assert mem0[..start] + scanned + [] == mem0[..start] + scanned;
  }

  lemma Pass(mem: seq<Word>, mem0: seq<Word>, start: nat, scanned: seq<Word>, item: seq<Word>, rest: seq<Word>)
    requires Standing(mem, mem0, start, scanned, item + rest)
    ensures Holds(mem, start + |scanned|, item)
    ensures Standing(mem, mem0, start, scanned + item, rest)
  {
    var after := mem0[start + |scanned| + |item + rest|..];
    assert mem == (mem0[..start] + scanned) + (item + (rest + after));
  }

  lemma Replace(mem: seq<Word>, mem0: seq<Word>, start: nat, scanned: seq<Word>, item: seq<Word>, left: seq<Word>,
                rest: seq<Word>)
    requires Standing(mem, mem0, start, scanned, item + rest) && |left| == |item|
    ensures start + |scanned| + |left| <= |mem|
    ensures Standing(Overwrite(mem, start + |scanned|, left), mem0, start, scanned + left, rest)
  {
    var lex := start + |scanned|;
    var after := mem0[lex + |item + rest|..];
    assert mem == (mem0[..start] + scanned) + (item + (rest + after));
    assert mem[..lex] == mem0[..start] + scanned && mem[lex + |item|..] == rest + after;
  }

  /** Past a NOP. */
  lemma NopStep<S>(cb: Callbacks<S>, strings: string, whole: Visited<S>, goal: seq<Word>, v: View, cells: (int, int),
                   last: bool, s: S, rem: Body, marks: Marks, scanned: seq<Word>, mem: seq<Word>, mem0: seq<Word>,
                   start: nat)
    requires rem.Nop?
    requires Progress(cb, strings, whole, goal, v, cells, last, s, rem, marks, scanned)
    requires Standing(mem, mem0, start, scanned, Encode(rem))
    ensures Progress(cb, strings, whole, goal, v, cells, last, s, rem.rest, marks, scanned + FirstWords(rem))
    ensures Standing(mem, mem0, start, scanned + FirstWords(rem), Encode(rem.rest))
    ensures |FirstWords(rem)| == 1 && |Encode(rem)| == 1 + |Encode(rem.rest)| && WellFormed(rem.rest, strings)
  {
    hide Progress, Standing, WellFormed;
    AfterNop(cb, strings, whole, goal, v, cells, last, s, rem, marks, scanned);
    Pass(mem, mem0, start, scanned, FirstWords(rem), Encode(rem.rest));
  }

  /** Past a property. */
  lemma PropStep<S>(cb: Callbacks<S>, strings: string, whole: Visited<S>, goal: seq<Word>, v: View, cells: (int, int),
                    last: bool, s: S, rem: Body, marks: Marks, scanned: seq<Word>, mem: seq<Word>, mem0: seq<Word>,
                    start: nat)
    requires rem.Prop?
    requires Progress(cb, strings, whole, goal, v, cells, last, s, rem, marks, scanned)
    requires Standing(mem, mem0, start, scanned, Encode(rem))
    ensures !last
    ensures Be(rem.off) <= |strings| && (IsCellCount(PropName(strings, Be(rem.off))) ==> 1 <= |rem.value|)
    ensures |rem.value| == ValueWords(Be(rem.len))
    ensures Holds(mem, start + |scanned|, [Token(PROP), rem.len, rem.off] + rem.value)
    ensures var p := PropVal(PropName(strings, Be(rem.off)), Be(rem.len), rem.value);
            var v' := SetCells(v, p);
            Progress(cb, strings, whole, goal, v', cells, false, cb.prop(v', p, s), rem.rest, marks,
                     scanned + FirstWords(rem))
    ensures Standing(mem, mem0, start, scanned + FirstWords(rem), Encode(rem.rest))
    ensures |FirstWords(rem)| == 3 + |rem.value| && |Encode(rem)| == |FirstWords(rem)| + |Encode(rem.rest)|
    ensures WellFormed(rem.rest, strings)
  {
    hide Progress, Standing, WellFormed, Holds, SetCells, IsCellCount, PropName;
    AfterProp(cb, strings, whole, goal, v, cells, last, s, rem, marks, scanned);
    Pass(mem, mem0, start, scanned, FirstWords(rem), Encode(rem.rest));
  }

  /** Past a sub-node, once `done` is settled: `left` is what the sub-node leaves behind. */
  lemma SubStep<S>(cb: Callbacks<S>, strings: string, whole: Visited<S>, goal: seq<Word>, v: View, cells: (int, int),
                   s: S, rem: Body, marks: Marks, scanned: seq<Word>, mem: seq<Word>, mem0: seq<Word>, start: nat)
    requires rem.Sub?
    requires Progress(cb, strings, whole, goal, v, cells, true, s, rem, marks, scanned)
    requires Standing(mem, mem0, start, scanned, Encode(rem))
    ensures IsName(rem.name) && WellFormed(rem.body, strings) && WellFormed(rem.rest, strings) && marks.Mark?
    ensures Holds(mem, start + |scanned|, Wrap(rem.name, Encode(rem.body)))
    ensures var (inner, s', gone) :=
              VisitSub(cb, View(v, NameOf(rem.name), cells.0, cells.1), rem.body, strings, s);
            var left := Left(rem.name, rem.body, inner.marks, gone);
            && start + |scanned| + |left| <= |mem|
            && Progress(cb, strings, whole, goal, v, CellsOf(inner.node), true, s', rem.rest, marks.next, scanned + left)
            && Standing(Overwrite(mem, start + |scanned|, left), mem0, start, scanned + left, Encode(rem.rest))
    ensures |Encode(rem)| == |Wrap(rem.name, Encode(rem.body))| + |Encode(rem.rest)|
    ensures |Encode(rem.body)| + 1 < |Encode(rem)| && |Encode(rem.rest)| < |Encode(rem)|
  {
    hide Progress, Standing, WellFormed, Holds, IsName, VisitSub, NameOf, CellsOf, Overwrite, Left;
    AfterSub(cb, strings, whole, goal, v, cells, s, rem, marks, scanned);
    var item := Wrap(rem.name, Encode(rem.body));
    Pass(mem, mem0, start, scanned, item, Encode(rem.rest));
    var (inner, s', gone) := VisitSub(cb, View(v, NameOf(rem.name), cells.0, cells.1), rem.body, strings, s);
    Replace(mem, mem0, start, scanned, item, Left(rem.name, rem.body, inner.marks, gone), Encode(rem.rest));
  }

  /** Character `k` of the words at `at`. */
  lemma CharInPlace(mem: seq<Word>, at: nat, name: seq<Word>, k: nat)
    requires Holds(mem, at, name) && k < 4 * |name|
    ensures at + k / 4 < |mem| && ByteAt([mem[at + k / 4]], k % 4) as char == Chars(name)[k]
  {
    assert mem[at + k / 4] == mem[at..at + |name|][k / 4];
  }

  method ReadName(mem: array<Word>, at: nat, ghost name: seq<Word>) returns (text: string)
    requires Holds(mem[..], at, name) && Terminated(Chars(name))
    ensures text == NameOf(name)
  {
    hide Holds, ByteAt, Chars;
    text := "";
    while true
      invariant |text| <= NulIndex(Chars(name)) < 4 * |name|
      invariant text == Chars(name)[..|text|]
      decreases 4 * |name| - |text|
    {
      var k := |text|;
      CharInPlace(mem[..], at, name, k);
      var c := ByteAt([mem[at + k / 4]], k % 4) as char;
      if c == '\0' {
        NulIndexUnique(Chars(name), k);
        return;
      }
      text := text + [c];
    }
  }

  /** The deletion loop: overwrite [from, to) with NOPs. */
  method WriteNops(mem: array<Word>, from: nat, to: nat)
    requires from <= to <= mem.Length
    modifies mem
    ensures mem[..] == Overwrite(old(mem[..]), from, seq(to - from, _ => Token(NOP)))
  {
    var lex := from;
    while lex != to
      invariant from <= lex <= to
      invariant mem[..from] == old(mem[..from]) && mem[to..] == old(mem[to..])
      invariant forall k :: from <= k < lex ==> mem[k] == Token(NOP)
    {
      mem[lex] := Token(NOP);
      lex := lex + 1;
    }
  }

  /** A node learns its cell counts from its own properties. */
  method NoteCells(node: ScanNode?, p: PropVal)
    requires Linked(node)
    requires IsCellCount(p.name) ==> 1 <= |p.value|
    modifies if node == null then {} else {node}
    ensures ViewOf(node) == SetCells(old(ViewOf(node)), p)
    ensures node != null ==> node.name == old(node.name)
  {
    if node != null && p.name == "#address-cells" {
      node.addressCells := ToInt32(Be(p.value[0]));
    }
    if node != null && p.name == "#size-cells" {
      node.sizeCells := ToInt32(Be(p.value[0]));
    }
    if node != null {
      ViewUnchanged(node.parent);
    }
  }

  /** The FDT_PROP case of `fdt_scan_helper`. */
  method ScanProp<S>(start: nat, mem: array<Word>, strings: string, node: ScanNode?, cb: Callbacks<S>, s0: S,
                     ghost lenWord: Word, ghost offWord: Word, ghost value: seq<Word>)
    returns (lex: nat, s: S)
    requires Linked(node)
    requires Holds(mem[..], start, [Token(PROP), lenWord, offWord] + value)
    requires |value| == ValueWords(Be(lenWord)) && Be(offWord) <= |strings|
    requires IsCellCount(PropName(strings, Be(offWord))) ==> 1 <= |value|
    modifies if node == null then {} else {node}
    ensures lex == start + 3 + |value|
    ensures var p := PropVal(PropName(strings, Be(offWord)), Be(lenWord), value);
            ViewOf(node) == SetCells(old(ViewOf(node)), p) && s == cb.prop(ViewOf(node), p, s0)
    ensures SpelledAt(strings, Be(offWord), PropName(strings, Be(offWord)))
    ensures node != null ==> node.name == old(node.name)
    ensures mem[..] == old(mem[..])
  {
    CStrSpelled(strings, Be(offWord), PropName(strings, Be(offWord)));
    ghost var item := [Token(PROP), lenWord, offWord] + value;
    assert mem[start..start + |item|] == item;
    assert mem[start + 1] == item[1] && mem[start + 2] == item[2];
    assert mem[start + 3..start + |item|] == item[3..] == value;
    var len, off := Be(mem[start + 1]), Be(mem[start + 2]);
    var prop := PropVal(PropName(strings, off), len, mem[start + 3..start + 3 + ValueWords(len)]);
    NoteCells(node, prop);
    lex := start + 3 + ValueWords(len);
    s := cb.prop(ViewOf(node), prop, s0);
  }

  /** `child.name = (const char *)(lex + 1)`. */
  method NameChild(mem: array<Word>, at: nat, child: ScanNode, ghost name: seq<Word>)
    requires Linked(child)
    requires Holds(mem[..], at, name) && IsName(name)
    modifies child
    ensures child.name == NameOf(name) && |name| == |child.name| / 4 + 1
    ensures ViewOf(child)
            == View(old(ViewOf(child.parent)), NameOf(name), old(child.addressCells), old(child.sizeCells))
  {
    child.name := ReadName(mem, at, name);
    ViewUnchanged(child.parent);
  }

  /** `close`, and the deletion of the node's words when it answers -1. */
  method CloseChild<S>(mem: array<Word>, from: nat, to: nat, child: ScanNode, cb: Callbacks<S>, s0: S)
    returns (s: S)
    requires Linked(child)
    requires from <= to <= mem.Length
    modifies mem
    ensures s == Close(cb, ViewOf(child), s0).0
    ensures mem[..] == if Close(cb, ViewOf(child), s0).1
                       then Overwrite(old(mem[..]), from, seq(to - from, _ => Token(NOP))) else old(mem[..])
    ensures ViewOf(child) == old(ViewOf(child))
    ensures (child.addressCells, child.sizeCells) == CellsOf(ViewOf(child))
  {
    hide Close;
    var closed := Close(cb, ViewOf(child), s0);
    s := closed.0;
    if closed.1 {
      WriteNops(mem, from, to);
    }
    ViewUnchanged(child);
  }

  /** The FDT_BEGIN_NODE case of `fdt_scan_helper`, once `done` is settled. */
  method ScanSub<S>(start: nat, mem: array<Word>, strings: string, child: ScanNode, cb: Callbacks<S>, s0: S,
                    ghost name: seq<Word>, ghost body: Body)
    returns (lex: nat, s: S)
    requires Linked(child)
    requires IsName(name) && WellFormed(body, strings)
    requires Holds(mem[..], start, Wrap(name, Encode(body)))
    modifies mem, child
    ensures lex == start + |Wrap(name, Encode(body))|
    ensures var (inner, s', gone) :=
              VisitSub(cb, View(old(ViewOf(child.parent)), NameOf(name), old(child.addressCells), old(child.sizeCells)),
                       body, strings, s0);
            && s == s'
            && ViewOf(child) == inner.node
            && (child.addressCells, child.sizeCells) == CellsOf(inner.node)
            && mem[..] == Overwrite(old(mem[..]), start, Left(name, body, inner.marks, gone))
    decreases |Encode(body)| + 1
  {
    hide *;
    ghost var mem0 := mem[..];
    SubWords(mem0, start, name, Encode(body));
    NameChild(mem, start + 1, child, name);
    ghost var v := ViewOf(child);
    s := Open(cb, ViewOf(child), s0);
    lex, s := ScanHelper(start + 2 + |child.name| / 4, mem, strings, child, cb, s, body);
    ghost var inner := VisitContent(cb, v, Props(body, strings), Kids(body, strings), Open(cb, v, s0));
    Rewrap(mem0, start, name, Encode(body), Encode(Blank(body, inner.marks)));
    s := CloseChild(mem, start, lex, child, cb, s);
    OverwriteAgain(mem0, start, Wrap(name, Encode(Blank(body, inner.marks))),
                   seq(|Wrap(name, Encode(body))|, _ => Token(NOP)));
    LeftIs(name, body, inner.marks, Close(cb, inner.node, inner.s).1);
    VisitSubIs(cb, v, body, strings, s0);
  }

  lemma VisitSubIs<S>(cb: Callbacks<S>, child: View, body: Body, strings: string, s: S)
    requires WellFormed(body, strings)
    ensures var inner := VisitContent(cb, child, Props(body, strings), Kids(body, strings), Open(cb, child, s));
            VisitSub(cb, child, body, strings, s)
            == (inner, Close(cb, inner.node, inner.s).0, Close(cb, inner.node, inner.s).1)
  {
  }

  /** `fdt_scan_helper`. `b` is the layout that the words from `start` on are an encoding of. */
  method ScanHelper<S>(start: nat, mem: array<Word>, strings: string, node: ScanNode?, cb: Callbacks<S>, s0: S,
                       ghost b: Body)
    returns (lex: nat, s: S)
    requires Linked(node)
    requires WellFormed(b, strings)
    requires start + |Encode(b)| < mem.Length
    requires Holds(mem[..], start, Encode(b))
    requires Ends(mem[start + |Encode(b)|])
    modifies mem, if node == null then {} else {node}
    ensures lex == start + |Encode(b)| + if old(Be(mem[start + |Encode(b)|])) == END_NODE as int then 1 else 0
    ensures var r := VisitContent(cb, old(ViewOf(node)), Props(b, strings), Kids(b, strings), s0);
            && s == r.s
            && ViewOf(node) == r.node
            && |Encode(Blank(b, r.marks))| == |Encode(b)|
            && mem[..] == Overwrite(old(mem[..]), start, Encode(Blank(b, r.marks)))
    ensures node != null ==> node.name == old(node.name)
    decreases |Encode(b)|
  {
    hide *;
    ghost var mem0 := mem[..];
    ghost var v := ViewOf(node);
    ghost var whole := VisitContent(cb, v, Props(b, strings), Kids(b, strings), s0);
    ghost var goal := Encode(Blank(b, whole.marks));
    ghost var rem, marks := b, whole.marks;
    ghost var scanned: seq<Word> := [];
    AtStart(cb, strings, v, s0, b);
    Stand(mem0, start, Encode(b));

    ghost var chain := Chain(node);
    var child := new ScanNode(node);
    var last := false;
    lex, s := start, s0;
    while true
      invariant Standing(mem[..], mem0, start, scanned, Encode(rem))
      invariant lex == start + |scanned| && |scanned| + |Encode(rem)| == |Encode(b)|
      invariant Progress(cb, strings, whole, goal, v, (child.addressCells, child.sizeCells), last, s, rem, marks, scanned)
      invariant WellFormed(rem, strings)
      invariant v == ViewOf(node)
      invariant node != null ==> node.name == old(node.name)
      invariant child !in chain && child.parent == node && Linked(child)
      decreases |Encode(rem)|
    {
      ghost var cells, here := (child.addressCells, child.sizeCells), mem[..];
      Peek(here, mem0, start, scanned, rem, strings);
      var token := Be(mem[lex]);
      if token == NOP as int {
        NopStep(cb, strings, whole, goal, v, cells, last, s, rem, marks, scanned, here, mem0, start);
        lex := lex + 1;
        scanned, rem := scanned + FirstWords(rem), rem.rest;
      } else if token == PROP as int {
        PropStep(cb, strings, whole, goal, v, cells, last, s, rem, marks, scanned, here, mem0, start);
        assert !last;
        lex, s := ScanProp(lex, mem, strings, node, cb, s, rem.len, rem.off, rem.value);
        v, scanned, rem := ViewOf(node), scanned + FirstWords(rem), rem.rest;
      } else if token == BEGIN_NODE as int {
        if !last {
          AfterProps(cb, strings, whole, goal, v, cells, s, rem, marks, scanned);
          s := DoneProps(cb, ViewOf(node), s);
        }
        last := true;
        SubStep(cb, strings, whole, goal, v, cells, s, rem, marks, scanned, here, mem0, start);
        ghost var (inner, _, gone) :=
          VisitSub(cb, View(v, NameOf(rem.name), cells.0, cells.1), rem.body, strings, s);
        label L:
        lex, s := ScanSub(lex, mem, strings, child, cb, s, rem.name, rem.body);
        ViewUnchanged@L(node);
        scanned, rem, marks := scanned + Left(rem.name, rem.body, inner.marks, gone), rem.rest, marks.next;
      } else {
        if !last {
          AfterProps(cb, strings, whole, goal, v, cells, s, rem, marks, scanned);
          s := DoneProps(cb, ViewOf(node), s);
        }
        AtEnd(cb, strings, whole, goal, v, cells, s, marks, scanned);
        Finish(here, mem0, start, goal);
        if token == END_NODE as int {
          lex := lex + 1;
        }
        return;
      }
    }
  }

  lemma AtStart<S>(cb: Callbacks<S>, strings: string, v: View, s: S, b: Body)
    requires WellFormed(b, strings)
    ensures var whole := VisitContent(cb, v, Props(b, strings), Kids(b, strings), s);
            Progress(cb, strings, whole, Encode(Blank(b, whole.marks)), v, (2, 1), false, s, b, whole.marks, [])
  {
    hide VisitContent, Props, Kids, WellFormed, Blank, Encode;
    var whole := VisitContent(cb, v, Props(b, strings), Kids(b, strings), s);
    assert [] + Encode(Blank(b, whole.marks)) == Encode(Blank(b, whole.marks));
  }

  // ---- the whole blob ----

  /** The header check of `fdt_scan`: word 0 is the magic, word 6 the last compatible version. */
  predicate Understood(blob: seq<Word>)
    requires |blob| >= 10
  {
    Be(blob[0]) == FDT_MAGIC && Be(blob[6]) <= FDT_VERSION
  }

  function StringsBlock(blob: seq<Word>): string
    requires |blob| >= 10 && Be(blob[3]) <= 4 * |blob|
  {
    Chars(blob)[Be(blob[3])..]
  }

  /** The blob's structure block lays out `b` (word-aligned, section 5.2) and its strings block has `b`'s names. */
  ghost predicate LaysOut(blob: seq<Word>, b: Body) {
    && |blob| >= 10
    && Be(blob[2]) % 4 == 0
    && Be(blob[3]) <= 4 * |blob|
    && WellFormed(b, StringsBlock(blob))
    && Be(blob[2]) / 4 + |Encode(b)| < |blob|
    && Holds(blob, Be(blob[2]) / 4, Encode(b))
    && Ends(blob[Be(blob[2]) / 4 + |Encode(b)|])
  }

  /** `fdt_scan`: a blob that is not understood is left alone; otherwise the abstract tree is visited and the
      nodes that `close` rejected are overwritten. */
  method FdtScan<S>(blob: array<Word>, cb: Callbacks<S>, s0: S, ghost b: Body) returns (s: S)
    requires blob.Length >= 10
    requires Understood(blob[..]) ==> LaysOut(blob[..], b)
    modifies blob
    ensures !old(Understood(blob[..])) ==> s == s0 && blob[..] == old(blob[..])
    ensures old(Understood(blob[..])) ==>
              var strings := old(StringsBlock(blob[..]));
              var r := VisitContent(cb, Null, Props(b, strings), Kids(b, strings), s0);
              && s == r.s
              && Means(b, strings, Props(b, strings), Kids(b, strings))
              && |Encode(Blank(b, r.marks))| == |Encode(b)|
              && blob[..] == Overwrite(old(blob[..]), old(Be(blob[2])) / 4, Encode(Blank(b, r.marks)))
  {
    hide VisitContent, WellFormed, Encode, Props, Kids, Blank, Be, Chars;
    if Be(blob[0]) != FDT_MAGIC || Be(blob[6]) > FDT_VERSION {
      return s0;
    }
    var strings := StringsBlock(blob[..]);
    LayoutMeans(b, strings);
    var _, s' := ScanHelper(Be(blob[2]) / 4, blob, strings, null, cb, s0, b);
    s := s';
  }
}
