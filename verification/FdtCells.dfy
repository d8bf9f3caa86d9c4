/** Cell counts: which `#address-cells` and `#size-cells` hold when a node's properties are done, how a `reg`
    value is read with them, and how that differs from section 2.3.5 of the Devicetree Specification. */
module FdtCells {
  import opened Words
  import opened Wrappers
  import opened FdtFormat
  import opened FdtVisit

  /** The last setting of a cell count in a list of properties, or `otherwise`. */
  function LastCount(ps: seq<PropVal>, name: string, otherwise: int): int {
    if ps == [] then otherwise
    else
      var p := ps[|ps| - 1];
      if p.name == name && |p.value| > 0 then ToInt32(Be(p.value[0]))
      else LastCount(ps[..|ps| - 1], name, otherwise)
  }

  predicate Sets(ps: seq<PropVal>, name: string) {
    exists i :: 0 <= i < |ps| && ps[i].name == name && |ps[i].value| > 0
  }

  /** A node as `done` sees it: its cell counts are the last ones set by it or by an earlier sibling. `earlier`
      lists the properties of the earlier siblings. */
  function Settled(parent: View, name: string, earlier: seq<PropVal>, ps: seq<PropVal>): (v: View)
    ensures v.View? && v.parent == parent
  {
    View(parent, name, AddressCount(earlier + ps), SizeCount(earlier + ps))
  }

  /** The nodes of a forest in pre-order, each as `done` sees it. */
  function SettledNodes(parent: View, earlier: seq<PropVal>, f: Forest): seq<View>
    decreases f
  {
    match f
    case Nil => []
    case Cons(t, rest) =>
      var v := Settled(parent, t.name, earlier, t.props);
      [v] + SettledNodes(v, [], t.kids) + SettledNodes(parent, earlier + t.props, rest)
  }

  /** Callbacks that keep every node handed to `done`. */
  function DoneLog(): Callbacks<seq<View>> {
    Callbacks(None, (v, p, log) => log, Some((v, log) => log + [v]), None)
  }

  lemma LastCountAppend(ps: seq<PropVal>, qs: seq<PropVal>, name: string, otherwise: int)
    ensures LastCount(ps + qs, name, otherwise) == LastCount(qs, name, LastCount(ps, name, otherwise))
  {
    if qs == [] {
      assert ps + qs == ps;
    } else {
      assert (ps + qs)[..|ps + qs| - 1] == ps + qs[..|qs| - 1];
      LastCountAppend(ps, qs[..|qs| - 1], name, otherwise);
    }
  }

  /** Properties settle a node's counts, whatever the callbacks do. */
  lemma {:induction false} PropsSettle<S>(cb: Callbacks<S>, v: View, ps: seq<PropVal>, s: S)
    requires v.View?
    ensures VisitProps(cb, v, ps, s).0
            == View(v.parent, v.name, LastCount(ps, "#address-cells", v.addressCells),
                    LastCount(ps, "#size-cells", v.sizeCells))
    decreases |ps|
  {
    if ps != [] {
      var v' := SetCells(v, ps[0]);
      PropsSettle(cb, v', ps[1..], cb.prop(v', ps[0], s));
      assert ps == [ps[0]] + ps[1..];
      LastCountAppend([ps[0]], ps[1..], "#address-cells", v.addressCells);
      LastCountAppend([ps[0]], ps[1..], "#size-cells", v.sizeCells);
      assert [ps[0]][..0] == [];
      assert LastCount([ps[0]], "#address-cells", v.addressCells) == v'.addressCells;
      assert LastCount([ps[0]], "#size-cells", v.sizeCells) == v'.sizeCells;
    }
  }

  function AddressCount(ps: seq<PropVal>): int {
    LastCount(ps, "#address-cells", 2)
  }

  function SizeCount(ps: seq<PropVal>): int {
    LastCount(ps, "#size-cells", 1)
  }

  /** Visiting one sibling, for any callbacks: the counts it starts from are the earlier siblings', the counts it
      settles on are handed to the next. */
  lemma VisitFirst<S>(cb: Callbacks<S>, v: View, earlier: seq<PropVal>, t: Tree, rest: Forest, s: S)
    ensures var child := View(v, t.name, AddressCount(earlier), SizeCount(earlier));
            var settled := Settled(v, t.name, earlier, t.props);
            var s1 := VisitProps(cb, child, t.props, Open(cb, child, s)).1;
            var s2 := VisitKids(cb, settled, 2, 1, t.kids, DoneProps(cb, settled, s1)).0;
            VisitKids(cb, v, AddressCount(earlier), SizeCount(earlier), Cons(t, rest), s).0
            == VisitKids(cb, v, AddressCount(earlier + t.props), SizeCount(earlier + t.props), rest,
                         Close(cb, settled, s2).0).0
  {
    hide LastCount, VisitProps, Open, DoneProps, Close;
    var child := View(v, t.name, AddressCount(earlier), SizeCount(earlier));
    PropsSettle(cb, child, t.props, Open(cb, child, s));
    LastCountAppend(earlier, t.props, "#address-cells", 2);
    LastCountAppend(earlier, t.props, "#size-cells", 1);
  }

  lemma DoneLogIsPassive(v: View, ps: seq<PropVal>, log: seq<View>)
    ensures VisitProps(DoneLog(), v, ps, log).1 == log
    decreases |ps|
  {
    if ps != [] {
      DoneLogIsPassive(SetCells(v, ps[0]), ps[1..], log);
    }
  }

  /** Exact inheritance: the counts that `done` sees are those of `SettledNodes`, carried over from sibling to
      sibling because one record serves them all. */
  lemma {:induction false} CountsCarryOver(v: View, earlier: seq<PropVal>, f: Forest, log: seq<View>)
    ensures VisitKids(DoneLog(), v, AddressCount(earlier), SizeCount(earlier), f, log).0
            == log + SettledNodes(v, earlier, f)
    decreases f
  {
    hide LastCount, VisitProps, Settled, AddressCount, SizeCount, DoneLog, Open, DoneProps, Close;
    match f
    case Nil => assert log + [] == log;
    case Cons(t, rest) =>
      VisitFirst(DoneLog(), v, earlier, t, rest, log);
      DoneLogIsPassive(View(v, t.name, AddressCount(earlier), SizeCount(earlier)), t.props, log);
      var settled := Settled(v, t.name, earlier, t.props);
      NoCounts();
      CountsCarryOver(settled, [], t.kids, log + [settled]);
      DoneLogSteps(View(v, t.name, AddressCount(earlier), SizeCount(earlier)), log);
      DoneLogSteps(settled, log);
      var inner := log + [settled] + SettledNodes(settled, [], t.kids);
      CountsCarryOver(v, earlier + t.props, rest, inner);
      assert inner + SettledNodes(v, earlier + t.props, rest)
             == log + ([settled] + SettledNodes(settled, [], t.kids) + SettledNodes(v, earlier + t.props, rest));
  }

  lemma DoneLogSteps(v: View, log: seq<View>)
    requires v.View?
    ensures Open(DoneLog(), v, log) == log
    ensures DoneProps(DoneLog(), v, log) == log + [v]
    ensures forall log' :: Close(DoneLog(), v, log').0 == log'
  {
  }

  lemma NoCounts()
    ensures AddressCount([]) == 2 && SizeCount([]) == 1
  {
  }

  // ---- everything the callbacks are told ----

  datatype Report = Opened(node: View) | Saw(node: View, prop: PropVal) | Finished(node: View) | Closed(node: View)

  /** Callbacks that write down all they are told, and keep every node. */
  function FullLog(): Callbacks<seq<Report>> {
    Callbacks(
      Some((v, log) => log + [Opened(v)]),
      (v, p, log) => log + [Saw(v, p)],
      Some((v, log) => log + [Finished(v)]),
      Some((v, log) => (log + [Closed(v)], false)))
  }

  /** Each property is reported with its node's counts as they are with this property and those before it. */
  function PropReports(parent: View, name: string, earlier: seq<PropVal>, ps: seq<PropVal>): seq<Report> {
    seq(|ps|, i requires 0 <= i < |ps| => Saw(Settled(parent, name, earlier, ps[..i + 1]), ps[i]))
  }

  /** A node opens with its earlier siblings' counts, and finishes and closes with those it settled on. */
  function Reports(parent: View, earlier: seq<PropVal>, f: Forest): seq<Report>
    decreases f
  {
    match f
    case Nil => []
    case Cons(t, rest) =>
      var v := Settled(parent, t.name, earlier, t.props);
      [Opened(Settled(parent, t.name, earlier, []))] + PropReports(parent, t.name, earlier, t.props) + [Finished(v)]
      + Reports(v, [], t.kids) + [Closed(v)] + Reports(parent, earlier + t.props, rest)
  }

  lemma LogSteps(v: View, p: PropVal, log: seq<Report>)
    requires v.View?
    ensures Open(FullLog(), v, log) == log + [Opened(v)]
    ensures FullLog().prop(v, p, log) == log + [Saw(v, p)]
    ensures DoneProps(FullLog(), v, log) == log + [Finished(v)]
    ensures Close(FullLog(), v, log).0 == log + [Closed(v)]
  {
  }

  lemma {:induction false} PropsReported(parent: View, name: string, earlier: seq<PropVal>, ps: seq<PropVal>,
                                         log: seq<Report>)
    ensures VisitProps(FullLog(), Settled(parent, name, earlier, []), ps, log).1
            == log + PropReports(parent, name, earlier, ps)
    decreases |ps|
  {
    hide AddressCount, SizeCount, FullLog;
    if ps == [] {
      assert log + [] == log;
    } else {
      var v, v' := Settled(parent, name, earlier, []), Settled(parent, name, earlier, ps[..1]);
      SettlesOne(parent, name, earlier, ps[0]);
      assert ps[..1] == [ps[0]];
      LogSteps(v', ps[0], log);
      assert earlier + [] == earlier && earlier + [ps[0]] + [] == earlier + [ps[0]];
      PropsReported(parent, name, earlier + [ps[0]], ps[1..], log + [Saw(v', ps[0])]);
      assert forall i :: 0 < i < |ps| ==> earlier + ps[..i + 1] == earlier + [ps[0]] + ps[1..][..i];
      assert PropReports(parent, name, earlier, ps)
             == [Saw(v', ps[0])] + PropReports(parent, name, earlier + [ps[0]], ps[1..]);
    }
  }

  lemma SettlesOne(parent: View, name: string, earlier: seq<PropVal>, p: PropVal)
    ensures SetCells(Settled(parent, name, earlier, []), p) == Settled(parent, name, earlier, [p])
  {
    assert earlier + [] == earlier && (earlier + [p])[..|earlier|] == earlier;
  }

  /** What every callback is told, and in which order, for every forest. */
  lemma {:induction false} CallbacksTold(parent: View, earlier: seq<PropVal>, f: Forest, log: seq<Report>)
    ensures VisitKids(FullLog(), parent, AddressCount(earlier), SizeCount(earlier), f, log).0
            == log + Reports(parent, earlier, f)
    decreases f
  {
    hide LastCount, VisitProps, Settled, AddressCount, SizeCount, FullLog, Open, DoneProps, Close, PropReports;
    match f
    case Nil => assert log + [] == log;
    case Cons(t, rest) =>
      var child, settled := Settled(parent, t.name, earlier, []), Settled(parent, t.name, earlier, t.props);
      ChildIsSettled(parent, t.name, earlier);
      VisitFirst(FullLog(), parent, earlier, t, rest, log);
      var none := PropVal("", 0, []);
      LogSteps(child, none, log);
      var begun := log + [Opened(child)];
      PropsReported(parent, t.name, earlier, t.props, begun);
      var seen := begun + PropReports(parent, t.name, earlier, t.props);
      LogSteps(settled, none, seen);
      NoCounts();
      CallbacksTold(settled, [], t.kids, seen + [Finished(settled)]);
      var inner := seen + [Finished(settled)] + Reports(settled, [], t.kids);
      LogSteps(settled, none, inner);
      CallbacksTold(parent, earlier + t.props, rest, inner + [Closed(settled)]);
      InOrder(log, [Opened(child)], PropReports(parent, t.name, earlier, t.props), [Finished(settled)],
              Reports(settled, [], t.kids), [Closed(settled)], Reports(parent, earlier + t.props, rest));
  }

  lemma InOrder(log: seq<Report>, a: seq<Report>, b: seq<Report>, c: seq<Report>, d: seq<Report>, e: seq<Report>,
                f: seq<Report>)
    ensures log + a + b + c + d + e + f == log + (a + b + c + d + e + f)
  {
  }

  lemma ChildIsSettled(parent: View, name: string, earlier: seq<PropVal>)
    ensures View(parent, name, AddressCount(earlier), SizeCount(earlier)) == Settled(parent, name, earlier, [])
  {
    assert earlier + [] == earlier;
  }

  // ---- against the standard ----

  /** Section 2.3.5 gives a node its own count or the default, never a sibling's. The scanner agrees exactly when
      the node sets the count itself or what the earlier siblings left is the default. */
  lemma AgreesWithStandard(earlier: seq<PropVal>, ps: seq<PropVal>, name: string, default: int)
    ensures LastCount(earlier + ps, name, default) == LastCount(ps, name, default)
            <==> Sets(ps, name) || LastCount(earlier, name, default) == default
  {
    LastCountAppend(earlier, ps, name, default);
    LastCountCases(ps, name, default, LastCount(earlier, name, default));
  }

  lemma LastCountCases(ps: seq<PropVal>, name: string, d: int, d': int)
    ensures Sets(ps, name) ==> LastCount(ps, name, d) == LastCount(ps, name, d')
    ensures !Sets(ps, name) ==> LastCount(ps, name, d) == d && LastCount(ps, name, d') == d'
  {
    if ps != [] {
      var init, p := ps[..|ps| - 1], ps[|ps| - 1];
      LastCountCases(init, name, d, d');
      assert Sets(ps, name) <==> Sets(init, name) || (p.name == name && |p.value| > 0) by {
        assert forall i :: 0 <= i < |init| ==> init[i] == ps[i];
        if Sets(init, name) {
          var i :| 0 <= i < |init| && init[i].name == name && |init[i].value| > 0;
          assert ps[i] == init[i];
        }
        if p.name == name && |p.value| > 0 {
          assert ps[|ps| - 1] == p;
        }
      }
    }
  }

  /** The nodes of a forest in pre-order, each with the counts that section 2.3.5 gives it. */
  function StandardNodes(parent: View, f: Forest): seq<View>
    decreases f
  {
    match f
    case Nil => []
    case Cons(t, rest) =>
      var v := Settled(parent, t.name, [], t.props);
      [v] + StandardNodes(v, t.kids) + StandardNodes(parent, rest)
  }

  /** A node sets a count itself, or its earlier siblings left the default. */
  predicate CountIsOwn(earlier: seq<PropVal>, ps: seq<PropVal>, name: string, default: int) {
    Sets(ps, name) || LastCount(earlier, name, default) == default
  }

  predicate AllCountsOwn(earlier: seq<PropVal>, f: Forest)
    decreases f
  {
    match f
    case Nil => true
    case Cons(t, rest) =>
      && CountIsOwn(earlier, t.props, "#address-cells", 2)
      && CountIsOwn(earlier, t.props, "#size-cells", 1)
      && AllCountsOwn([], t.kids)
      && AllCountsOwn(earlier + t.props, rest)
  }

  lemma SameNumber(parent: View, parent': View, earlier: seq<PropVal>, f: Forest)
    ensures |SettledNodes(parent, earlier, f)| == |StandardNodes(parent', f)|
    decreases f
  {
    hide Settled;
    match f
    case Nil =>
    case Cons(t, rest) =>
      SameNumber(Settled(parent, t.name, earlier, t.props), Settled(parent', t.name, [], t.props), [], t.kids);
      SameNumber(parent, parent', earlier + t.props, rest);
  }

  /** A tree is read as section 2.3.5 has it, node by node, exactly when every node sets each of its counts itself or
      its earlier siblings left the default. */
  lemma {:induction false} ForestAgreesWithStandard(parent: View, earlier: seq<PropVal>, f: Forest)
    ensures SettledNodes(parent, earlier, f) == StandardNodes(parent, f) <==> AllCountsOwn(earlier, f)
    decreases f
  {
    hide LastCount, Sets;
    match f
    case Nil =>
    case Cons(t, rest) =>
      var v, v' := Settled(parent, t.name, earlier, t.props), Settled(parent, t.name, [], t.props);
      assert [] + t.props == t.props;
      AgreesWithStandard(earlier, t.props, "#address-cells", 2);
      AgreesWithStandard(earlier, t.props, "#size-cells", 1);
      ForestAgreesWithStandard(v, [], t.kids);
      ForestAgreesWithStandard(parent, earlier + t.props, rest);
      SameNumber(v, v', [], t.kids);
      SameParts(v, v', SettledNodes(v, [], t.kids), StandardNodes(v', t.kids),
                SettledNodes(parent, earlier + t.props, rest), StandardNodes(parent, rest));
  }

  lemma SameParts(v: View, v': View, a: seq<View>, a': seq<View>, b: seq<View>, b': seq<View>)
    requires |a| == |a'|
    ensures [v] + a + b == [v'] + a' + b' <==> v == v' && a == a' && b == b'
  {
    var l, r := [v] + a + b, [v'] + a' + b';
    assert l[0] == v && l[1..1 + |a|] == a && l[1 + |a|..] == b;
    assert r[0] == v' && r[1..1 + |a|] == a' && r[1 + |a|..] == b';
  }

  /** Two siblings, of which the first alone sets its address count, to 1: the second is read with 1 instead of 2. */
  lemma SiblingInherits()
    ensures var first := Tree("first", [PropVal("#address-cells", 4, [Token(1)])], Nil);
            var f := Cons(first, Cons(Tree("second", [], Nil), Nil));
            && SettledNodes(Null, [], f) == [View(Null, "first", 1, 1), View(Null, "second", 1, 1)]
            && StandardNodes(Null, f) == [View(Null, "first", 1, 1), View(Null, "second", 2, 1)]
  {
    var ps := [PropVal("#address-cells", 4, [Token(1)])];
    var second := Cons(Tree("second", [], Nil), Nil);
    assert [] + ps == ps == ps + [] && ps[..0] == [];
    assert SettledNodes(Null, ps, second) == [View(Null, "second", 1, 1)] by {
      assert SettledNodes(Null, ps + [], Nil) == [];
    }
    assert StandardNodes(Null, second) == [View(Null, "second", 2, 1)];
  }

  /** A cell count is the first word, as a big-endian `int`, of the last property of that name that has one. */
  lemma {:induction false} LastCountMeans(ps: seq<PropVal>, name: string, default: int, i: nat)
    requires i < |ps| && ps[i].name == name && |ps[i].value| > 0
    requires forall j :: i < j < |ps| ==> ps[j].name != name || |ps[j].value| == 0
    ensures LastCount(ps, name, default) == ToInt32(Be(ps[i].value[0]))
    decreases |ps|
  {
    if i < |ps| - 1 {
      LastCountMeans(ps[..|ps| - 1], name, default, i);
    }
  }

  // ---- reading numbers of several cells ----

  /** The unbounded big-endian value of some words. */
  function Value(ws: seq<Word>): nat {
    if ws == [] then 0 else Value(ws[..|ws| - 1]) * TWO32 + Be(ws[|ws| - 1])
  }

  function Pow32(k: nat): nat {
    if k == 0 then 1 else 0x1_0000_0000 * Pow32(k - 1)
  }

  /** The first cell is the most significant. */
  lemma {:induction false} ValueFromFront(w: Word, ws: seq<Word>)
    ensures Value([w] + ws) == Be(w) * Pow32(|ws|) + Value(ws)
    decreases |ws|
  {
    hide Be;
    if ws == [] {
      assert [w] + ws == [w] && [w][..0] == [];
    } else {
      var init, last := ws[..|ws| - 1], ws[|ws| - 1];
      assert ([w] + ws)[..|ws|] == [w] + init;
      ValueFromFront(w, init);
      assert (Be(w) * Pow32(|init|) + Value(init)) * TWO32 == Be(w) * Pow32(|ws|) + Value(init) * TWO32;
    }
  }

  function Count(cells: int): (n: nat)
    ensures n == cells || (n == 0 && cells < 0)
  {
    if cells < 0 then 0 else cells
  }

  lemma DropMultiple(x: nat, k: nat)
    ensures (x + k * 0x1_0000_0000_0000_0000) % 0x1_0000_0000_0000_0000 == x % 0x1_0000_0000_0000_0000
  {
  }

  lemma ShiftMod(a: nat, b: nat)
    ensures (a % TWO64 * TWO32 + b) % TWO64 == (a * TWO32 + b) % TWO64
  {
    var q, r := a / 0x1_0000_0000_0000_0000, a % 0x1_0000_0000_0000_0000;
    DropMultiple(r * 0x1_0000_0000 + b, q * 0x1_0000_0000);
    assert a * 0x1_0000_0000 + b == (r * 0x1_0000_0000 + b) + (q * 0x1_0000_0000) * 0x1_0000_0000_0000_0000;
  }

  /** One more cell, in 64-bit arithmetic. */
  function Shifted(v: u64, w: Word): u64 {
    (v * TWO32 + Be(w)) % TWO64
  }

  lemma ShiftIn(ws: seq<Word>, w: Word)
    ensures Shifted(Value(ws) % TWO64, w) == Value(ws + [w]) % TWO64
  {
    hide Be;
    assert Value(ws + [w]) == Value(ws) * TWO32 + Be(w) by {
      assert (ws + [w])[..|ws|] == ws;
    }
    hide Value;
    ShiftMod(Value(ws), Be(w));
  }

  /** `fdt_get_address` and `fdt_get_size`: the big-endian value of the cells modulo 2^64, for any count, and an
      advance of exactly that many words. */
  method GetCells(mem: array<Word>, at: nat, cells: int) returns (value: u64, next: nat)
    requires at + Count(cells) <= mem.Length
    ensures next == at + Count(cells)
    ensures value == Value(mem[at..next]) % TWO64
  {
    hide Value, Shifted, Be;
    value, next := 0, at;
    NoCells(mem[at..next]);
    var left := cells;
    while left > 0
      invariant next == at + Count(cells) - Count(left)
      invariant value == Value(mem[at..next]) % TWO64
      decreases left
    {
      ShiftIn(mem[at..next], mem[next]);
      assert mem[at..next + 1] == mem[at..next] + [mem[next]];
      value := Shifted(value, mem[next]);
      next := next + 1;
      left := left - 1;
    }
  }

  lemma NoCells(ws: seq<Word>)
    requires ws == []
    ensures Value(ws) % TWO64 == 0
  {
  }
}
