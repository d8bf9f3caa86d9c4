/** What a scan reports, and what deletion changes about it. */
module FdtTrace {
  import opened Words
  import opened Wrappers
  import opened FdtFormat
  import opened FdtVisit
  import opened FdtScanner

  datatype Event = OpenNode(name: string) | SeenProp(prop: PropVal) | PropsDone(name: string) | CloseNode(name: string)

  /** The events of a forest, from the structure of section 5.4.2 alone. */
  function Trace(f: Forest): seq<Event> {
    match f
    case Nil => []
    case Cons(t, rest) => TreeTrace(t) + Trace(rest)
  }

  function TreeTrace(t: Tree): seq<Event> {
    [OpenNode(t.name)] + PropEvents(t.props) + [PropsDone(t.name)] + Trace(t.kids) + [CloseNode(t.name)]
  }

  function PropEvents(ps: seq<PropVal>): seq<Event> {
    seq(|ps|, i requires 0 <= i < |ps| => SeenProp(ps[i]))
  }

  function NameIn(v: View): string {
    if v.Null? then "" else v.name
  }

  /** Callbacks that write down what they are told. Whether a node is deleted may depend on all of it. */
  function Recorder(doomed: seq<Event> -> bool): Callbacks<seq<Event>> {
    Callbacks(
      Some((v, log) => log + [OpenNode(NameIn(v))]),
      (v, p, log) => log + [SeenProp(p)],
      Some((v, log) => log + [PropsDone(NameIn(v))]),
      Some((v, log) => (log + [CloseNode(NameIn(v))], doomed(log))))
  }

  lemma Records(doomed: seq<Event> -> bool, v: View, log: seq<Event>)
    ensures Open(Recorder(doomed), v, log) == log + [OpenNode(NameIn(v))]
    ensures DoneProps(Recorder(doomed), v, log) == log + if v.Null? then [] else [PropsDone(NameIn(v))]
    ensures Close(Recorder(doomed), v, log).0 == log + [CloseNode(NameIn(v))]
  {
  }

  lemma RecordProps(doomed: seq<Event> -> bool, v: View, ps: seq<PropVal>, log: seq<Event>)
    ensures var (v', log') := VisitProps(Recorder(doomed), v, ps, log);
            log' == log + PropEvents(ps) && NameIn(v') == NameIn(v) && (v'.Null? <==> v.Null?)
    decreases |ps|
  {
    if ps != [] {
      var cb := Recorder(doomed);
      var v' := SetCells(v, ps[0]);
      assert cb.prop(v', ps[0], log) == log + [SeenProp(ps[0])];
      RecordProps(doomed, v', ps[1..], log + [SeenProp(ps[0])]);
      assert PropEvents(ps) == [SeenProp(ps[0])] + PropEvents(ps[1..]);
    }
  }

  /** For every tree and every choice of deletions: open, the properties in order, one `done` before any child
      opens, the children in order, close. */
  lemma {:induction false} ScanTrace(doomed: seq<Event> -> bool, v: View, cells: (int, int), f: Forest,
                                     log: seq<Event>)
    ensures VisitKids(Recorder(doomed), v, cells.0, cells.1, f, log).0 == log + Trace(f)
    decreases f, 0
  {
    hide Recorder, Open, Close, VisitContent, CellsOf, TreeTrace;
    match f
    case Nil => assert log + [] == log;
    case Cons(t, rest) =>
      var cb := Recorder(doomed);
      var child := View(v, t.name, cells.0, cells.1);
      var atOpen := Open(cb, child, log);
      var inner := VisitContent(cb, child, t.props, t.kids, atOpen);
      var closed := Close(cb, inner.node, inner.s).0;
      Records(doomed, child, log);
      ContentTrace(doomed, child, t.props, t.kids, atOpen);
      Records(doomed, inner.node, inner.s);
      ScanTrace(doomed, v, CellsOf(inner.node), rest, closed);
      TreeTraceAppends(log, t);
      assert log + TreeTrace(t) + Trace(rest) == log + (TreeTrace(t) + Trace(rest));
  }

  lemma TreeTraceAppends(log: seq<Event>, t: Tree)
    ensures log + TreeTrace(t)
            == log + [OpenNode(t.name)] + PropEvents(t.props) + [PropsDone(t.name)] + Trace(t.kids) + [CloseNode(t.name)]
  {
    hide Trace, PropEvents;
  }

  lemma {:induction false} ContentTrace(doomed: seq<Event> -> bool, v: View, ps: seq<PropVal>, kids: Forest,
                                        log: seq<Event>)
    ensures var r := VisitContent(Recorder(doomed), v, ps, kids, log);
            && NameIn(r.node) == NameIn(v)
            && r.s == log + PropEvents(ps) + (if v.Null? then [] else [PropsDone(NameIn(v))]) + Trace(kids)
    decreases kids, 1
  {
    hide Recorder, DoneProps, VisitKids, Trace, PropEvents;
    var cb := Recorder(doomed);
    var (v', log') := VisitProps(cb, v, ps, log);
    RecordProps(doomed, v, ps, log);
    Records(doomed, v', log');
    ScanTrace(doomed, v', (2, 1), kids, DoneProps(cb, v', log'));
  }

  /** The order of section 5.1: the header, then the structure block, then the strings block. */
  ghost predicate Ordered(blob: seq<Word>, b: Body)
    requires |blob| >= 10
  {
    10 <= Be(blob[2]) / 4 && Be(blob[2]) + 4 * |Encode(b)| <= Be(blob[3])
  }

  /** The blob a scan leaves lays out the blanked tree, under the same header and strings. */
  lemma LaysOutBlanked(blob: seq<Word>, b: Body, m: Marks)
    requires LaysOut(blob, b) && Ordered(blob, b)
    ensures |Encode(Blank(b, m))| == |Encode(b)|
    ensures var blob' := Overwrite(blob, Be(blob[2]) / 4, Encode(Blank(b, m)));
            && LaysOut(blob', Blank(b, m))
            && Ordered(blob', Blank(b, m))
            && StringsBlock(blob') == StringsBlock(blob)
            && (Understood(blob') <==> Understood(blob))
  {
    hide Encode, Blank, WellFormed, Be, ByteAt;
    var at, ws := Be(blob[2]) / 4, Encode(Blank(b, m));
    var strings := StringsBlock(blob);
    BlankLength(b, m);
    BlankIsPrune(b, m, strings);
    var blob' := Overwrite(blob, at, ws);
    assert forall k :: 0 <= k < 10 ==> blob'[k] == blob[k];
    SameChars(blob, blob', at + |ws|, Be(blob[3]));
    assert blob'[at..at + |ws|] == ws;
  }

  lemma SameChars(a: seq<Word>, b: seq<Word>, from: nat, off: nat)
    requires |a| == |b| && 4 * from <= off <= 4 * |a|
    requires forall k :: from <= k < |a| ==> a[k] == b[k]
    ensures Chars(a)[off..] == Chars(b)[off..]
  {
    forall k | off <= k < 4 * |a|
      ensures Chars(a)[k] == Chars(b)[k]
    {
      assert a[k / 4] == b[k / 4];
    }
  }

  /** The root helper call has no node: it fires no `done` and only visits the root's siblings. */
  lemma RootVisit(doomed: seq<Event> -> bool, b: Body, strings: string)
    requires WellFormed(b, strings) && NoProps(b)
    ensures var kids := Kids(b, strings);
            var r := VisitContent(Recorder(doomed), Null, Props(b, strings), kids, []);
            r.s == Trace(kids) && r.marks == VisitKids(Recorder(doomed), Null, 2, 1, kids, []).1
  {
    NoPropsMeansNone(b, strings);
    ScanTrace(doomed, Null, (2, 1), Kids(b, strings), []);
    assert [] + Trace(Kids(b, strings)) == Trace(Kids(b, strings));
  }

  lemma LaysOutMeans(blob: seq<Word>, b: Body)
    requires LaysOut(blob, b)
    ensures |blob| >= 10 && Be(blob[3]) <= 4 * |blob| && WellFormed(b, StringsBlock(blob))
  {
  }

  /** Deletion equals pruning. Scanning with deletion and then scanning again: the first scan reports the tree as
      it was; after it the structure block is the blanked layout and everything else is as before; the second scan
      reports the tree without the nodes that `close` rejected (`gone`). */
  method ScanTwice(blob: array<Word>, doomed: seq<Event> -> bool, doomed': seq<Event> -> bool, ghost b: Body)
    returns (first: seq<Event>, second: seq<Event>, ghost gone: Marks, ghost between: seq<Word>)
    requires LaysOut(blob[..], b) && Ordered(blob[..], b) && Understood(blob[..])
    requires NoProps(b)
    modifies blob
    ensures var kids := old(Kids(b, StringsBlock(blob[..])));
            && first == Trace(kids)
            && second == Trace(Prune(kids, gone))
            && gone == VisitKids(Recorder(doomed), Null, 2, 1, kids, []).1
    ensures |Encode(Blank(b, gone))| == |Encode(b)|
    ensures between == Overwrite(old(blob[..]), old(Be(blob[2])) / 4, Encode(Blank(b, gone)))
  {
    hide VisitContent, VisitKids, Kids, Props, WellFormed, Encode, Blank, LaysOut, Ordered, Trace, Understood, Be,
         StringsBlock, Prune, Overwrite, Recorder, NoProps;
    ghost var blob0 := blob[..];
    LaysOutMeans(blob0, b);
    ghost var strings := StringsBlock(blob0);
    gone := VisitKids(Recorder(doomed), Null, 2, 1, Kids(b, strings), []).1;
    RootVisit(doomed, b, strings);
    first := FdtScan(blob, Recorder(doomed), [], b);
    between := blob[..];

    ghost var b' := Blank(b, gone);
    LaysOutBlanked(blob0, b, gone);
    BlankIsPrune(b, gone, strings);
    RootVisit(doomed', b', strings);
    second := FdtScan(blob, Recorder(doomed'), [], b');
  }

  /** The forest without the nodes of the given names, and without what is below them. */
  function Without(f: Forest, bad: string -> bool): Forest {
    match f
    case Nil => Nil
    case Cons(t, rest) =>
      if bad(t.name) then Without(rest, bad)
      else Cons(Tree(t.name, t.props, Without(t.kids, bad)), Without(rest, bad))
  }

  lemma PropsKeepName<S>(cb: Callbacks<S>, v: View, ps: seq<PropVal>, s: S)
    ensures NameIn(VisitProps(cb, v, ps, s).0) == NameIn(v)
    ensures VisitProps(cb, v, ps, s).0.Null? <==> v.Null?
    decreases |ps|
  {
    if ps != [] {
      PropsKeepName(cb, SetCells(v, ps[0]), ps[1..], cb.prop(SetCells(v, ps[0]), ps[0], s));
    }
  }

  /** Whatever else the callbacks do, rejecting by name removes exactly the nodes of those names. */
  lemma {:induction false} DeletionByName<S>(cb: Callbacks<S>, bad: string -> bool, v: View, cells: (int, int),
                                             f: Forest, s: S)
    requires forall v, s :: Close(cb, v, s).1 == bad(NameIn(v))
    ensures Prune(f, VisitKids(cb, v, cells.0, cells.1, f, s).1) == Without(f, bad)
    decreases f
  {
    match f
    case Nil =>
    case Cons(t, rest) =>
      var child := View(v, t.name, cells.0, cells.1);
      var atOpen := Open(cb, child, s);
      var inner := VisitContent(cb, child, t.props, t.kids, atOpen);
      var (v', s') := VisitProps(cb, child, t.props, atOpen);
      PropsKeepName(cb, child, t.props, atOpen);
      DeletionByName(cb, bad, v', (2, 1), t.kids, DoneProps(cb, v', s'));
      DeletionByName(cb, bad, v, CellsOf(inner.node), rest, Close(cb, inner.node, inner.s).0);
  }

  predicate NothingGone(m: Marks) {
    m.Mark? ==> !m.gone && NothingGone(m.below) && NothingGone(m.next)
  }

  lemma {:induction false} BlankNothing(b: Body, m: Marks)
    requires NothingGone(m)
    ensures Blank(b, m) == b
  {
    match b
    case Done =>
    case Nop(rest) => BlankNothing(rest, m);
    case Prop(_, _, _, rest) => BlankNothing(rest, m);
    case Sub(_, body, rest) =>
      if m.Mark? {
        BlankNothing(body, m.below);
        BlankNothing(rest, m.next);
      }
  }

  lemma {:induction false} NoCloseNothingGone<S>(cb: Callbacks<S>, v: View, cells: (int, int), f: Forest, s: S)
    requires cb.close.None?
    ensures NothingGone(VisitKids(cb, v, cells.0, cells.1, f, s).1)
    decreases f
  {
    match f
    case Nil =>
    case Cons(t, rest) =>
      var child := View(v, t.name, cells.0, cells.1);
      var atOpen := Open(cb, child, s);
      var inner := VisitContent(cb, child, t.props, t.kids, atOpen);
      var (v', s') := VisitProps(cb, child, t.props, atOpen);
      NoCloseNothingGone(cb, v', (2, 1), t.kids, DoneProps(cb, v', s'));
      NoCloseNothingGone(cb, v, CellsOf(inner.node), rest, inner.s);
  }

  /** A client without `close` leaves the blob as it found it, and sees the root's siblings. */
  lemma ReadOnlyScan<S>(cb: Callbacks<S>, blob: seq<Word>, b: Body, s: S)
    requires LaysOut(blob, b) && NoProps(b) && cb.close.None?
    ensures var strings := StringsBlock(blob);
            var kids := Kids(b, strings);
            var r := VisitContent(cb, Null, Props(b, strings), kids, s);
            && r.s == VisitKids(cb, Null, 2, 1, kids, s).0
            && Encode(Blank(b, r.marks)) == Encode(b)
            && Overwrite(blob, Be(blob[2]) / 4, Encode(b)) == blob
  {
    hide WellFormed, Encode, VisitKids;
    var strings := StringsBlock(blob);
    NoPropsMeansNone(b, strings);
    NoCloseNothingGone(cb, Null, (2, 1), Kids(b, strings), s);
    BlankNothing(b, VisitKids(cb, Null, 2, 1, Kids(b, strings), s).1);
    HoldsSplit(blob, Be(blob[2]) / 4, Encode(b));
  }
}
