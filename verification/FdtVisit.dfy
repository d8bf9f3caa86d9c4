/** What a scan means: a traversal of the abstract tree that runs the callbacks. */
module FdtVisit {
  import opened Words
  import opened Wrappers
  import opened FdtFormat

  /** A `struct fdt_scan_node` as a callback sees it, with everything its parent pointers reach. */
  datatype View = Null | View(parent: View, name: string, addressCells: int, sizeCells: int)

  /** `struct fdt_cb`: the record that `extra` points to is a state of type S. A null pointer is None. */
  datatype Callbacks<!S> = Callbacks(
    open: Option<(View, S) -> S>,
    prop: (View, PropVal, S) -> S,
    done: Option<(View, S) -> S>,
    close: Option<(View, S) -> (S, bool)>)

  function Open<S>(cb: Callbacks<S>, v: View, s: S): S {
    if cb.open.Some? then cb.open.value(v, s) else s
  }

  /** The scanner never reports a null node as done. */
  function DoneProps<S>(cb: Callbacks<S>, v: View, s: S): S {
    if v.View? && cb.done.Some? then cb.done.value(v, s) else s
  }

  /** The new state, and whether the node is to be deleted (a result of -1). */
  function Close<S>(cb: Callbacks<S>, v: View, s: S): (S, bool) {
    if cb.close.Some? then cb.close.value(v, s) else (s, false)
  }

  /** A node's cell counts after one of its properties. */
  function SetCells(v: View, p: PropVal): View {
    if v.Null? || |p.value| == 0 then v
    else if p.name == "#address-cells" then v.(addressCells := ToInt32(Be(p.value[0])))
    else if p.name == "#size-cells" then v.(sizeCells := ToInt32(Be(p.value[0])))
    else v
  }

  function VisitProps<S>(cb: Callbacks<S>, v: View, ps: seq<PropVal>, s: S): (View, S)
    decreases |ps|
  {
    if ps == [] then (v, s)
    else
      var v' := SetCells(v, ps[0]);
      VisitProps(cb, v', ps[1..], cb.prop(v', ps[0], s))
  }

  datatype Visited<S> = Visited(node: View, s: S, marks: Marks)

  /** A node's properties, then `done`, then its sub-nodes. `marks` says which sub-nodes were deleted. */
  function VisitContent<S>(cb: Callbacks<S>, v: View, ps: seq<PropVal>, kids: Forest, s: S): Visited<S>
    decreases kids, 1
  {
    var (v', s') := VisitProps(cb, v, ps, s);
    var (s'', marks) := VisitKids(cb, v', 2, 1, kids, DoneProps(cb, v', s'));
    Visited(v', s'', marks)
  }

  /** Siblings, left to right. The cell counts pass from each sibling to the next. */
  function VisitKids<S>(cb: Callbacks<S>, v: View, addressCells: int, sizeCells: int, f: Forest, s: S): (S, Marks)
    decreases f, 0
  {
    match f
    case Nil => (s, Unmarked)
    case Cons(t, rest) =>
      var child := View(v, t.name, addressCells, sizeCells);
      var inner := VisitContent(cb, child, t.props, t.kids, Open(cb, child, s));
      var (s', gone) := Close(cb, inner.node, inner.s);
      var (s'', next) := VisitKids(cb, v, CellsOf(inner.node).0, CellsOf(inner.node).1, rest, s');
      (s'', Mark(gone, inner.marks, next))
  }

  function CellsOf(v: View): (int, int) {
    if v.Null? then (2, 1) else (v.addressCells, v.sizeCells)
  }
}
