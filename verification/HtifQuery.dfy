/** Finding the host interface (spike_interface/spike_htif.c, lines 22-58): the other client of the scanner. */
module HtifQuery {
  import opened Words
  import opened Wrappers
  import opened FdtFormat
  import opened FdtVisit
  import opened FdtCells
  import opened FdtScanner
  import opened FdtTrace
  import opened MemoryQuery

  /** `struct htif_scan`, with the global `htif`. */
  datatype Compat = Compat(compat: bool, htif: bool)

  predicate SaysHtif(p: PropVal) {
    p.name == "compatible" && TextOf(p) == "ucb,htif0"
  }

  lemma SaysHtifIff(p: PropVal)
    ensures SaysHtif(p) <==> p.name == "compatible" && "ucb,htif0\0" <= Chars(p.value)
  {
    hide TextOf;
    ReadsAs(p, "ucb,htif0");
    assert "ucb,htif0" + "\0" == "ucb,htif0\0";
    BeginsIn(p, "ucb,htif0\0");
  }

  function HtifCallbacks(): Callbacks<Compat> {
    Callbacks(
      Some((v: View, s: Compat) => Compat(false, s.htif)),
      (v: View, p: PropVal, s: Compat) => if SaysHtif(p) then Compat(true, s.htif) else s,
      Some((v: View, s: Compat) => if s.compat then Compat(true, true) else s),
      None)
  }

  predicate IsHtif(ps: seq<PropVal>) {
    exists i :: 0 <= i < |ps| && SaysHtif(ps[i])
  }

  /** Some node, at any depth, is compatible with "ucb,htif0" by the first string of a `compatible` property. */
  predicate HasHtif(f: Forest) {
    match f
    case Nil => false
    case Cons(t, rest) => IsHtif(t.props) || HasHtif(t.kids) || HasHtif(rest)
  }

  lemma HtifSteps(v: View, s: Compat)
    requires v.View?
    ensures Open(HtifCallbacks(), v, s) == Compat(false, s.htif)
    ensures DoneProps(HtifCallbacks(), v, s) == Compat(s.compat, s.compat || s.htif)
    ensures Close(HtifCallbacks(), v, s).0 == s
  {
  }

  lemma {:induction false} CompatOfProps(v: View, ps: seq<PropVal>, s: Compat)
    ensures VisitProps(HtifCallbacks(), v, ps, s).1 == Compat(s.compat || IsHtif(ps), s.htif)
    decreases |ps|
  {
    hide TextOf;
    if ps != [] {
      var p, rest := ps[0], ps[1..];
      CompatOfProps(SetCells(v, p), rest, if SaysHtif(p) then Compat(true, s.htif) else s);
      assert IsHtif(ps) <==> SaysHtif(p) || IsHtif(rest) by {
        assert forall i :: 0 <= i < |rest| ==> rest[i] == ps[i + 1];
        if IsHtif(rest) {
          var i :| 0 <= i < |rest| && SaysHtif(rest[i]);
          assert SaysHtif(ps[i + 1]);
        }
      }
    }
  }

  /** One record is enough: `htif` ends up set exactly when it was set or some node is compatible. */
  lemma {:induction false} HtifFound(v: View, earlier: seq<PropVal>, f: Forest, s: Compat)
    ensures VisitKids(HtifCallbacks(), v, AddressCount(earlier), SizeCount(earlier), f, s).0.htif
            == (s.htif || HasHtif(f))
    decreases f
  {
    hide VisitProps, AddressCount, SizeCount, IsHtif, HtifCallbacks, Open, DoneProps, Close;
    match f
    case Nil =>
    case Cons(t, rest) =>
      var child := View(v, t.name, AddressCount(earlier), SizeCount(earlier));
      var settled := Settled(v, t.name, earlier, t.props);
      VisitFirst(HtifCallbacks(), v, earlier, t, rest, s);
      HtifSteps(child, s);
      CompatOfProps(child, t.props, Compat(false, s.htif));
      var s1 := Compat(IsHtif(t.props), s.htif);
      HtifSteps(settled, s1);
      var s2 := Compat(s1.compat, s1.compat || s1.htif);
      NoCounts();
      HtifFound(settled, [], t.kids, s2);
      var s3 := VisitKids(HtifCallbacks(), settled, 2, 1, t.kids, s2).0;
      HtifSteps(settled, s3);
      HtifFound(v, earlier + t.props, rest, s3);
  }

  lemma HtifResult(blob: seq<Word>, htif0: bool, b: Body)
    requires LaysOut(blob, b) && NoProps(b)
    ensures var kids := Kids(b, StringsBlock(blob));
            var r := VisitContent(HtifCallbacks(), Null, Props(b, StringsBlock(blob)), kids, Compat(false, htif0));
            && (r.s.htif <==> htif0 || HasHtif(kids))
            && |Encode(Blank(b, r.marks))| == |Encode(b)|
            && Overwrite(blob, Be(blob[2]) / 4, Encode(Blank(b, r.marks))) == blob
  {
    hide VisitKids, VisitContent, Encode, Blank, HasHtif, Kids, Props, WellFormed, Overwrite;
    ReadOnlyScan(HtifCallbacks(), blob, b, Compat(false, htif0));
    NoCounts();
    HtifFound(Null, [], Kids(b, StringsBlock(blob)), Compat(false, htif0));
  }

  /** `query_htif`. */
  method QueryHtif(blob: array<Word>, htif0: bool, ghost b: Body) returns (htif: bool)
    requires blob.Length >= 10
    requires Understood(blob[..]) ==> LaysOut(blob[..], b) && NoProps(b)
    modifies blob
    ensures blob[..] == old(blob[..])
    ensures htif <==> htif0 || (Understood(blob[..]) && HasHtif(Kids(b, StringsBlock(blob[..]))))
  {
    hide *;
    ghost var blob0 := blob[..];
    if Understood(blob0) {
      HtifResult(blob0, htif0, b);
    }
    var scan := FdtScan(blob, HtifCallbacks(), Compat(false, htif0), b);
    return scan.htif;
  }
}
