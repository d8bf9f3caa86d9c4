/** Finding the memory (spike_interface/spike_memory.c): a client of the scanner with one record for all nodes. */
module MemoryQuery {
  import opened Words
  import opened Wrappers
  import opened CText
  import opened FdtFormat
  import opened FdtVisit
  import opened FdtCells
  import opened FdtScanner
  import opened FdtTrace

  /** `struct mem_scan`, with `g_mem_size`. `failed` stands for a tripped assertion, a missing parent, or a loop that
      cannot end. */
  datatype Scan = Scan(memory: bool, reg: Option<PropVal>, memSize: u64, failed: bool)

  /** The text a value holds, as `strcmp` reads it. */
  function TextOf(p: PropVal): string {
    CStr(Chars(p.value) + "\0")
  }

  /** A comparison that runs off the end of a value stops at the zero top byte of the next token. */
  lemma TextStopsAtNextToken(value: seq<Word>, t: byte, rest: seq<Word>)
    ensures CStr(Chars(value + [Token(t)] + rest)) == CStr(Chars(value) + "\0")
  {
    var a, b := Chars(value + [Token(t)] + rest), Chars(value) + "\0";
    var k := 4 * |value|;
    assert a[..k] == Chars(value) == b[..k];
    assert a[k] == b[k] == '\0';
    var n := NulIndex(b);
    NulIndexUnique(a, n);
    assert CStr(a) == a[..k][..n];
  }

  /** A value reads as a text exactly when it begins with that text and a NUL, or ends with the text. */
  lemma ReadsAs(p: PropVal, t: string)
    ensures TextOf(p) == t <==> '\0' !in t && t + "\0" <= Chars(p.value) + "\0"
  {
    var s := Chars(p.value) + "\0";
    assert s[|s| - 1] == '\0';
    if '\0' !in t && t + "\0" <= s {
      assert forall k :: 0 <= k <= |t| ==> s[k] == (t + "\0")[k];
      NulIndexUnique(s, |t|);
    }
  }

  lemma SaysMemoryIff(p: PropVal)
    ensures SaysMemory(p) <==> p.name == "device_type" && "memory\0" <= Chars(p.value)
  {
    hide TextOf;
    ReadsAs(p, "memory");
    assert "memory" + "\0" == "memory\0";
    BeginsIn(p, "memory\0");
  }

  /** A text of a length that is no whole number of words and one lies in the words or not at all. */
  lemma BeginsIn(p: PropVal, t: string)
    requires |t| % 4 != 1
    ensures t <= Chars(p.value) + "\0" <==> t <= Chars(p.value)
  {
    var s := Chars(p.value);
    if |t| <= |s| {
      assert (s + "\0")[..|t|] == s[..|t|];
    }
  }

  predicate SaysMemory(p: PropVal) {
    p.name == "device_type" && TextOf(p) == "memory"
  }

  function MemOpen(v: View, s: Scan): Scan {
    s.(memory := false, reg := None)
  }

  function MemProp(v: View, p: PropVal, s: Scan): Scan {
    if SaysMemory(p) then s.(memory := true)
    else if p.name == "reg" then s.(reg := Some(p))
    else s
  }

  /** One (base, size) pair of a `reg` value. */
  datatype Entry = Entry(base: u64, size: u64)

  predicate Covers(e: Entry, self: u64) {
    e.base <= self && self <= (e.base + e.size) % TWO64
  }

  ghost predicate Multiple(n: nat, k: nat) {
    exists q: nat :: n == q * k
  }

  /** `k` words go into `n` words a whole number of times. */
  predicate Divides(k: nat, n: nat)
    requires k > 0
  {
    n == 0 || (n >= k && Divides(k, n - k))
  }

  lemma DividesMeaning(k: nat, n: nat)
    requires k > 0
    ensures Divides(k, n) <==> Multiple(n, k)
  {
    if Divides(k, n) {
      var q := Quotient(k, n);
    }
    forall q: nat | n == q * k
      ensures Divides(k, n)
    {
      MultipleDivides(k, q);
    }
  }

  lemma Quotient(k: nat, n: nat) returns (q: nat)
    requires k > 0 && Divides(k, n)
    ensures n == q * k
  {
    if n == 0 {
      q := 0;
    } else {
      var q' := Quotient(k, n - k);
      q := q' + 1;
    }
  }

  lemma MultipleDivides(k: nat, q: nat)
    requires k > 0
    ensures Divides(k, q * k)
  {
    if q > 0 {
      MultipleDivides(k, q - 1);
      assert q * k == (q - 1) * k + k;
    }
  }

  /** The words of a `reg` value, grouped by the parent's cell counts. */
  function Entries(ws: seq<Word>, ac: nat, sc: nat): seq<Entry>
    requires ac + sc > 0
    decreases |ws|
  {
    if |ws| < ac + sc then []
    else [Entry(Value(ws[..ac]) % TWO64, Value(ws[ac..ac + sc]) % TWO64)] + Entries(ws[ac + sc..], ac, sc)
  }

  /** The size of the last entry that covers `self`, or `otherwise`. */
  function LastCover(es: seq<Entry>, self: u64, otherwise: u64): u64 {
    if es == [] then otherwise
    else if Covers(es[|es| - 1], self) then es[|es| - 1].size
    else LastCover(es[..|es| - 1], self, otherwise)
  }

  /** `self` lies in an entry's range, whose end is taken modulo 2^64. */
  predicate Around(base: u64, size: u64, self: u64) {
    base <= self <= (base + size) % 0x1_0000_0000_0000_0000
  }

  /** The last entry around `self` decides. */
  lemma {:induction false} LastCoverIs(es: seq<Entry>, self: u64, otherwise: u64, i: nat)
    requires i < |es| && Around(es[i].base, es[i].size, self)
    requires forall j :: i < j < |es| ==> !Around(es[j].base, es[j].size, self)
    ensures LastCover(es, self, otherwise) == es[i].size
    decreases |es|
  {
    CoversIff(es[|es| - 1], self);
    hide Around, Covers;
    if i < |es| - 1 {
      LastCoverIs(es[..|es| - 1], self, otherwise, i);
    }
  }

  lemma {:induction false} LastCoverNone(es: seq<Entry>, self: u64, otherwise: u64)
    requires forall j :: 0 <= j < |es| ==> !Around(es[j].base, es[j].size, self)
    ensures LastCover(es, self, otherwise) == otherwise
    decreases |es|
  {
    hide Around, Covers;
    if es != [] {
      CoversIff(es[|es| - 1], self);
      LastCoverNone(es[..|es| - 1], self, otherwise);
    }
  }

  lemma CoversIff(e: Entry, self: u64)
    ensures Covers(e, self) <==> Around(e.base, e.size, self)
  {
  }

  lemma OneMore(i: nat, k: nat)
    requires i > 0
    ensures i * k == (i - 1) * k + k && (i - 1) * k >= 0
  {
  }

  /** The i-th entry: the next `ac` cells are its base and the `sc` after them its size. */
  lemma {:induction false} EntryAt(ws: seq<Word>, ac: nat, sc: nat, i: nat, at: nat)
    requires ac + sc > 0 && at == i * (ac + sc) && at + ac + sc <= |ws|
    ensures i < |Entries(ws, ac, sc)|
    ensures Entries(ws, ac, sc)[i]
            == Entry(Value(ws[at..at + ac]) % 0x1_0000_0000_0000_0000,
                     Value(ws[at + ac..at + ac + sc]) % 0x1_0000_0000_0000_0000)
    decreases i
  {
    hide Value;
    if i > 0 {
      OneMore(i, ac + sc);
      var rest, at' := ws[ac + sc..], at - ac - sc;
      EntryAt(rest, ac, sc, i - 1, at');
      assert rest[at'..at' + ac] == ws[at..at + ac];
      assert rest[at' + ac..at' + ac + sc] == ws[at + ac..at + ac + sc];
    }
  }

  lemma {:induction false} EntryCount(ws: seq<Word>, ac: nat, sc: nat, q: nat)
    requires ac + sc > 0 && |ws| == q * (ac + sc)
    ensures |Entries(ws, ac, sc)| == q
    decreases q
  {
    if q > 0 {
      OneMore(q, ac + sc);
      EntryCount(ws[ac + sc..], ac, sc, q - 1);
    }
  }

  lemma LastCoverAppend(es: seq<Entry>, fs: seq<Entry>, self: u64, otherwise: u64)
    ensures LastCover(es + fs, self, otherwise) == LastCover(fs, self, LastCover(es, self, otherwise))
  {
    if fs == [] {
      assert es + fs == es;
    } else {
      assert (es + fs)[..|es + fs| - 1] == es + fs[..|fs| - 1];
      LastCoverAppend(es, fs[..|fs| - 1], self, otherwise);
    }
  }

  /** What `mem_done` needs of a memory node's `reg`: whole words and, unless there are none, a parent whose cell
      counts divide them into whole entries. */
  predicate Sized(parent: View, p: PropVal) {
    && p.len % 4 == 0
    && |p.value| == p.len / 4
    && (p.value == []
        || (parent.View?
            && Count(parent.addressCells) + Count(parent.sizeCells) > 0
            && Divides(Count(parent.addressCells) + Count(parent.sizeCells), |p.value|)))
  }

  function EntriesOf(parent: View, p: PropVal): seq<Entry>
    requires Sized(parent, p)
  {
    if p.value == [] then [] else Entries(p.value, Count(parent.addressCells), Count(parent.sizeCells))
  }

  function MemDone(self: u64, v: View, s: Scan): Scan {
    if !s.memory then s
    else if v.View? && s.reg.Some? && Sized(v.parent, s.reg.value) then
      s.(memSize := LastCover(EntriesOf(v.parent, s.reg.value), self, s.memSize))
    else s.(failed := true)
  }

  /** The loop of `mem_done`. It ends, it ends on `end` exactly when the words divide into whole entries, and then
      it leaves the size of the last covering entry. Otherwise words past `end` are there to be overread. */
  method DecodeReg(mem: array<Word>, start: nat, end: nat, addressCells: int, sizeCells: int, self: u64, size0: u64)
    returns (memSize: u64, value: nat)
    requires start <= end
    requires Count(addressCells) + Count(sizeCells) > 0
    requires end <= mem.Length
    requires Divides(Count(addressCells) + Count(sizeCells), end - start)
             || end + Count(addressCells) + Count(sizeCells) <= mem.Length
    ensures value == end <==> Multiple(end - start, Count(addressCells) + Count(sizeCells))
    ensures value == end ==>
              memSize == LastCover(Entries(mem[start..end], Count(addressCells), Count(sizeCells)), self, size0)
  {
    hide Value, Entries, LastCover, Divides, Multiple;
    var ac, sc := Count(addressCells), Count(sizeCells);
    memSize, value := size0, start;
    ghost var whole := Divides(ac + sc, end - start);
    ghost var goal := LastCover(Entries(mem[start..end], ac, sc), self, size0);
    while value < end
      invariant start <= value < end + ac + sc
      invariant value <= end ==> (Divides(ac + sc, end - value) <==> whole)
      invariant value > end ==> !whole
      invariant value <= end ==> LastCover(Entries(mem[value..end], ac, sc), self, memSize) == goal
      decreases end + ac + sc - value
    {
      ghost var here := value;
      DividesStep(ac + sc, end - here);
      var base, size;
      base, value := GetCells(mem, value, addressCells);
      size, value := GetCells(mem, value, sizeCells);
      if value <= end {
        Parts(mem[..], here, end, ac, sc);
        FirstEntry(mem[here..end], ac, sc, self, memSize);
      }
      if base <= self && self <= (base + size) % TWO64 {
        memSize := size;
      }
    }
    DividesMeaning(ac + sc, end - start);
    if value <= end {
      DividesStep(ac + sc, end - value);
    }
    if value == end {
      NoEntries(mem[value..end], ac, sc, self, memSize);
    }
  }

  /** `mem_done` on the words in memory: it does what the visit of the abstract tree takes it to do, and it fails
      exactly where a value is not well-sized, because the loop misses `end` or cannot run. */
  method MemDoneInPlace(mem: array<Word>, start: nat, self: u64, v: View, s: Scan) returns (s': Scan)
    requires v.View?
    requires s.reg.Some? ==>
               && |s.reg.value.value| == ValueWords(s.reg.value.len)
               && Holds(mem[..], start, s.reg.value.value)
               && (Sized(v.parent, s.reg.value) || RoomFor(mem, start, v.parent, s.reg.value))
    ensures s' == MemDone(self, v, s)
    ensures s'.failed <==> s.failed || (s.memory && (s.reg.None? || !Sized(v.parent, s.reg.value)))
  {
    hide Entries, LastCover, Value;
    if !s.memory {
      return s;
    }
    if s.reg.None? || s.reg.value.len % 4 != 0 {
      return s.(failed := true);
    }
    var end := start + s.reg.value.len / 4;
    if start == end {
      NothingCovers(self, s.memSize);
      return s;
    }
    if v.parent.Null? || Count(v.parent.addressCells) + Count(v.parent.sizeCells) == 0 {
      return s.(failed := true);
    }
    DividesMeaning(Count(v.parent.addressCells) + Count(v.parent.sizeCells), end - start);
    var memSize, value := DecodeReg(mem, start, end, v.parent.addressCells, v.parent.sizeCells, self, s.memSize);
    if value != end {
      return s.(failed := true);
    }
    return s.(memSize := memSize);
  }

  /** The loop may read past the end of a value that is not made of whole entries. */
  predicate RoomFor(mem: array<Word>, start: nat, parent: View, p: PropVal) {
    parent.View? ==>
      start + |p.value| + Count(parent.addressCells) + Count(parent.sizeCells) <= mem.Length
  }

  lemma NothingCovers(self: u64, otherwise: u64)
    ensures LastCover([], self, otherwise) == otherwise
  {
  }

  lemma DividesStep(k: nat, n: nat)
    requires k > 0
    ensures n >= k ==> (Divides(k, n) <==> Divides(k, n - k))
    ensures n < k ==> (Divides(k, n) <==> n == 0)
  {
  }

  lemma Parts(m: seq<Word>, from: nat, to: nat, ac: nat, sc: nat)
    requires from + ac + sc <= to <= |m|
    ensures m[from..to][..ac] == m[from..from + ac]
    ensures m[from..to][ac..ac + sc] == m[from + ac..from + ac + sc]
    ensures m[from..to][ac + sc..] == m[from + ac + sc..to]
  {
  }

  lemma NoEntries(ws: seq<Word>, ac: nat, sc: nat, self: u64, otherwise: u64)
    requires ac + sc > 0 && ws == []
    ensures LastCover(Entries(ws, ac, sc), self, otherwise) == otherwise
  {
  }

  lemma FirstEntry(ws: seq<Word>, ac: nat, sc: nat, self: u64, otherwise: u64)
    requires 0 < ac + sc <= |ws|
    ensures var e := Entry(Value(ws[..ac]) % TWO64, Value(ws[ac..ac + sc]) % TWO64);
            LastCover(Entries(ws, ac, sc), self, otherwise)
            == LastCover(Entries(ws[ac + sc..], ac, sc), self, if Covers(e, self) then e.size else otherwise)
  {
    hide Value;
    var e := Entry(Value(ws[..ac]) % TWO64, Value(ws[ac..ac + sc]) % TWO64);
    LastCoverAppend([e], Entries(ws[ac + sc..], ac, sc), self, otherwise);
    assert [e][..0] == [];
  }

  // ---- the query ----

  function MemCallbacks(self: u64): Callbacks<Scan> {
    Callbacks(Some(MemOpen), MemProp, Some((v, s) => MemDone(self, v, s)), None)
  }

  predicate IsMemory(ps: seq<PropVal>) {
    exists i :: 0 <= i < |ps| && SaysMemory(ps[i])
  }

  function LastReg(ps: seq<PropVal>): Option<PropVal> {
    if ps == [] then None
    else if ps[|ps| - 1].name == "reg" then Some(ps[|ps| - 1])
    else LastReg(ps[..|ps| - 1])
  }

  lemma {:induction false} LastRegMeans(ps: seq<PropVal>, i: nat)
    requires i < |ps| && ps[i].name == "reg" && forall j :: i < j < |ps| ==> ps[j].name != "reg"
    ensures LastReg(ps) == Some(ps[i])
    decreases |ps|
  {
    if i < |ps| - 1 {
      LastRegMeans(ps[..|ps| - 1], i);
    }
  }

  /** Well-sized, in the fields: whole words, and as many as some number of entries has. */
  lemma SizedIff(parent: View, p: PropVal)
    requires parent.View? && parent.addressCells >= 0 && parent.sizeCells >= 0
    requires parent.addressCells + parent.sizeCells > 0
    ensures Sized(parent, p) <==>
            p.len % 4 == 0 && |p.value| == p.len / 4 && Multiple(|p.value|, parent.addressCells + parent.sizeCells)
  {
    DividesMeaning(parent.addressCells + parent.sizeCells, |p.value|);
  }

  predicate WellSized(parent: View, ps: seq<PropVal>) {
    IsMemory(ps) ==> LastReg(ps).Some? && Sized(parent, LastReg(ps).value)
  }

  /** The entries of a memory node's last `reg`. */
  function NodeEntries(parent: View, ps: seq<PropVal>): seq<Entry> {
    if IsMemory(ps) && WellSized(parent, ps) then EntriesOf(parent, LastReg(ps).value) else []
  }

  /** All the entries of a forest in pre-order, each read with its parent's cell counts. */
  function AllEntries(parent: View, earlier: seq<PropVal>, f: Forest): seq<Entry>
    decreases f
  {
    match f
    case Nil => []
    case Cons(t, rest) =>
      NodeEntries(parent, t.props)
      + AllEntries(Settled(parent, t.name, earlier, t.props), [], t.kids)
      + AllEntries(parent, earlier + t.props, rest)
  }

  predicate AllWellSized(parent: View, earlier: seq<PropVal>, f: Forest)
    decreases f
  {
    match f
    case Nil => true
    case Cons(t, rest) =>
      && WellSized(parent, t.props)
      && AllWellSized(Settled(parent, t.name, earlier, t.props), [], t.kids)
      && AllWellSized(parent, earlier + t.props, rest)
  }

  /** What the record holds once a node's properties are seen. */
  lemma {:induction false} RecordOfProps(self: u64, v: View, ps: seq<PropVal>, s: Scan)
    ensures var s' := VisitProps(MemCallbacks(self), v, ps, s).1;
            && s'.memory == (s.memory || IsMemory(ps))
            && s'.reg == (if LastReg(ps).Some? then LastReg(ps) else s.reg)
            && s'.memSize == s.memSize && s'.failed == s.failed
    decreases |ps|
  {
    hide TextOf;
    if ps != [] {
      var p, rest := ps[0], ps[1..];
      RecordOfProps(self, SetCells(v, p), rest, MemProp(SetCells(v, p), p, s));
      LastRegCons(ps);
      assert IsMemory(ps) <==> SaysMemory(p) || IsMemory(rest) by {
        assert forall i :: 0 <= i < |rest| ==> rest[i] == ps[i + 1];
        if IsMemory(rest) {
          var i :| 0 <= i < |rest| && SaysMemory(rest[i]);
          assert SaysMemory(ps[i + 1]);
        }
      }
    }
  }

  lemma LastRegCons(ps: seq<PropVal>)
    requires ps != []
    ensures LastReg(ps) == if LastReg(ps[1..]).Some? then LastReg(ps[1..])
                           else if ps[0].name == "reg" then Some(ps[0]) else None
  {
    if |ps| > 1 {
      LastRegCons(ps[..|ps| - 1]);
      assert ps[..|ps| - 1][1..] == ps[1..][..|ps| - 2];
    }
  }

  /** One mutable record is enough: since `done` comes before any child's `open`, the scan finds the size of the
      last entry in pre-order that covers `self`, and fails exactly when some memory node is not well-sized. */
  lemma {:induction false} RecordSuffices(self: u64, v: View, earlier: seq<PropVal>, f: Forest, s: Scan)
    ensures var s' := VisitKids(MemCallbacks(self), v, AddressCount(earlier), SizeCount(earlier), f, s).0;
            && s'.memSize == LastCover(AllEntries(v, earlier, f), self, s.memSize)
            && s'.failed == (s.failed || !AllWellSized(v, earlier, f))
    decreases f
  {
    hide VisitProps, AddressCount, SizeCount, IsMemory, LastReg, EntriesOf, Sized, MemCallbacks, Open, DoneProps, Close;
    match f
    case Nil =>
    case Cons(t, rest) =>
      var child := View(v, t.name, AddressCount(earlier), SizeCount(earlier));
      var settled := Settled(v, t.name, earlier, t.props);
      VisitFirst(MemCallbacks(self), v, earlier, t, rest, s);
      MemSteps(self, child, s);
      RecordOfProps(self, child, t.props, MemOpen(child, s));
      var s1 := VisitProps(MemCallbacks(self), child, t.props, MemOpen(child, s)).1;
      MemSteps(self, settled, s1);
      var s2 := MemDone(self, settled, s1);
      var own := NodeEntries(v, t.props);
      assert s2.memSize == LastCover(own, self, s.memSize);
      assert s2.failed == (s.failed || !WellSized(v, t.props));
      NoCounts();
      RecordSuffices(self, settled, [], t.kids, s2);
      var s3 := VisitKids(MemCallbacks(self), settled, 2, 1, t.kids, s2).0;
      MemSteps(self, settled, s3);
      RecordSuffices(self, v, earlier + t.props, rest, s3);
      var below, after := AllEntries(settled, [], t.kids), AllEntries(v, earlier + t.props, rest);
      LastCoverAppend(own + below, after, self, s.memSize);
      LastCoverAppend(own, below, self, s.memSize);
  }

  lemma MemSteps(self: u64, v: View, s: Scan)
    requires v.View?
    ensures Open(MemCallbacks(self), v, s) == MemOpen(v, s)
    ensures DoneProps(MemCallbacks(self), v, s) == MemDone(self, v, s)
    ensures Close(MemCallbacks(self), v, s).0 == s
  {
  }

  lemma ScanResult(blob: seq<Word>, self: u64, b: Body)
    requires LaysOut(blob, b) && NoProps(b)
    ensures var kids := Kids(b, StringsBlock(blob));
            var r := VisitContent(MemCallbacks(self), Null, Props(b, StringsBlock(blob)), kids, Scan(false, None, 0, false));
            && r.s.memSize == LastCover(AllEntries(Null, [], kids), self, 0)
            && (r.s.failed <==> !AllWellSized(Null, [], kids))
            && |Encode(Blank(b, r.marks))| == |Encode(b)|
            && Overwrite(blob, Be(blob[2]) / 4, Encode(Blank(b, r.marks))) == blob
  {
    hide VisitKids, VisitContent, Encode, Blank, AllEntries, AllWellSized, Kids, Props, WellFormed, Overwrite;
    ReadOnlyScan(MemCallbacks(self), blob, b, Scan(false, None, 0, false));
    NoCounts();
    RecordSuffices(self, Null, [], Kids(b, StringsBlock(blob)), Scan(false, None, 0, false));
  }

  /** `query_mem`, up to its final assertion that a size was found. */
  method QueryMem(blob: array<Word>, self: u64, ghost b: Body) returns (memSize: u64, failed: bool)
    requires blob.Length >= 10
    requires Understood(blob[..]) ==> LaysOut(blob[..], b) && NoProps(b)
    modifies blob
    ensures blob[..] == old(blob[..])
    ensures Understood(blob[..]) ==>
              var kids := Kids(b, StringsBlock(blob[..]));
              && memSize == LastCover(AllEntries(Null, [], kids), self, 0)
              && (failed <==> !AllWellSized(Null, [], kids))
    ensures !Understood(blob[..]) ==> memSize == 0 && !failed
  {
    hide *;
    ghost var blob0 := blob[..];
    if Understood(blob0) {
      ScanResult(blob0, self, b);
    }
    var scan := FdtScan(blob, MemCallbacks(self), Scan(false, None, 0, false), b);
    return scan.memSize, scan.failed;
  }
}
