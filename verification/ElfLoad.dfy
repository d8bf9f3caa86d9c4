/** Loading segments (kernel/elf.c, lines 56-94): which bytes of memory an executable decides. */
module ElfLoad {
  import opened Words
  import opened ElfFile

  datatype Status = Ok | Eio | NotElf | Err

  /** `elf_init`. */
  method ElfInit(f: File) returns (status: Status, ehdr: Ehdr)
    ensures status == Ok <==> |f| >= EHDR_SIZE && EhdrOf(f[..EHDR_SIZE]).magic == ELF_MAGIC
    ensures status == Ok ==> ehdr == EhdrOf(f[..EHDR_SIZE])
    ensures status == Eio <==> |f| < EHDR_SIZE
    ensures status in {Ok, Eio, NotElf}
  {
    var bs := Pread(f, EHDR_SIZE, 0);
    if |bs| != EHDR_SIZE {
      return Eio, Ehdr(0, 0, 0, 0, 0, 0);
    }
    ehdr := EhdrOf(bs);
    if ehdr.magic != ELF_MAGIC {
      return NotElf, ehdr;
    }
    return Ok, ehdr;
  }

  /** The byte at each address. */
  type Image = int -> byte

  /** An image with some bytes laid over it. */
  function Overlay(mem: Image, base: nat, bytes: seq<byte>): Image {
    (a: int) => if base <= a < base + |bytes| then bytes[a - base] else mem(a)
  }

  predicate HeaderReadable(f: File, ehdr: Ehdr, i: nat) {
    ehdr.phoff + PHDR_SIZE * (i + 1) <= |f|
  }

  function HeaderAt(f: File, ehdr: Ehdr, i: nat): Phdr
    requires HeaderReadable(f, ehdr, i)
  {
    var off := ehdr.phoff + PHDR_SIZE * i;
    PhdrOf(f[off..off + PHDR_SIZE])
  }

  /** The loader's own check of a segment: no smaller in memory than in the file, and not past the address space. */
  predicate Sane(ph: Phdr) {
    ph.memsz >= ph.filesz && ph.vaddr + ph.memsz < TWO64
  }

  /** What loading the headers from `i` on makes of memory. */
  function LoadFrom(f: File, ehdr: Ehdr, i: nat, mem: Image): (Status, Image)
    decreases ehdr.phnum - i
  {
    if i >= ehdr.phnum then (Ok, mem)
    else if !HeaderReadable(f, ehdr, i) then (Eio, mem)
    else
      var ph := HeaderAt(f, ehdr, i);
      if ph.kind != PT_LOAD then LoadFrom(f, ehdr, i + 1, mem)
      else if !Sane(ph) then (Err, mem)
      else
        var bytes := Pread(f, ph.memsz, ph.off);
        if |bytes| != ph.memsz then (Eio, Overlay(mem, ph.vaddr, bytes))
        else LoadFrom(f, ehdr, i + 1, Overlay(mem, ph.vaddr, bytes))
  }

  /** Physical memory, written in place. */
  class Memory {
    var bytes: Image

    constructor (init: Image)
      ensures bytes == init
    {
      bytes := init;
    }

    /** `spike_file_pread` into memory. */
    method ReadInto(f: File, dest: nat, nb: nat, offset: nat) returns (n: nat)
      modifies this
      ensures n == |Pread(f, nb, offset)|
      ensures bytes == Overlay(old(bytes), dest, Pread(f, nb, offset))
    {
      var data := Pread(f, nb, offset);
      bytes := Overlay(bytes, dest, data);
      return |data|;
    }
  }

  /** A file offset that passes through an `int`. */
  function Narrowed(off: u64): u64 {
    ToInt32(off % TWO32) % TWO64
  }

  /** The headers are looked for where the ELF header says exactly when their offset fits an `int`, or is within 2^31
      of the end of the address space. */
  lemma NarrowedIff(off: u64)
    ensures Narrowed(off) == off <==> off < TWO31 || off >= TWO64 - TWO31
  {
    if off >= TWO64 - TWO31 {
      assert off % TWO32 == off - (TWO64 - TWO32);
    } else if off < TWO32 {
      assert off % TWO32 == off;
    } else {
      assert off % TWO32 < TWO32 <= off < TWO64 - TWO31;
    }
  }

  /** `elf_load`. The header offset is kept in an `int`, which is not to overflow. */
  method ElfLoadInto(m: Memory, f: File, ehdr: Ehdr) returns (status: Status)
    requires ToInt32(ehdr.phoff % TWO32) + PHDR_SIZE * ehdr.phnum < TWO31
    requires |f| < TWO63
    modifies m
    ensures (status, m.bytes) == LoadFrom(f, ehdr.(phoff := Narrowed(ehdr.phoff)), 0, old(m.bytes))
    ensures ehdr.phoff < TWO31 ==> (status, m.bytes) == LoadFrom(f, ehdr, 0, old(m.bytes))
  {
    hide PhdrOf, Pread, Overlay;
    NarrowedIff(ehdr.phoff);
    ghost var e := ehdr.(phoff := Narrowed(ehdr.phoff));
    ghost var goal := LoadFrom(f, e, 0, m.bytes);
    var i, off := 0, ToInt32(ehdr.phoff % TWO32);
    while i < ehdr.phnum
      invariant i <= ehdr.phnum && off == ToInt32(ehdr.phoff % TWO32) + PHDR_SIZE * i
      invariant i > 0 ==> off == e.phoff + PHDR_SIZE * i
      invariant LoadFrom(f, e, i, m.bytes) == goal
    {
      var bs := Pread(f, PHDR_SIZE, off % TWO64);
      if |bs| != PHDR_SIZE {
        return Eio;
      }
      var ph := PhdrOf(bs);
      if ph.kind == PT_LOAD {
        if ph.memsz < ph.filesz {
          return Err;
        }
        if (ph.vaddr + ph.memsz) % TWO64 < ph.vaddr {
          WrapsIff(ph);
          return Err;
        }
        WrapsIff(ph);
        var dest := ph.vaddr;
        var n := m.ReadInto(f, dest, ph.memsz, ph.off);
        if n != ph.memsz {
          return Eio;
        }
      }
      i, off := i + 1, off + PHDR_SIZE;
    }
    return Ok;
  }

  /** The unsigned overflow test of the loader. */
  lemma WrapsIff(ph: Phdr)
    ensures (ph.vaddr + ph.memsz) % TWO64 < ph.vaddr <==> ph.vaddr + ph.memsz >= TWO64
  {
  }

  // ---- what the image is ----

  /** A loaded segment: where it goes and its bytes. */
  datatype Segment = Segment(base: nat, bytes: seq<byte>)

  predicate Covers(s: Segment, a: int) {
    s.base <= a < s.base + |s.bytes|
  }

  /** The header is one the loader accepts: readable, and if loadable then sane and wholly in the file. */
  predicate Acceptable(f: File, ehdr: Ehdr, i: nat) {
    && HeaderReadable(f, ehdr, i)
    && var ph := HeaderAt(f, ehdr, i);
       ph.kind == PT_LOAD ==> Sane(ph) && (ph.memsz == 0 || ph.off + ph.memsz <= |f|)
  }

  /** The loadable segments in header order, each with `memsz` bytes of the file. */
  function Segments(f: File, ehdr: Ehdr, i: nat): seq<Segment>
    requires forall j :: i <= j < ehdr.phnum ==> Acceptable(f, ehdr, j)
    decreases ehdr.phnum - i
  {
    if i >= ehdr.phnum then []
    else
      assert Acceptable(f, ehdr, i);
      var ph := HeaderAt(f, ehdr, i);
      (if ph.kind == PT_LOAD then [Segment(ph.vaddr, Pread(f, ph.memsz, ph.off))] else [])
      + Segments(f, ehdr, i + 1)
  }

  function Overlays(mem: Image, segs: seq<Segment>): Image {
    if segs == [] then mem else Overlays(Overlay(mem, segs[0].base, segs[0].bytes), segs[1..])
  }

  /** Loading succeeds exactly when every header is acceptable, and then memory is the initial memory with the
      segments laid over it in header order. */
  lemma {:induction false} LoadIsOverlay(f: File, ehdr: Ehdr, i: nat, mem: Image)
    ensures LoadFrom(f, ehdr, i, mem).0 == Ok <==> forall j :: i <= j < ehdr.phnum ==> Acceptable(f, ehdr, j)
    ensures LoadFrom(f, ehdr, i, mem).0 == Ok ==>
              LoadFrom(f, ehdr, i, mem).1 == Overlays(mem, Segments(f, ehdr, i))
    decreases ehdr.phnum - i
  {
    hide PhdrOf, Overlay;
    if i < ehdr.phnum {
      if Acceptable(f, ehdr, i) {
        var ph := HeaderAt(f, ehdr, i);
        if ph.kind == PT_LOAD {
          var s := Segment(ph.vaddr, Pread(f, ph.memsz, ph.off));
          LoadIsOverlay(f, ehdr, i + 1, Overlay(mem, s.base, s.bytes));
          if forall j :: i <= j < ehdr.phnum ==> Acceptable(f, ehdr, j) {
            assert ([s] + Segments(f, ehdr, i + 1))[1..] == Segments(f, ehdr, i + 1);
          }
        } else {
          LoadIsOverlay(f, ehdr, i + 1, mem);
          if forall j :: i <= j < ehdr.phnum ==> Acceptable(f, ehdr, j) {
            assert [] + Segments(f, ehdr, i + 1) == Segments(f, ehdr, i + 1);
          }
        }
      }
    }
  }

  // ---- what is loaded, told from the headers' fields ----

  /** The program header at index `i`, out of its 56 bytes. */
  function Header(f: File, ehdr: Ehdr, i: nat): Phdr
    requires ehdr.phoff + 56 * i + 56 <= |f|
  {
    PhdrOf(f[ehdr.phoff + 56 * i..ehdr.phoff + 56 * i + 56])
  }

  /** A header that can be read and, if it is of type PT_LOAD (1), describes a segment that is no smaller in memory than
      in the file, ends inside the address space, and has `memsz` bytes in the file. */
  predicate Loadable(f: File, ehdr: Ehdr, i: nat) {
    && ehdr.phoff + 56 * i + 56 <= |f|
    && var ph := Header(f, ehdr, i);
       ph.kind == 1 ==>
         && ph.filesz <= ph.memsz
         && ph.vaddr + ph.memsz < 0x1_0000_0000_0000_0000
         && (ph.memsz == 0 || ph.off + ph.memsz <= |f|)
  }

  /** A load succeeds exactly when all headers are loadable. */
  lemma LoadsIff(f: File, ehdr: Ehdr, mem: Image)
    ensures LoadFrom(f, ehdr, 0, mem).0 == Ok <==> forall i :: 0 <= i < ehdr.phnum ==> Loadable(f, ehdr, i)
  {
    hide PhdrOf;
    LoadIsOverlay(f, ehdr, 0, mem);
    forall i | 0 <= i < ehdr.phnum
      ensures Loadable(f, ehdr, i) <==> Acceptable(f, ehdr, i)
    {
    }
  }

  /** A load fails on the first header that is not loadable: with EL_ERR if its fields contradict each other, and with
      EL_EIO if the file is too short for it. */
  lemma {:induction false} FirstBadDecides(f: File, ehdr: Ehdr, i: nat, mem: Image, n: nat)
    requires i <= n < ehdr.phnum && !Loadable(f, ehdr, n) && forall j :: i <= j < n ==> Loadable(f, ehdr, j)
    ensures LoadFrom(f, ehdr, i, mem).0
            == if ehdr.phoff + 56 * n + 56 <= |f|
                  && (var ph := Header(f, ehdr, n);
                      ph.memsz < ph.filesz || ph.vaddr + ph.memsz >= 0x1_0000_0000_0000_0000)
               then Err else Eio
    decreases n - i
  {
    hide PhdrOf, Overlay;
    if i < n {
      assert Loadable(f, ehdr, i);
      var ph := Header(f, ehdr, i);
      var mem' := if ph.kind == PT_LOAD then Overlay(mem, ph.vaddr, Pread(f, ph.memsz, ph.off)) else mem;
      FirstBadDecides(f, ehdr, i + 1, mem', n);
    }
  }

  ghost predicate AllLoadable(f: File, ehdr: Ehdr) {
    forall i :: 0 <= i < ehdr.phnum ==> Loadable(f, ehdr, i)
  }

  /** The address lies in the segment that header `i` describes. */
  ghost predicate InSegment(f: File, ehdr: Ehdr, i: nat, a: int)
    requires Loadable(f, ehdr, i)
  {
    var ph := Header(f, ehdr, i);
    ph.kind == 1 && ph.vaddr <= a < ph.vaddr + ph.memsz
  }

  /** After a successful load the last segment around an address decides: its byte there is that of the file. */
  lemma {:induction false} LoadedByte(f: File, ehdr: Ehdr, i: nat, mem: Image, a: int, n: nat)
    requires AllLoadable(f, ehdr) && i <= n < ehdr.phnum && InSegment(f, ehdr, n, a)
    requires forall j :: n < j < ehdr.phnum ==> !InSegment(f, ehdr, j, a)
    ensures var ph := Header(f, ehdr, n);
            && 0 <= ph.off + (a - ph.vaddr) < |f|
            && LoadFrom(f, ehdr, i, mem).1(a) == f[ph.off + (a - ph.vaddr)]
    decreases n - i
  {
    hide PhdrOf;
    assert Loadable(f, ehdr, i) && Loadable(f, ehdr, n);
    var ph := Header(f, ehdr, i);
    var mem' := if ph.kind == PT_LOAD then Overlay(mem, ph.vaddr, Pread(f, ph.memsz, ph.off)) else mem;
    if i < n {
      LoadedByte(f, ehdr, i + 1, mem', a, n);
    } else {
      NotLoadedByte(f, ehdr, i + 1, mem', a);
    }
  }

  /** Where no segment lies, memory is as it was. */
  lemma {:induction false} NotLoadedByte(f: File, ehdr: Ehdr, i: nat, mem: Image, a: int)
    requires AllLoadable(f, ehdr) && forall j :: i <= j < ehdr.phnum ==> !InSegment(f, ehdr, j, a)
    ensures LoadFrom(f, ehdr, i, mem).1(a) == mem(a)
    decreases ehdr.phnum - i
  {
    hide PhdrOf;
    if i < ehdr.phnum {
      assert Loadable(f, ehdr, i) && !InSegment(f, ehdr, i, a);
      var ph := Header(f, ehdr, i);
      var mem' := if ph.kind == PT_LOAD then Overlay(mem, ph.vaddr, Pread(f, ph.memsz, ph.off)) else mem;
      NotLoadedByte(f, ehdr, i + 1, mem', a);
    }
  }

  /** The byte at an address: the last segment that covers it decides, and where none does, memory is unchanged. */
  function Decided(mem: Image, segs: seq<Segment>, a: int): byte {
    if segs == [] then mem(a)
    else
      var s := segs[|segs| - 1];
      if Covers(s, a) then s.bytes[a - s.base] else Decided(mem, segs[..|segs| - 1], a)
  }

  lemma {:induction false} DecidedFromFront(mem: Image, segs: seq<Segment>, a: int)
    requires segs != []
    ensures Decided(mem, segs, a) == Decided(Overlay(mem, segs[0].base, segs[0].bytes), segs[1..], a)
    decreases |segs|
  {
    if |segs| > 1 {
      var init := segs[..|segs| - 1];
      DecidedFromFront(mem, init, a);
      assert segs[1..][..|segs| - 2] == init[1..];
    } else {
      assert segs[..0] == [];
    }
  }

  lemma {:induction false} LastSegmentDecides(mem: Image, segs: seq<Segment>, a: int)
    ensures Overlays(mem, segs)(a) == Decided(mem, segs, a)
    decreases |segs|
  {
    if segs != [] {
      DecidedFromFront(mem, segs, a);
      LastSegmentDecides(Overlay(mem, segs[0].base, segs[0].bytes), segs[1..], a);
    }
  }

  ghost predicate Disjoint(segs: seq<Segment>) {
    forall i, j, a :: 0 <= i < j < |segs| && Covers(segs[i], a) ==> !Covers(segs[j], a)
  }

  /** Segments are disjoint if of any two one ends before the other begins. */
  lemma ApartIsDisjoint(segs: seq<Segment>)
    requires forall i, j :: 0 <= i < j < |segs| ==>
               segs[i].base + |segs[i].bytes| <= segs[j].base || segs[j].base + |segs[j].bytes| <= segs[i].base
    ensures Disjoint(segs)
  {
  }

  /** With disjoint segments, each range holds exactly its file bytes and all other memory is unchanged. */
  lemma {:induction false} DisjointSegmentsHold(mem: Image, segs: seq<Segment>, a: int)
    requires Disjoint(segs)
    ensures forall i :: 0 <= i < |segs| && Covers(segs[i], a) ==>
              Overlays(mem, segs)(a) == segs[i].bytes[a - segs[i].base]
    ensures (forall i :: 0 <= i < |segs| ==> !Covers(segs[i], a)) ==> Overlays(mem, segs)(a) == mem(a)
  {
    LastSegmentDecides(mem, segs, a);
    DisjointDecided(mem, segs, a);
  }

  lemma {:induction false} DisjointDecided(mem: Image, segs: seq<Segment>, a: int)
    requires Disjoint(segs)
    ensures forall i :: 0 <= i < |segs| && Covers(segs[i], a) ==>
              Decided(mem, segs, a) == segs[i].bytes[a - segs[i].base]
    ensures (forall i :: 0 <= i < |segs| ==> !Covers(segs[i], a)) ==> Decided(mem, segs, a) == mem(a)
  {
    if segs != [] {
      DisjointDecided(mem, segs[..|segs| - 1], a);
    }
  }

  // ---- the image of chapter 5 of the System V gABI ----

  predicate Loads(f: File, ehdr: Ehdr, i: nat) {
    HeaderReadable(f, ehdr, i) && HeaderAt(f, ehdr, i).kind == PT_LOAD
  }

  /** A header that describes a segment: if loadable, it is sane and its `filesz` bytes are in the file. */
  predicate Describes(f: File, ehdr: Ehdr, i: nat) {
    && HeaderReadable(f, ehdr, i)
    && var ph := HeaderAt(f, ehdr, i);
       ph.kind == PT_LOAD ==>
         && ph.filesz <= ph.memsz
         && ph.vaddr + ph.memsz < TWO64
         && (ph.filesz == 0 || ph.off + ph.filesz <= |f|)
  }

  /** A segment in memory: `filesz` bytes of the file, then zeros up to `memsz`. */
  function StandardBytes(f: File, ph: Phdr): (bs: seq<byte>)
    requires ph.filesz <= ph.memsz && (ph.filesz == 0 || ph.off + ph.filesz <= |f|)
    ensures |bs| == ph.memsz
  {
    Pread(f, ph.filesz, ph.off) + seq(ph.memsz - ph.filesz, _ => 0)
  }

  function StandardSegments(f: File, ehdr: Ehdr, i: nat): seq<Segment>
    requires forall j :: i <= j < ehdr.phnum ==> Describes(f, ehdr, j)
    decreases ehdr.phnum - i
  {
    if i >= ehdr.phnum then []
    else
      assert Describes(f, ehdr, i);
      var ph := HeaderAt(f, ehdr, i);
      (if ph.kind == PT_LOAD then [Segment(ph.vaddr, StandardBytes(f, ph))] else [])
      + StandardSegments(f, ehdr, i + 1)
  }

  /** The file goes on behind the segment's `filesz` bytes, up to `memsz` and with zeros only. */
  predicate ZerosFollow(f: File, ph: Phdr) {
    ph.memsz > ph.filesz ==>
      && ph.off + ph.memsz <= |f|
      && forall k :: ph.off + ph.filesz <= k < ph.off + ph.memsz ==> f[k] == 0
  }

  ghost predicate LoadsStandard(f: File, ehdr: Ehdr, mem: Image)
    requires forall j :: 0 <= j < ehdr.phnum ==> Describes(f, ehdr, j)
  {
    var (status, image) := LoadFrom(f, ehdr, 0, mem);
    status == Ok && forall a :: image(a) == Overlays(mem, StandardSegments(f, ehdr, 0))(a)
  }

  /** The loader reads `memsz` bytes of the file. It leaves the image of the gABI, for disjoint segments, exactly when
      behind each segment that is larger in memory the file goes on with zeros; in particular when no segment is. */
  lemma AgreesWithStandard(f: File, ehdr: Ehdr, mem: Image)
    requires forall j :: 0 <= j < ehdr.phnum ==> Describes(f, ehdr, j)
    requires Disjoint(StandardSegments(f, ehdr, 0))
    ensures LoadsStandard(f, ehdr, mem)
            <==> forall i :: 0 <= i < ehdr.phnum && Loads(f, ehdr, i) ==> ZerosFollow(f, HeaderAt(f, ehdr, i))
    ensures (forall i :: 0 <= i < ehdr.phnum && Loads(f, ehdr, i) ==>
               HeaderAt(f, ehdr, i).memsz == HeaderAt(f, ehdr, i).filesz) ==> LoadsStandard(f, ehdr, mem)
  {
    hide HeaderAt, Overlays, LoadFrom, Segments, StandardSegments;
    LoadIsOverlay(f, ehdr, 0, mem);
    if forall i :: 0 <= i < ehdr.phnum && Loads(f, ehdr, i) ==> ZerosFollow(f, HeaderAt(f, ehdr, i)) {
      forall j | 0 <= j < ehdr.phnum
        ensures Acceptable(f, ehdr, j)
      {
        assert Describes(f, ehdr, j);
      }
      SameSegments(f, ehdr, 0);
    }
    if LoadsStandard(f, ehdr, mem) {
      forall i | 0 <= i < ehdr.phnum && Loads(f, ehdr, i)
        ensures ZerosFollow(f, HeaderAt(f, ehdr, i))
      {
        StandardMeansZeros(f, ehdr, mem, i);
      }
    }
  }

  lemma {:induction false} SameSegments(f: File, ehdr: Ehdr, i: nat)
    requires forall j :: i <= j < ehdr.phnum ==> Describes(f, ehdr, j) && Acceptable(f, ehdr, j)
    requires forall j :: i <= j < ehdr.phnum && Loads(f, ehdr, j) ==> ZerosFollow(f, HeaderAt(f, ehdr, j))
    ensures Segments(f, ehdr, i) == StandardSegments(f, ehdr, i)
    decreases ehdr.phnum - i
  {
    hide HeaderAt;
    if i < ehdr.phnum {
      assert Describes(f, ehdr, i) && Acceptable(f, ehdr, i);
      SameSegments(f, ehdr, i + 1);
      var ph := HeaderAt(f, ehdr, i);
      if ph.kind == PT_LOAD {
        assert Loads(f, ehdr, i);
        assert Pread(f, ph.memsz, ph.off) == StandardBytes(f, ph);
      }
    }
  }

  /** The place of a header's segment among the loaded and among the described ones. */
  lemma {:induction false} PlaceOf(f: File, ehdr: Ehdr, i: nat, j: nat) returns (n: nat)
    requires i <= j < ehdr.phnum && Loads(f, ehdr, j)
    requires forall j :: i <= j < ehdr.phnum ==> Describes(f, ehdr, j) && Acceptable(f, ehdr, j)
    ensures n < |Segments(f, ehdr, i)| && n < |StandardSegments(f, ehdr, i)|
    ensures var ph := HeaderAt(f, ehdr, j);
            && Segments(f, ehdr, i)[n] == Segment(ph.vaddr, Pread(f, ph.memsz, ph.off))
            && ph.filesz <= ph.memsz && (ph.filesz == 0 || ph.off + ph.filesz <= |f|)
            && StandardSegments(f, ehdr, i)[n] == Segment(ph.vaddr, StandardBytes(f, ph))
    decreases j - i
  {
    hide HeaderAt, StandardBytes;
    assert Describes(f, ehdr, i) && Acceptable(f, ehdr, i);
    if i == j {
      n := 0;
    } else {
      var n' := PlaceOf(f, ehdr, i + 1, j);
      n := if HeaderAt(f, ehdr, i).kind == PT_LOAD then n' + 1 else n';
    }
  }

  /** Loaded and described segments take up the same addresses. */
  lemma {:induction false} SameSpans(f: File, ehdr: Ehdr, i: nat)
    requires forall j :: i <= j < ehdr.phnum ==> Describes(f, ehdr, j) && Acceptable(f, ehdr, j)
    ensures var ss, ts := Segments(f, ehdr, i), StandardSegments(f, ehdr, i);
            |ss| == |ts| && forall n :: 0 <= n < |ss| ==> ss[n].base == ts[n].base && |ss[n].bytes| == |ts[n].bytes|
    decreases ehdr.phnum - i
  {
    hide HeaderAt, StandardBytes;
    if i < ehdr.phnum {
      assert Describes(f, ehdr, i) && Acceptable(f, ehdr, i);
      SameSpans(f, ehdr, i + 1);
    }
  }

  lemma StandardMeansZeros(f: File, ehdr: Ehdr, mem: Image, i: nat)
    requires forall j :: 0 <= j < ehdr.phnum ==> Describes(f, ehdr, j)
    requires Disjoint(StandardSegments(f, ehdr, 0)) && LoadsStandard(f, ehdr, mem)
    requires i < ehdr.phnum && Loads(f, ehdr, i)
    ensures ZerosFollow(f, HeaderAt(f, ehdr, i))
  {
    hide HeaderAt, Overlays, LoadFrom, Segments, StandardSegments;
    LoadIsOverlay(f, ehdr, 0, mem);
    assert Acceptable(f, ehdr, i);
    var ss, ts := Segments(f, ehdr, 0), StandardSegments(f, ehdr, 0);
    SameSpans(f, ehdr, 0);
    assert Disjoint(ss) by {
      assert forall n, a :: 0 <= n < |ss| ==> (Covers(ss[n], a) <==> Covers(ts[n], a));
    }
    var ph := HeaderAt(f, ehdr, i);
    var n := PlaceOf(f, ehdr, 0, i);
    forall k | ph.memsz > ph.filesz && ph.off + ph.filesz <= k < ph.off + ph.memsz
      ensures f[k] == 0
    {
      var a := ph.vaddr + (k - ph.off);
      assert Covers(ss[n], a) && Covers(ts[n], a);
      DisjointSegmentsHold(mem, ss, a);
      DisjointSegmentsHold(mem, ts, a);
    }
  }

  // ---- three executables ----

  const ONE: Ehdr := Ehdr(0x464C_457F, 64, 0, 1, 0, 0)

  /** One byte in the file, two in memory. */
  const SMALL: Phdr := Phdr(1, 120, 0x8100_0000, 1, 2)

  /** Two bytes in both. */
  const EQUAL: Phdr := Phdr(1, 120, 0x8100_0000, 2, 2)

  /** An executable of one segment, with some bytes behind its headers. */
  function OneSegment(ph: Phdr, bytes: seq<byte>): File {
    EhdrBytes(ONE) + PhdrBytes(ph) + bytes
  }

  lemma OneHeader(ph: Phdr, bytes: seq<byte>)
    ensures var f := OneSegment(ph, bytes);
            && EhdrOf(f[..EHDR_SIZE]) == ONE && ONE.magic == ELF_MAGIC
            && HeaderReadable(f, ONE, 0) && HeaderAt(f, ONE, 0) == ph
            && |f| == 120 + |bytes| && f[120..] == bytes
  {
    hide EhdrOf, EhdrBytes, PhdrOf, PhdrBytes;
    var f := OneSegment(ph, bytes);
    assert f[..64] == EhdrBytes(ONE) && f[64..120] == PhdrBytes(ph);
    EhdrRoundTrip(ONE);
    PhdrRoundTrip(ph);
  }

  /** A segment of the same size in the file and in memory is loaded. */
  lemma EqualSizesLoad(mem: Image)
    ensures var f := OneSegment(EQUAL, [7, 9]);
            && EhdrOf(f[..EHDR_SIZE]) == ONE
            && LoadFrom(f, ONE, 0, mem).0 == Ok
            && LoadFrom(f, ONE, 0, mem).1(0x8100_0000) == 7
            && LoadFrom(f, ONE, 0, mem).1(0x8100_0001) == 9
  {
    hide HeaderAt, EhdrBytes, PhdrBytes, EhdrOf;
    OneHeader(EQUAL, [7, 9]);
    var f := OneSegment(EQUAL, [7, 9]);
    assert Pread(f, 2, 120) == f[120..122] == [7, 9];
  }

  /** The file ends with the segment's own byte: the load fails. */
  lemma FileEndsTooSoon(mem: Image)
    ensures var f := OneSegment(SMALL, [7]);
            && EhdrOf(f[..EHDR_SIZE]) == ONE && Describes(f, ONE, 0)
            && LoadFrom(f, ONE, 0, mem).0 == Eio
  {
    hide HeaderAt, EhdrBytes, PhdrBytes, EhdrOf;
    OneHeader(SMALL, [7]);
  }

  /** The load leaves a byte at an address where the gABI has another one. */
  ghost predicate LoadsInstead(f: File, ehdr: Ehdr, mem: Image, a: int, loaded: byte, standard: byte) {
    && (forall j :: 0 <= j < ehdr.phnum ==> Describes(f, ehdr, j))
    && LoadFrom(f, ehdr, 0, mem).0 == Ok
    && LoadFrom(f, ehdr, 0, mem).1(a) == loaded
    && Overlays(mem, StandardSegments(f, ehdr, 0))(a) == standard
  }

  /** Another byte of the file follows it: the load succeeds with that byte in place of the zero. */
  lemma NoZeroFollows(mem: Image)
    ensures EhdrOf(OneSegment(SMALL, [7, 9])[..EHDR_SIZE]) == ONE
    ensures LoadsInstead(OneSegment(SMALL, [7, 9]), ONE, mem, 0x8100_0001, 9, 0)
  {
    hide HeaderAt, EhdrBytes, PhdrBytes, EhdrOf;
    OneHeader(SMALL, [7, 9]);
    var f := OneSegment(SMALL, [7, 9]);
    assert Pread(f, 2, 120) == f[120..122] == [7, 9];
    assert StandardBytes(f, SMALL) == [7, 0];
    var s := Segment(0x8100_0000, [7, 0]);
    assert StandardSegments(f, ONE, 0) == [s];
    LastSegmentDecides(mem, [s], 0x8100_0001);
  }
}
