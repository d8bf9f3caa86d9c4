/** Loading the user's symbols (kernel/elf.c, lines 96-162), and looking them up afterwards. */
module SymbolLoad {
  import opened Words
  import opened Wrappers
  import opened CText
  import opened ElfFile
  import opened Symbols

  const MAX_USER_SYMS: nat := 512
  const MAX_USER_STRTAB: nat := 8192
  const SYM_SIZE: nat := 24

  function SymbolOf(bs: seq<byte>, at: nat): Symbol
    requires at + SYM_SIZE <= |bs|
  {
    Symbol(U32(bs, at), bs[at + 4], U64(bs, at + 8), U64(bs, at + 16))
  }

  /** The whole entries of a symbol section. */
  function SymbolsOf(bs: seq<byte>): (symbols: seq<Symbol>)
    ensures |symbols| == |bs| / SYM_SIZE
  {
    seq(|bs| / SYM_SIZE, i requires 0 <= i < |bs| / SYM_SIZE => SymbolOf(bs, SYM_SIZE * i))
  }

  /** The i-th symbol, out of its 24 bytes: the name offset first, then the type, the value at 8 and the size at 16. */
  lemma SymbolAt(bs: seq<byte>, i: nat)
    requires 24 * i + 24 <= |bs|
    ensures |SymbolsOf(bs)| == |bs| / 24 > i
    ensures var b, s := bs[24 * i..24 * i + 24], SymbolsOf(bs)[i];
            s.name == Le(b[..4]) && s.info == b[4] && s.value == Le(b[8..16]) && s.size == Le(b[16..])
  {
    hide Le;
    var at := 24 * i;
    Slice(bs, at, 0, 4);
    Slice(bs, at, 8, 16);
    Slice(bs, at, 16, 24);
    assert SymbolsOf(bs)[i] == SymbolOf(bs, at);
  }

  lemma Slice(bs: seq<byte>, at: nat, lo: nat, hi: nat)
    requires lo <= hi <= 24 && at + 24 <= |bs|
    ensures bs[at..at + 24][lo..hi] == bs[at + lo..at + hi]
  {
    var a, b := bs[at..at + 24][lo..hi], bs[at + lo..at + hi];
    assert forall k :: 0 <= k < hi - lo ==> a[k] == b[k];
  }

  function Text(bs: seq<byte>): (s: string)
    ensures |s| == |bs|
  {
    seq(|bs|, i requires 0 <= i < |bs| => bs[i] as char)
  }

  /** The product of index and entry size does not overflow an `int`. */
  predicate IndexFits(ehdr: Ehdr, idx: int) {
    -TWO31 <= idx * ehdr.shentsize < TWO31
  }

  /** The index is an `int`: a negative one leads to headers before the table. */
  function SectionOffset(ehdr: Ehdr, idx: int): nat {
    (ehdr.shoff + idx * ehdr.shentsize) % TWO64
  }

  predicate SectionReadable(f: File, ehdr: Ehdr, idx: int) {
    SectionOffset(ehdr, idx) + SHDR_SIZE <= |f|
  }

  function SectionAt(f: File, ehdr: Ehdr, idx: int): Shdr
    requires SectionReadable(f, ehdr, idx)
  {
    var off := SectionOffset(ehdr, idx);
    ShdrOf(f[off..off + SHDR_SIZE])
  }

  /** `get_elf_section_header`. */
  method GetSectionHeader(f: File, ehdr: Ehdr, idx: int) returns (ok: bool, sh: Shdr)
    requires IndexFits(ehdr, idx)
    ensures ok == SectionReadable(f, ehdr, idx)
    ensures ok ==> sh == SectionAt(f, ehdr, idx)
  {
    var offset := (ehdr.shoff + idx * ehdr.shentsize) % TWO64;
    var bs := Pread(f, SHDR_SIZE, offset);
    if |bs| != SHDR_SIZE {
      return false, Shdr(0, 0, 0, 0, 0);
    }
    return true, ShdrOf(bs);
  }

  /** `size / entsize` in 64 bits; the machine's quotient by zero is all ones. */
  function Quotient64(size: u64, entsize: u64): u64 {
    if entsize == 0 then TWO64 - 1 else size / entsize
  }

  // ---- what a file offers ----

  /** The search gets to header `k`: all headers before it can be read, and none is a symbol table's. */
  predicate Reached(f: File, ehdr: Ehdr, k: nat) {
    k < ehdr.shnum && forall j :: 0 <= j < k ==> SectionReadable(f, ehdr, j) && SectionAt(f, ehdr, j).kind != SHT_SYMTAB
  }

  /** The first symbol-table section, if all headers up to it can be read. */
  predicate FirstSymtab(f: File, ehdr: Ehdr, k: nat) {
    Reached(f, ehdr, k) && SectionReadable(f, ehdr, k) && SectionAt(f, ehdr, k).kind == SHT_SYMTAB
  }

  /** The section a symbol table links to, as the `int` it is passed on as. */
  function LinkOf(f: File, ehdr: Ehdr, k: nat): int
    requires SectionReadable(f, ehdr, k)
  {
    ToInt32(SectionAt(f, ehdr, k).link)
  }

  /** No index that is looked up overflows. */
  ghost predicate IndicesFit(f: File, ehdr: Ehdr) {
    && (forall k: nat :: Reached(f, ehdr, k) ==> IndexFits(ehdr, k))
    && (forall k: nat :: FirstSymtab(f, ehdr, k) ==> IndexFits(ehdr, LinkOf(f, ehdr, k)))
  }

  predicate NoSymtab(f: File, ehdr: Ehdr) {
    forall j :: 0 <= j < ehdr.shnum ==> SectionReadable(f, ehdr, j) && SectionAt(f, ehdr, j).kind != SHT_SYMTAB
  }

  /** In a file with section headers of the standard size whose symbol table links to one of them, no index overflows
      and the link is followed as the file means it. */
  lemma StandardLinks(f: File, ehdr: Ehdr)
    requires ehdr.shentsize == SHDR_SIZE && ehdr.shnum < 0x1_0000
    requires forall k: nat :: FirstSymtab(f, ehdr, k) ==> SectionAt(f, ehdr, k).link < ehdr.shnum
    ensures IndicesFit(f, ehdr)
    ensures forall k: nat :: FirstSymtab(f, ehdr, k) ==> LinkOf(f, ehdr, k) == SectionAt(f, ehdr, k).link
  {
  }

  /** A link of 2^31 or more becomes a negative index. */
  lemma LinkWraps(f: File, ehdr: Ehdr, k: nat)
    requires SectionReadable(f, ehdr, k) && SectionAt(f, ehdr, k).link >= 0x8000_0000
    ensures LinkOf(f, ehdr, k) == SectionAt(f, ehdr, k).link - 0x1_0000_0000
  {
  }

  /** The symbol section at `k` and the string table it links to can be loaded. */
  predicate Loadable(f: File, ehdr: Ehdr, k: nat)
    requires SectionReadable(f, ehdr, k)
  {
    var sym := SectionAt(f, ehdr, k);
    && SectionReadable(f, ehdr, LinkOf(f, ehdr, k))
    && var str := SectionAt(f, ehdr, LinkOf(f, ehdr, k));
       && str.size <= MAX_USER_STRTAB
       && (str.size == 0 || str.off + str.size <= |f|)
       && sym.entsize == SYM_SIZE
       && sym.size / SYM_SIZE <= MAX_USER_SYMS
       && (sym.size == 0 || sym.off + sym.size <= |f|)
  }

  /** Loadable, in the fields of the two section headers. */
  lemma LoadableIff(f: File, ehdr: Ehdr, k: nat)
    requires SectionReadable(f, ehdr, k)
    requires SectionReadable(f, ehdr, LinkOf(f, ehdr, k))
    ensures var sym, str := SectionAt(f, ehdr, k), SectionAt(f, ehdr, LinkOf(f, ehdr, k));
            Loadable(f, ehdr, k) <==>
              && str.size <= 8192 && (str.size == 0 || str.off + str.size <= |f|)
              && sym.entsize == 24 && sym.size < 24 * 513 && (sym.size == 0 || sym.off + sym.size <= |f|)
  {
    hide ShdrOf;
  }

  /** A section header, out of its 64 bytes at its place in the header table. */
  lemma SectionInPlace(f: File, ehdr: Ehdr, idx: int)
    requires 0 <= ehdr.shoff + idx * ehdr.shentsize && ehdr.shoff + idx * ehdr.shentsize + 64 <= |f| < TWO63
    ensures SectionReadable(f, ehdr, idx)
    ensures var at := ehdr.shoff + idx * ehdr.shentsize; SectionAt(f, ehdr, idx) == ShdrOf(f[at..at + 64])
  {
    hide ShdrOf;
  }

  /** What a symbol section overruns: `symtab`, behind it the eight bytes of `sym_count`, which is assigned
      afterwards, and then the start of `strtab`. */
  function Spill(bytes: seq<byte>): string {
    if |bytes| <= SYM_SIZE * MAX_USER_SYMS + 8 then "" else Text(bytes[SYM_SIZE * MAX_USER_SYMS + 8..])
  }

  /** The string table after the symbols are read. */
  function Spilled(strtab: string, bytes: seq<byte>): (r: string)
    requires |bytes| < SYM_SIZE * (MAX_USER_SYMS + 1) && |strtab| == MAX_USER_STRTAB
    ensures |r| == |strtab|
  {
    Spill(bytes) + strtab[|Spill(bytes)|..]
  }

  /** The test of the symbol count admits a section of up to 23 bytes more than the array holds. It stays inside the
      array exactly when it has at most 512 entries' bytes. */
  lemma AdmittedSize(f: File, ehdr: Ehdr, k: nat)
    requires SectionReadable(f, ehdr, k) && Loadable(f, ehdr, k)
    ensures |SymbolBytes(f, ehdr, k)| == SectionAt(f, ehdr, k).size
    ensures |SymbolBytes(f, ehdr, k)| < SYM_SIZE * (MAX_USER_SYMS + 1)
    ensures |SymbolBytes(f, ehdr, k)| <= SYM_SIZE * MAX_USER_SYMS
            <==> SectionAt(f, ehdr, k).size <= SYM_SIZE * MAX_USER_SYMS
  {
    hide SectionAt;
  }

  /** The strings survive exactly when what spills over them is what they hold there. */
  lemma StringsSurviveIff(strings: string, rest: string, bytes: seq<byte>)
    requires |bytes| < SYM_SIZE * (MAX_USER_SYMS + 1) && |strings + rest| == MAX_USER_STRTAB
    ensures Spilled(strings + rest, bytes)[..|strings|] == strings
            <==> forall i :: 0 <= i < |Spill(bytes)| && i < |strings| ==> Spill(bytes)[i] == strings[i]
    ensures |bytes| <= SYM_SIZE * MAX_USER_SYMS + 8 ==> Spilled(strings + rest, bytes) == strings + rest
  {
    hide Spill;
    var a := Spilled(strings + rest, bytes);
    assert forall i :: 0 <= i < |a| && i >= |Spill(bytes)| ==> a[i] == (strings + rest)[i];
    if a[..|strings|] == strings {
      forall i | 0 <= i < |Spill(bytes)| && i < |strings|
        ensures Spill(bytes)[i] == strings[i]
      {
        assert a[..|strings|][i] == Spill(bytes)[i];
      }
    }
    if |bytes| <= SYM_SIZE * MAX_USER_SYMS + 8 {
      assert Spill(bytes) == "" by { NoSpill(bytes); }
    }
  }

  lemma NoSpill(bytes: seq<byte>)
    requires |bytes| <= SYM_SIZE * MAX_USER_SYMS + 8
    ensures Spill(bytes) == ""
  {
  }

  function SymbolBytes(f: File, ehdr: Ehdr, k: nat): seq<byte>
    requires SectionReadable(f, ehdr, k)
  {
    Pread(f, SectionAt(f, ehdr, k).size, SectionAt(f, ehdr, k).off)
  }

  function StringBytes(f: File, ehdr: Ehdr, k: nat): seq<byte>
    requires SectionReadable(f, ehdr, k) && SectionReadable(f, ehdr, LinkOf(f, ehdr, k))
  {
    var str := SectionAt(f, ehdr, LinkOf(f, ehdr, k));
    Pread(f, str.size, str.off)
  }

  /** The symbol part of `struct process_t`. */
  class Process {
    var symtab: seq<Symbol>
    var symCount: nat
    var strtab: string
    var strtabSize: nat

    /** The array bounds of the C declarations. */
    ghost predicate Valid()
      reads this
    {
      symCount <= |symtab| == MAX_USER_SYMS && strtabSize <= |strtab| == MAX_USER_STRTAB
    }

    function Table(): SymbolTable
      reads this
      requires symCount <= |symtab|
    {
      SymbolTable(symtab[..symCount], strtab, strtabSize)
    }

    /** `load_user_symbols`. A result of false stands for a panic. */
    method LoadUserSymbols(f: File, ehdr: Ehdr) returns (ok: bool)
      requires Valid()
      requires IndicesFit(f, ehdr)
      modifies this
      ensures Valid()
      ensures ok <==> ehdr.shnum == 0 || NoSymtab(f, ehdr)
                      || exists k: nat :: FirstSymtab(f, ehdr, k) && Loadable(f, ehdr, k)
      ensures ok && (ehdr.shnum == 0 || NoSymtab(f, ehdr)) ==> Table() == old(Table())
      ensures forall k: nat :: ok && FirstSymtab(f, ehdr, k) ==>
                && Loadable(f, ehdr, k)
                && Table().symbols == SymbolsOf(SymbolBytes(f, ehdr, k))
                && strtabSize == |StringBytes(f, ehdr, k)| <= |old(strtab)| == MAX_USER_STRTAB
                && |SymbolBytes(f, ehdr, k)| < SYM_SIZE * (MAX_USER_SYMS + 1)
                && strtab == Spilled(Text(StringBytes(f, ehdr, k)) + old(strtab)[strtabSize..], SymbolBytes(f, ehdr, k))
    {
      hide SectionReadable, SectionAt, SymbolsOf, Spilled, Text, IndexFits, Pread;
      if ehdr.shnum == 0 {
        return true;
      }
      var symIdx := -1;
      var sect := Shdr(0, 0, 0, 0, 0);
      var k := 0;
      while k < ehdr.shnum
        invariant k <= ehdr.shnum && symIdx == -1 && unchanged(this)
        invariant forall j :: 0 <= j < k ==> SectionReadable(f, ehdr, j) && SectionAt(f, ehdr, j).kind != SHT_SYMTAB
      {
        assert Reached(f, ehdr, k);
        var read;
        read, sect := GetSectionHeader(f, ehdr, k);
        if !read {
          return false;
        }
        if sect.kind == SHT_SYMTAB {
          symIdx := k;
          break;
        }
        k := k + 1;
      }
      if symIdx < 0 {
        return true;
      }
      assert FirstSymtab(f, ehdr, k);
      OnlyOneFirst(f, ehdr, k);
      var symHdr := sect;
      var read, strHdr := GetSectionHeader(f, ehdr, ToInt32(symHdr.link));
      if !read {
        return false;
      }
      if strHdr.size > MAX_USER_STRTAB {
        return false;
      }
      var strs := Pread(f, strHdr.size, strHdr.off);
      if |strs| != strHdr.size {
        return false;
      }
      strtab := Text(strs) + strtab[strHdr.size..];
      strtabSize := strHdr.size;
      var count := Quotient64(symHdr.size, symHdr.entsize);
      if count > MAX_USER_SYMS {
        return false;
      }
      if symHdr.entsize != SYM_SIZE {
        return false;
      }
      var syms := Pread(f, symHdr.size, symHdr.off);
      if |syms| != symHdr.size {
        return false;
      }
      symtab := SymbolsOf(syms) + symtab[count..];
      strtab := Spilled(strtab, syms);
      symCount := count;
      return true;
    }
  }

  lemma OnlyOneFirst(f: File, ehdr: Ehdr, k: nat)
    requires FirstSymtab(f, ehdr, k)
    ensures forall j: nat :: FirstSymtab(f, ehdr, j) ==> j == k
    ensures !NoSymtab(f, ehdr)
  {
  }

  /** The lookup that the file itself defines: over all its symbols, named in its own string table. */
  function FileLookup(f: File, ehdr: Ehdr, k: nat, vaddr: u64): Option<u32>
    requires SectionReadable(f, ehdr, k) && SectionReadable(f, ehdr, LinkOf(f, ehdr, k))
  {
    Lookup(SymbolsOf(SymbolBytes(f, ehdr, k)), |StringBytes(f, ehdr, k)|, vaddr)
  }

  /** A table gives the file's answer: the same name offset, inside the string table, and the same text for a name
      that ends inside it. */
  ghost predicate AnswersLikeFile(t: SymbolTable, strings: string, name: Option<u32>, answer: Option<u32>) {
    && name == answer
    && (name.Some? ==>
          && name.value < |strings|
          && (Terminated(strings[name.value..]) ==> NameText(t, name.value) == CStr(strings[name.value..])))
  }

  /** Loading and looking up compose: the kernel's answer for an address is the one the file defines, and its text is
      unless the symbols spill over the strings. */
  method LoadThenFind(p: Process, f: File, ehdr: Ehdr, ghost k: nat, vaddr: u64)
    returns (ok: bool, name: Option<u32>)
    requires p.Valid() && FirstSymtab(f, ehdr, k)
    requires IndicesFit(f, ehdr)
    modifies p
    ensures p.Valid() && (ok <==> Loadable(f, ehdr, k))
    ensures ok ==> SectionReadable(f, ehdr, LinkOf(f, ehdr, k)) && name == FileLookup(f, ehdr, k, vaddr)
    ensures ok && SectionAt(f, ehdr, k).size <= SYM_SIZE * MAX_USER_SYMS + 8 ==>
              AnswersLikeFile(p.Table(), Text(StringBytes(f, ehdr, k)), name, FileLookup(f, ehdr, k, vaddr))
  {
    hide SymbolsOf, SymbolBytes, StringBytes, Text, Lookup, CStr, Spilled;
    ghost var strtab0 := p.strtab;
    OnlyOneFirst(f, ehdr, k);
    ok := p.LoadUserSymbols(f, ehdr);
    if !ok {
      return false, None;
    }
    AdmittedSize(f, ehdr, k);
    ghost var strings := Text(StringBytes(f, ehdr, k));
    StringsSurviveIff(strings, strtab0[|strings|..], SymbolBytes(f, ehdr, k));
    name := FindSymbol(p.Table(), vaddr);
    LookupMeaning(p.Table().symbols, p.strtabSize, vaddr);
    if name.Some? {
      SameName(p.strtab, p.strtabSize, name.value);
    }
  }

  /** A name that ends inside the table is the same whatever follows the table. */
  lemma SameName(strtab: string, size: nat, offset: nat)
    requires offset <= size <= |strtab|
    ensures Terminated(strtab[..size][offset..]) ==> CStr(strtab[offset..]) == CStr(strtab[..size][offset..])
  {
    var a, b := strtab[offset..], strtab[..size][offset..];
    if Terminated(b) {
      assert forall i :: 0 <= i < |b| ==> a[i] == b[i];
      NulIndexUnique(a, NulIndex(b));
    }
  }

  // ---- a file that spills over its strings ----

  const TWO_SECTIONS: Ehdr := Ehdr(ELF_MAGIC, 0, 64, 0, 64, 2)
  const WIDE_SYMTAB: Shdr := Shdr(2, 192, 12311, 1, 24)
  const SHORT_STRTAB: Shdr := Shdr(3, 12503, 2, 0, 0)

  /** 512 symbols and all but one byte of another, of ones throughout, and the string "a". */
  function WideFile(): File {
    EhdrBytes(TWO_SECTIONS) + ShdrBytes(WIDE_SYMTAB) + ShdrBytes(SHORT_STRTAB) + seq(12311, _ => 1) + [97, 0]
  }

  lemma WideSections()
    ensures var f := WideFile();
            && SectionReadable(f, TWO_SECTIONS, 0) && SectionAt(f, TWO_SECTIONS, 0) == WIDE_SYMTAB
            && SectionReadable(f, TWO_SECTIONS, 1) && SectionAt(f, TWO_SECTIONS, 1) == SHORT_STRTAB
            && |f| == 12505
            && Pread(f, 12311, 192) == seq(12311, _ => 1) && Pread(f, 2, 12503) == [97, 0]
  {
    hide EhdrBytes, ShdrBytes, ShdrOf;
    var f := WideFile();
    assert f[64..128] == ShdrBytes(WIDE_SYMTAB) && f[128..192] == ShdrBytes(SHORT_STRTAB);
    assert f[192..12503] == seq(12311, _ => 1) && f[12503..12505] == [97, 0];
    ShdrRoundTrip(WIDE_SYMTAB);
    ShdrRoundTrip(SHORT_STRTAB);
  }

  lemma WideBytes(f: File)
    requires SectionReadable(f, TWO_SECTIONS, 0) && SectionAt(f, TWO_SECTIONS, 0) == WIDE_SYMTAB
    requires SectionReadable(f, TWO_SECTIONS, 1) && SectionAt(f, TWO_SECTIONS, 1) == SHORT_STRTAB
    ensures SymbolBytes(f, TWO_SECTIONS, 0) == Pread(f, 12311, 192)
    ensures StringBytes(f, TWO_SECTIONS, 0) == Pread(f, 2, 12503)
  {
    hide SectionAt, SectionReadable, Pread;
  }

  /** The loader admits the symbols at `k`, they overrun the array, and the strings do not survive. */
  ghost predicate LosesStrings(f: File, ehdr: Ehdr, k: nat, rest: string) {
    && FirstSymtab(f, ehdr, k) && Loadable(f, ehdr, k)
    && SYM_SIZE * MAX_USER_SYMS < |SymbolBytes(f, ehdr, k)| < SYM_SIZE * (MAX_USER_SYMS + 1)
    && var strings := Text(StringBytes(f, ehdr, k));
       && |strings + rest| == MAX_USER_STRTAB
       && Spilled(strings + rest, SymbolBytes(f, ehdr, k))[..|strings|] != strings
  }

  lemma SymbolsOverrun(rest: string)
    requires |rest| == MAX_USER_STRTAB - 2
    ensures LosesStrings(WideFile(), TWO_SECTIONS, 0, rest)
  {
    hide WideFile, SectionAt, SectionReadable, Pread, SymbolBytes, StringBytes;
    WideSections();
    var f := WideFile();
    assert SymbolBytes(f, TWO_SECTIONS, 0) == seq(12311, _ => 1) by { WideBytes(f); }
    assert StringBytes(f, TWO_SECTIONS, 0) == [97, 0] by { WideBytes(f); }
    var strings := Text([97, 0]);
    assert strings[0] == 'a' && Spill(seq(12311, _ => 1))[0] as int == 1;
    assert Spilled(strings + rest, seq(12311, _ => 1))[..2][0] != strings[0];
  }
}
