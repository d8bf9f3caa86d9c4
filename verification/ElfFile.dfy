/** Reading structures out of an ELF file (kernel/elf.h and the headers of kernel/elf.c). */
module ElfFile {
  import opened Words

  type File = seq<byte>

  /** `spike_file_pread`: the bytes from an offset on, as many as asked for or as there are. */
  function Pread(f: File, nb: nat, offset: nat): (r: seq<byte>)
    ensures |r| <= nb
    ensures |r| == nb <==> nb == 0 || offset + nb <= |f|
    ensures offset + nb <= |f| ==> r == f[offset..offset + nb]
  {
    if offset >= |f| then [] else if offset + nb <= |f| then f[offset..offset + nb] else f[offset..]
  }

  /** A little-endian number. */
  function Le(bs: seq<byte>): nat {
    if bs == [] then 0 else bs[0] + 0x100 * Le(bs[1..])
  }

  function Pow256(k: nat): (p: nat)
    ensures p > 0
  {
    if k == 0 then 1 else 0x100 * Pow256(k - 1)
  }

  lemma LeBelow(bs: seq<byte>)
    ensures Le(bs) < Pow256(|bs|)
  {
  }

  lemma LeBound(bs: seq<byte>)
    ensures |bs| == 4 ==> Le(bs) < TWO32
    ensures |bs| == 8 ==> Le(bs) < TWO64
  {
    LeBelow(bs);
    assert Pow256(4) == TWO32 by { assert Pow256(2) == 0x1_0000; }
    assert Pow256(8) == TWO64 by { assert Pow256(6) == 0x1_0000 * TWO32; }
  }

  function U16(bs: seq<byte>, at: nat): nat
    requires at + 2 <= |bs|
  {
    Le(bs[at..at + 2])
  }

  function U32(bs: seq<byte>, at: nat): u32
    requires at + 4 <= |bs|
  {
    LeBound(bs[at..at + 4]);
    Le(bs[at..at + 4])
  }

  function U64(bs: seq<byte>, at: nat): u64
    requires at + 8 <= |bs|
  {
    LeBound(bs[at..at + 8]);
    Le(bs[at..at + 8])
  }

  const EHDR_SIZE: nat := 64
  const PHDR_SIZE: nat := 56
  const SHDR_SIZE: nat := 64
  const ELF_MAGIC: nat := 0x464C457F
  const PT_LOAD: nat := 1
  const SHT_SYMTAB: nat := 2

  /** The fields of the ELF header that the loader uses. */
  datatype Ehdr = Ehdr(magic: u32, phoff: u64, shoff: u64, phnum: nat, shentsize: nat, shnum: nat)

  function EhdrOf(bs: seq<byte>): Ehdr
    requires |bs| == EHDR_SIZE
  {
    Ehdr(U32(bs, 0), U64(bs, 32), U64(bs, 40), U16(bs, 56), U16(bs, 58), U16(bs, 60))
  }

  datatype Phdr = Phdr(kind: u32, off: u64, vaddr: u64, filesz: u64, memsz: u64)

  function PhdrOf(bs: seq<byte>): Phdr
    requires |bs| == PHDR_SIZE
  {
    Phdr(U32(bs, 0), U64(bs, 8), U64(bs, 16), U64(bs, 32), U64(bs, 40))
  }

  datatype Shdr = Shdr(kind: u32, off: u64, size: u64, link: u32, entsize: u64)

  function ShdrOf(bs: seq<byte>): Shdr
    requires |bs| == SHDR_SIZE
  {
    Shdr(U32(bs, 4), U64(bs, 24), U64(bs, 32), U32(bs, 40), U64(bs, 56))
  }

  // ---- writing these structures ----

  /** A number as `k` little-endian bytes. */
  function Bytes(n: nat, k: nat): (bs: seq<byte>)
    ensures |bs| == k
    decreases k
  {
    if k == 0 then [] else [n % 0x100] + Bytes(n / 0x100, k - 1)
  }

  lemma {:induction false} LeInvertsBytes(n: nat, k: nat)
    requires n < Pow256(k)
    ensures Le(Bytes(n, k)) == n
    decreases k
  {
    if k > 0 {
      LeInvertsBytes(n / 0x100, k - 1);
      assert Bytes(n, k)[1..] == Bytes(n / 0x100, k - 1);
    }
  }

  lemma BytesFit(a: nat, b: u32, c: u64)
    requires a < 0x1_0000
    ensures Le(Bytes(a, 2)) == a && Le(Bytes(b, 4)) == b && Le(Bytes(c, 8)) == c
  {
    assert Pow256(2) == 0x1_0000;
    assert Pow256(4) == TWO32 by { assert Pow256(2) == 0x1_0000; }
    assert Pow256(8) == TWO64 by { assert Pow256(6) == 0x1_0000 * TWO32; }
    LeInvertsBytes(a, 2);
    LeInvertsBytes(b, 4);
    LeInvertsBytes(c, 8);
  }

  /** A program header; flags, physical address and alignment are zero. */
  function PhdrBytes(ph: Phdr): (bs: seq<byte>)
    ensures |bs| == PHDR_SIZE
  {
    Bytes(ph.kind, 4) + Bytes(0, 4) + Bytes(ph.off, 8) + Bytes(ph.vaddr, 8) + Bytes(0, 8)
    + Bytes(ph.filesz, 8) + Bytes(ph.memsz, 8) + Bytes(0, 8)
  }

  lemma PhdrRoundTrip(ph: Phdr)
    ensures PhdrOf(PhdrBytes(ph)) == ph
  {
    hide Bytes, Le;
    var bs := PhdrBytes(ph);
    assert bs[0..4] == Bytes(ph.kind, 4);
    assert bs[8..16] == Bytes(ph.off, 8);
    assert bs[16..24] == Bytes(ph.vaddr, 8);
    assert bs[32..40] == Bytes(ph.filesz, 8);
    assert bs[40..48] == Bytes(ph.memsz, 8);
    BytesFit(0, ph.kind, ph.off);
    BytesFit(0, 0, ph.vaddr);
    BytesFit(0, 0, ph.filesz);
    BytesFit(0, 0, ph.memsz);
  }

  /** An ELF header; the fields that the loader does not use are zero. */
  function EhdrBytes(e: Ehdr): (bs: seq<byte>)
    ensures |bs| == EHDR_SIZE
  {
    Bytes(e.magic, 4) + Bytes(0, 28) + Bytes(e.phoff, 8) + Bytes(e.shoff, 8) + Bytes(0, 8)
    + Bytes(e.phnum, 2) + Bytes(e.shentsize, 2) + Bytes(e.shnum, 2) + Bytes(0, 2)
  }

  lemma EhdrRoundTrip(e: Ehdr)
    requires e.phnum < 0x1_0000 && e.shentsize < 0x1_0000 && e.shnum < 0x1_0000
    ensures EhdrOf(EhdrBytes(e)) == e
  {
    hide Bytes, Le;
    var bs := EhdrBytes(e);
    assert bs[0..4] == Bytes(e.magic, 4);
    assert bs[32..40] == Bytes(e.phoff, 8);
    assert bs[40..48] == Bytes(e.shoff, 8);
    assert bs[56..58] == Bytes(e.phnum, 2);
    assert bs[58..60] == Bytes(e.shentsize, 2);
    assert bs[60..62] == Bytes(e.shnum, 2);
    BytesFit(e.phnum, e.magic, e.phoff);
    BytesFit(e.shentsize, 0, e.shoff);
    BytesFit(e.shnum, 0, 0);
  }

  /** A section header; the fields that the loader does not use are zero. */
  function ShdrBytes(sh: Shdr): (bs: seq<byte>)
    ensures |bs| == SHDR_SIZE
  {
    Bytes(0, 4) + Bytes(sh.kind, 4) + Bytes(0, 16) + Bytes(sh.off, 8) + Bytes(sh.size, 8) + Bytes(sh.link, 4)
    + Bytes(0, 12) + Bytes(sh.entsize, 8)
  }

  lemma ShdrRoundTrip(sh: Shdr)
    ensures ShdrOf(ShdrBytes(sh)) == sh
  {
    hide Bytes, Le;
    var bs := ShdrBytes(sh);
    assert bs[4..8] == Bytes(sh.kind, 4);
    assert bs[24..32] == Bytes(sh.off, 8);
    assert bs[32..40] == Bytes(sh.size, 8);
    assert bs[40..44] == Bytes(sh.link, 4);
    assert bs[56..64] == Bytes(sh.entsize, 8);
    BytesFit(0, sh.kind, sh.off);
    BytesFit(0, sh.link, sh.size);
    BytesFit(0, 0, sh.entsize);
  }
}
