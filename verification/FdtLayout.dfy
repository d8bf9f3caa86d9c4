/** Every device tree has a layout: the flattened format can express any abstract tree. */
module FdtLayout {
  import opened Words
  import opened CText
  import opened FdtFormat
  import opened FdtScanner
  import opened FdtTrace

  /** The word that stores `n` big-endian. */
  function Raw(n: u32): (w: Word)
    ensures Be(w) == n
  {
    var high, low := n / 0x1_0000, n % 0x1_0000;
    Word(high / 0x100, high % 0x100, low / 0x100, low % 0x100)
  }

  /** Text that a C string can hold. */
  predicate Plain(name: string) {
    forall k :: 0 <= k < |name| ==> name[k] != '\0' && name[k] as int < 256
  }

  function ByteIn(name: string, k: nat): byte
    requires Plain(name)
  {
    if k < |name| then name[k] as int else 0
  }

  /** A name with its terminator, padded with zeros to whole words (section 5.4.1). */
  function NameWords(name: string): seq<Word>
    requires Plain(name)
    decreases |name|
  {
    [Word(ByteIn(name, 0), ByteIn(name, 1), ByteIn(name, 2), ByteIn(name, 3))]
    + if |name| < 4 then [] else NameWords(name[4..])
  }

  lemma NameWordsSplit(name: string)
    requires Plain(name)
    ensures var w := Word(ByteIn(name, 0), ByteIn(name, 1), ByteIn(name, 2), ByteIn(name, 3));
            NameWords(name) == if |name| < 4 then [w] else [w] + NameWords(name[4..])
  {
  }

  lemma {:induction false} NameWordsBytes(name: string, k: nat)
    requires Plain(name) && k < 4 * |NameWords(name)|
    ensures ByteAt(NameWords(name), k) == ByteIn(name, k)
    decreases |name|
  {
    hide NameWords;
    NameWordsSplit(name);
    if k >= 4 {
      NameWordsBytes(name[4..], k - 4);
      assert (k - 4) / 4 == k / 4 - 1 && (k - 4) % 4 == k % 4;
      assert NameWords(name)[k / 4] == NameWords(name[4..])[(k - 4) / 4];
      assert ByteIn(name[4..], k - 4) == ByteIn(name, k);
    }
  }

  lemma NameWordsLength(name: string)
    requires Plain(name)
    ensures |NameWords(name)| == |name| / 4 + 1
    decreases |name|
  {
    if |name| >= 4 {
      NameWordsLength(name[4..]);
    }
  }

  lemma NameWordsSpell(name: string)
    requires Plain(name)
    ensures IsName(NameWords(name)) && NameOf(NameWords(name)) == name
  {
    var ws := NameWords(name);
    NameWordsLength(name);
    forall k | 0 <= k < |Chars(ws)|
      ensures Chars(ws)[k] == ByteIn(name, k) as char
    {
      NameWordsBytes(name, k);
    }
    NulIndexUnique(Chars(ws), |name|);
  }

  /** A tree that the format can hold over a given strings block. */
  ghost predicate PropFits(p: PropVal, strings: string) {
    && p.len + 3 < TWO31
    && |p.value| == ValueWords(p.len)
    && (p.name == "#address-cells" || p.name == "#size-cells" ==> 1 <= |p.value|)
    && exists off: u32 :: SpelledAt(strings, off, p.name)
  }

  ghost predicate Fits(f: Forest, strings: string) {
    match f
    case Nil => true
    case Cons(t, rest) =>
      && Plain(t.name)
      && (forall i :: 0 <= i < |t.props| ==> PropFits(t.props[i], strings))
      && Fits(t.kids, strings)
      && Fits(rest, strings)
  }

  /** A place for a property's name in the strings block. */
  lemma PlaceName(p: PropVal, strings: string) returns (off: u32)
    requires PropFits(p, strings)
    ensures off <= |strings| && PropName(strings, off) == p.name
    ensures p.len + 3 < TWO31 && |p.value| == ValueWords(p.len) && (IsCellCount(p.name) ==> 1 <= |p.value|)
  {
    hide CStr, SpelledAt;
    off :| SpelledAt(strings, off, p.name);
    SpelledWithin(strings, off, p.name);
    CStrSpelled(strings, off, p.name);
  }

  lemma SpelledWithin(s: string, off: nat, t: string)
    requires SpelledAt(s, off, t)
    ensures off <= |s|
  {
  }

  lemma LayProps(ps: seq<PropVal>, strings: string, rest: Body) returns (b: Body)
    requires forall i :: 0 <= i < |ps| ==> PropFits(ps[i], strings)
    requires WellFormed(rest, strings) && NoProps(rest)
    ensures WellFormed(b, strings) && Props(b, strings) == ps && Kids(b, strings) == Kids(rest, strings)
    ensures |Encode(b)| == PropWords(ps) + |Encode(rest)|
    decreases |ps|
  {
    hide PropFits, IsCellCount, PropName;
    if ps == [] {
      b := rest;
      NoPropsMeansNone(rest, strings);
    } else {
      var p := ps[0];
      var off := PlaceName(p, strings);
      var tail := LayProps(ps[1..], strings, rest);
      b := Prop(Raw(p.len), Raw(off), p.value, tail);
    }
  }

  /** Every tree that the format can hold has a layout over any strings block with its property names; so a scan
      result for all layouts is one for all trees. */
  lemma {:induction false} EveryTreeHasLayout(f: Forest, strings: string) returns (b: Body)
    requires Fits(f, strings)
    ensures WellFormed(b, strings) && NoProps(b) && Kids(b, strings) == f
    ensures |Encode(b)| == StructWords(f)
    decreases f
  {
    match f
    case Nil => b := Body.Done;
    case Cons(t, rest) =>
      var kids := EveryTreeHasLayout(t.kids, strings);
      var body := LayProps(t.props, strings, kids);
      var tail := EveryTreeHasLayout(rest, strings);
      NameWordsSpell(t.name);
      NameWordsLength(t.name);
      b := Sub(NameWords(t.name), body, tail);
  }

  // ---- blobs ----

  /** The header (section 5.2) of a blob with `n` structure words and `k` strings words, for readers of some version
      on. */
  function Header(n: nat, k: nat, version: u32): (ws: seq<Word>)
    requires 4 * (15 + n + k) < TWO32
    ensures |ws| == 10
  {
    [Word(0xD0, 0x0D, 0xFE, 0xED), Raw(4 * (15 + n + k)), Raw(56), Raw(4 * (15 + n)), Raw(40), Raw(version),
     Raw(version), Raw(0), Raw(4 * k), Raw(4 * (n + 1))]
  }

  const FDT_END: byte := 9

  /** Section 5.1: the header, an empty memory reservation block, the structure block and the strings block. */
  function BlobOf(b: Body, strings: seq<Word>, version: u32): seq<Word>
    requires 4 * (15 + |Encode(b)| + |strings|) < TWO32
  {
    Header(|Encode(b)|, |strings|, version) + seq(4, _ => Token(0)) + Encode(b) + [Token(FDT_END)] + strings
  }

  /** A blob with `b` as its structure block and these strings, which a scan understands up to version 17. */
  ghost predicate Presents(blob: seq<Word>, b: Body, strings: seq<Word>, version: u32) {
    && LaysOut(blob, b) && Ordered(blob, b) && StringsBlock(blob) == Chars(strings)
    && (Understood(blob) <==> version <= 17)
  }

  lemma BlobLaysOut(b: Body, strings: seq<Word>, version: u32)
    requires 4 * (15 + |Encode(b)| + |strings|) < TWO32
    requires WellFormed(b, Chars(strings))
    ensures Presents(BlobOf(b, strings, version), b, strings, version)
  {
    MagicWord();
    hide Encode, WellFormed, Raw, Be, Chars, FDT_MAGIC, FDT_VERSION;
    var blob, n := BlobOf(b, strings, version), |Encode(b)|;
    var header := Header(n, |strings|, version);
    assert forall i :: 0 <= i < 10 ==> blob[i] == header[i];
    assert blob[14..14 + n] == Encode(b);
    assert blob[14 + n] == Token(FDT_END);
    assert blob[15 + n..] == strings;
    CharsFrom(blob, 15 + n);
  }

  lemma MagicWord()
    ensures Be(Word(0xD0, 0x0D, 0xFE, 0xED)) == FDT_MAGIC && FDT_VERSION == 17
  {
  }

  lemma CharsFrom(ws: seq<Word>, k: nat)
    requires k <= |ws|
    ensures Chars(ws)[4 * k..] == Chars(ws[k..])
  {
    var a, b := Chars(ws)[4 * k..], Chars(ws[k..]);
    forall i | 0 <= i < |b|
      ensures a[i] == b[i]
    {
      assert (4 * k + i) / 4 == k + i / 4 && (4 * k + i) % 4 == i % 4;
      assert ws[k..][i / 4] == ws[k + i / 4];
    }
  }

  /** How many words the structure of a forest takes, without NOPs. */
  function StructWords(f: Forest): nat {
    match f
    case Nil => 0
    case Cons(t, rest) => 2 + |t.name| / 4 + 1 + PropWords(t.props) + StructWords(t.kids) + StructWords(rest)
  }

  function PropWords(ps: seq<PropVal>): nat {
    if ps == [] then 0 else 3 + |ps[0].value| + PropWords(ps[1..])
  }

  /** Every tree that the format can hold is the tree of some blob: what is proved about scanning all blobs is about
      scanning all trees. */
  lemma EveryTreeHasBlob(f: Forest, strings: seq<Word>, version: u32) returns (blob: seq<Word>, b: Body)
    requires Fits(f, Chars(strings))
    requires 4 * (15 + StructWords(f) + |strings|) < TWO32
    ensures Presents(blob, b, strings, version) && NoProps(b)
    ensures WellFormed(b, Chars(strings)) && Kids(b, Chars(strings)) == f
  {
    hide *;
    b := EveryTreeHasLayout(f, Chars(strings));
    blob := BlobOf(b, strings, version);
    BlobLaysOut(b, strings, version);
  }

  // ---- one node, word by word ----

  /** A node "ab" with two properties and a NOP between them, the second property with its name at offset 2; and a node
      "c" inside. */
  function ExampleWords(): seq<Word> {
    [Word(0, 0, 0, 1), Word(97, 98, 0, 0),
     Word(0, 0, 0, 3), Word(0, 0, 0, 4), Word(0, 0, 0, 0), Word(0, 0, 0, 8),
     Word(0, 0, 0, 4),
     Word(0, 0, 0, 3), Word(0, 0, 0, 1), Word(0, 0, 0, 2), Word(9, 0, 0, 0),
     Word(0, 0, 0, 1), Word(99, 0, 0, 0), Word(0, 0, 0, 2),
     Word(0, 0, 0, 2)]
  }

  function ExampleInner(): Body {
    Sub([Word(99, 0, 0, 0)], Body.Done, Body.Done)
  }

  function ExampleSecond(): Body {
    Nop(Prop(Word(0, 0, 0, 1), Word(0, 0, 0, 2), [Word(9, 0, 0, 0)], ExampleInner()))
  }

  function ExampleBody(): Body {
    Sub([Word(97, 98, 0, 0)], Prop(Word(0, 0, 0, 4), Word(0, 0, 0, 0), [Word(0, 0, 0, 8)], ExampleSecond()), Body.Done)
  }

  lemma ExampleName(ws: seq<Word>, name: string)
    requires |ws| == 1 && |name| < 4 && Plain(name)
    requires forall k :: 0 <= k < 4 ==> ByteAt(ws, k) == ByteIn(name, k)
    ensures IsName(ws) && NameOf(ws) == name
  {
    NulIndexUnique(Chars(ws), |name|);
  }

  lemma ExampleStrings()
    ensures PropName("p\0q\0", 0) == "p" && PropName("p\0q\0", 2) == "q"
  {
    CStrSpelled("p\0q\0", 0, "p");
    CStrSpelled("p\0q\0", 2, "q");
  }

  lemma ExampleMeans(strings: string)
    requires |strings| == 4 && PropName(strings, 0) == "p" && PropName(strings, 2) == "q"
    ensures WellFormed(ExampleBody(), strings)
    ensures Kids(ExampleBody(), strings)
            == Cons(Tree("ab", [PropVal("p", 4, [Word(0, 0, 0, 8)]), PropVal("q", 1, [Word(9, 0, 0, 0)])],
                         Cons(Tree("c", [], Nil), Nil)),
                    Nil)
  {
    hide IsName, NameOf, PropName;
    ExampleName([Word(97, 98, 0, 0)], "ab");
    ExampleName([Word(99, 0, 0, 0)], "c");
    assert WellFormed(Body.Done, strings) && Kids(Body.Done, strings) == Nil && Props(Body.Done, strings) == [];
    assert WellFormed(ExampleInner(), strings) && Kids(ExampleInner(), strings) == Cons(Tree("c", [], Nil), Nil);
    assert Props(ExampleInner(), strings) == [];
    var second := ExampleSecond().rest;
    assert WellFormed(second, strings) && Kids(second, strings) == Kids(ExampleInner(), strings);
    assert WellFormed(ExampleSecond(), strings) && Kids(ExampleSecond(), strings) == Kids(ExampleInner(), strings);
    assert Props(ExampleSecond(), strings) == [PropVal("q", 1, [Word(9, 0, 0, 0)])];
  }

  lemma ExampleEncoded()
    ensures Encode(ExampleBody()) == ExampleWords()
  {
    assert Encode(ExampleInner()) == [Word(0, 0, 0, 1), Word(99, 0, 0, 0), Word(0, 0, 0, 2)];
    assert Encode(ExampleSecond())
           == [Word(0, 0, 0, 4), Word(0, 0, 0, 3), Word(0, 0, 0, 1), Word(0, 0, 0, 2), Word(9, 0, 0, 0)]
              + Encode(ExampleInner());
  }

  /** These words lay out this tree over the strings "p" and "q". */
  lemma Example()
    ensures Encode(ExampleBody()) == ExampleWords()
    ensures WellFormed(ExampleBody(), "p\0q\0")
    ensures Kids(ExampleBody(), "p\0q\0")
            == Cons(Tree("ab", [PropVal("p", 4, [Word(0, 0, 0, 8)]), PropVal("q", 1, [Word(9, 0, 0, 0)])],
                         Cons(Tree("c", [], Nil), Nil)),
                    Nil)
  {
    hide *;
    ExampleEncoded();
    ExampleStrings();
    ExampleMeans("p\0q\0");
  }
}
