/** Symbol tables and the lookup of kernel/syscall.c, lines 38-63. */
module Symbols {
  import opened Words
  import opened Wrappers
  import opened CText

  const STT_FUNC: nat := 2

  /** `elf_symbol` without the fields that nothing reads. */
  datatype Symbol = Symbol(name: u32, info: byte, value: u64, size: u64)

  /** The symbol part of `struct process_t`: the first `sym_count` symbols, the string table and its size. */
  datatype SymbolTable = SymbolTable(symbols: seq<Symbol>, strtab: string, strtabSize: nat)

  predicate IsFunction(s: Symbol) {
    s.info % 16 == STT_FUNC && s.value != 0
  }

  /** The end of a symbol's range: at least four bytes, in 64-bit arithmetic. */
  function Limit(s: Symbol): u64 {
    (s.value + if s.size != 0 then s.size else 4) % TWO64
  }

  predicate Covers(s: Symbol, vaddr: u64) {
    s.value <= vaddr < Limit(s)
  }

  predicate Resolves(s: Symbol, strtabSize: nat, vaddr: u64) {
    IsFunction(s) && Covers(s, vaddr) && s.name < strtabSize
  }

  /** The name offset of the first symbol that resolves `vaddr`. */
  function Lookup(symbols: seq<Symbol>, strtabSize: nat, vaddr: u64): Option<u32> {
    if symbols == [] then None
    else if Resolves(symbols[0], strtabSize, vaddr) then Some(symbols[0].name)
    else Lookup(symbols[1..], strtabSize, vaddr)
  }

  /** `find_symbol_name`, as an offset into the string table. */
  method FindSymbol(t: SymbolTable, vaddr: u64) returns (name: Option<u32>)
    ensures name == Lookup(t.symbols, t.strtabSize, vaddr)
  {
    if |t.symbols| == 0 || t.strtabSize == 0 {
      NothingResolves(t.symbols, t.strtabSize, vaddr);
      return None;
    }
    var cursor := 0;
    while cursor < |t.symbols|
      invariant cursor <= |t.symbols|
      invariant Lookup(t.symbols, t.strtabSize, vaddr) == Lookup(t.symbols[cursor..], t.strtabSize, vaddr)
    {
      var s := t.symbols[cursor];
      assert t.symbols[cursor..][1..] == t.symbols[cursor + 1..];
      if s.info % 16 == STT_FUNC && s.value != 0 {
        var limit := (s.value + if s.size != 0 then s.size else 4) % TWO64;
        if s.value <= vaddr < limit && s.name < t.strtabSize {
          return Some(s.name);
        }
      }
      cursor := cursor + 1;
    }
    return None;
  }

  lemma NothingResolves(symbols: seq<Symbol>, strtabSize: nat, vaddr: u64)
    requires symbols == [] || strtabSize == 0
    ensures Lookup(symbols, strtabSize, vaddr) == None
  {
  }

  /** The answer is a name of the table whose symbol resolves the address, and there is none only if no symbol does. */
  lemma {:induction false} LookupMeaning(symbols: seq<Symbol>, strtabSize: nat, vaddr: u64)
    ensures var r := Lookup(symbols, strtabSize, vaddr);
            && (r.None? <==> forall i :: 0 <= i < |symbols| ==> !Resolves(symbols[i], strtabSize, vaddr))
            && (r.Some? ==> exists i ::
                  && 0 <= i < |symbols| && Resolves(symbols[i], strtabSize, vaddr) && symbols[i].name == r.value
                  && forall j :: 0 <= j < i ==> !Resolves(symbols[j], strtabSize, vaddr))
  {
    hide Resolves;
    if symbols != [] && !Resolves(symbols[0], strtabSize, vaddr) {
      var rest := symbols[1..];
      LookupMeaning(rest, strtabSize, vaddr);
      assert forall i :: 0 <= i < |rest| ==> rest[i] == symbols[i + 1];
      var r := Lookup(rest, strtabSize, vaddr);
      if r.None? {
        forall i | 0 <= i < |symbols|
          ensures !Resolves(symbols[i], strtabSize, vaddr)
        {
          assert i > 0 ==> symbols[i] == rest[i - 1];
        }
      } else {
        var i :| 0 <= i < |rest| && Resolves(rest[i], strtabSize, vaddr) && rest[i].name == r.value
                 && forall j :: 0 <= j < i ==> !Resolves(rest[j], strtabSize, vaddr);
        forall j | 0 <= j < i + 1
          ensures !Resolves(symbols[j], strtabSize, vaddr)
        {
          assert j > 0 ==> symbols[j] == rest[j - 1];
        }
        assert symbols[i + 1] == rest[i];
      }
    }
  }

  /** No two different symbols that a lookup would consider cover a common address. */
  ghost predicate RangesDisjoint(symbols: seq<Symbol>, strtabSize: nat) {
    forall s, t, a: u64 | s in symbols && t in symbols ::
      Resolves(s, strtabSize, a) && Resolves(t, strtabSize, a) ==> s == t
  }

  /** With disjoint ranges the order of the table does not matter. */
  lemma OrderDoesNotMatter(symbols: seq<Symbol>, symbols': seq<Symbol>, strtabSize: nat, vaddr: u64)
    requires RangesDisjoint(symbols, strtabSize)
    requires multiset(symbols) == multiset(symbols')
    ensures Lookup(symbols, strtabSize, vaddr) == Lookup(symbols', strtabSize, vaddr)
  {
    hide Resolves, Lookup;
    LookupMeaning(symbols, strtabSize, vaddr);
    LookupMeaning(symbols', strtabSize, vaddr);
    assert forall s :: s in symbols <==> s in multiset(symbols);
    assert forall s :: s in symbols' <==> s in multiset(symbols');
  }

  /** Ranges in address order that do not wrap around are disjoint. */
  lemma SeparateRangesDisjoint(symbols: seq<Symbol>, strtabSize: nat)
    requires forall i :: 0 <= i < |symbols| && IsFunction(symbols[i]) ==> symbols[i].value < Limit(symbols[i])
    requires forall i, j :: 0 <= i < j < |symbols| && IsFunction(symbols[i]) && IsFunction(symbols[j]) ==>
                       Limit(symbols[i]) <= symbols[j].value || Limit(symbols[j]) <= symbols[i].value
    ensures RangesDisjoint(symbols, strtabSize)
  {
    hide Limit, IsFunction;
  }

  /** The text of a name. */
  function NameText(t: SymbolTable, offset: u32): string {
    if offset <= |t.strtab| then CStr(t.strtab[offset..]) else ""
  }

  lemma NameTextSpelled(t: SymbolTable, offset: u32, name: string)
    requires offset <= |t.strtab|
    ensures SpelledAt(t.strtab, offset, name) <==> name == NameText(t, offset)
  {
    CStrSpelled(t.strtab, offset, name);
  }

  // ---- the answer, told from the symbols' fields ----

  /** An address inside a function that the table describes: of type STT_FUNC (2), at a nonzero value, at a distance
      below its size, or below 4 if it has none, and with its end inside the address space. */
  predicate IsInside(info: byte, value: u64, size: u64, vaddr: u64) {
    && info % 16 == 2 && value != 0
    && 0 <= vaddr - value < (if size == 0 then 4 else size)
    && value + (if size == 0 then 4 else size) < 0x1_0000_0000_0000_0000
  }

  predicate Answers(s: Symbol, strtabSize: nat, vaddr: u64) {
    IsInside(s.info, s.value, s.size, vaddr) && s.name < strtabSize
  }

  /** The answer for an address is the name of the first function around it with a name in the table, and there is an
      answer for no other address. */
  lemma LookupInFields(symbols: seq<Symbol>, strtabSize: nat, vaddr: u64)
    ensures forall i :: 0 <= i < |symbols| && Answers(symbols[i], strtabSize, vaddr)
                        && (forall j :: 0 <= j < i ==> !Answers(symbols[j], strtabSize, vaddr))
                        ==> Lookup(symbols, strtabSize, vaddr) == Some(symbols[i].name)
    ensures (forall i :: 0 <= i < |symbols| ==> !Answers(symbols[i], strtabSize, vaddr))
            <==> Lookup(symbols, strtabSize, vaddr) == None
  {
    hide Resolves, Answers, Lookup;
    forall i | 0 <= i < |symbols|
      ensures Resolves(symbols[i], strtabSize, vaddr) <==> Answers(symbols[i], strtabSize, vaddr)
    {
      ResolvesIff(symbols[i], strtabSize, vaddr);
    }
    LookupMeaning(symbols, strtabSize, vaddr);
    forall i | 0 <= i < |symbols| && Answers(symbols[i], strtabSize, vaddr)
               && (forall j :: 0 <= j < i ==> !Answers(symbols[j], strtabSize, vaddr))
      ensures Lookup(symbols, strtabSize, vaddr) == Some(symbols[i].name)
    {
      assert Resolves(symbols[i], strtabSize, vaddr);
    }
  }

  lemma ResolvesIff(s: Symbol, strtabSize: nat, vaddr: u64)
    ensures Resolves(s, strtabSize, vaddr) <==> Answers(s, strtabSize, vaddr)
  {
    var end := s.value + if s.size != 0 then s.size else 4;
    assert end < TWO64 ==> Limit(s) == end;
    assert end >= TWO64 ==> Limit(s) == end - TWO64 && Limit(s) < s.value + 4;
  }
}
