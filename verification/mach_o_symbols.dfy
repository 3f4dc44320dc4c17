/** The symbol tables of a Mach-O file, their names, and the addresses of the symbol stubs. */
module MachOSymbols {
  import opened Bytes
  import opened Reading
  import opened MachOSpec
  import opened MachO
  import opened MachORoundTrip

  datatype Symbol = Symbol(index: nat, value: nat, name: seq<Byte>)

  // ---------------------------------------------------------------------------------------------
  // Reading the tables
  // ---------------------------------------------------------------------------------------------

  function EntryWidths(h: Layout): seq<nat> { [4, 1, 1, 2, h.Word()] }

  function SymbolAt(b: seq<Byte>, pos: nat, h: Layout): Result<Symbol> {
    match FieldsAt(b, pos, EntryWidths(h), h.e)
    case Failed => Failed
    case Ok(v, next) => Ok(Symbol(v[0], v[4], []), next)
  }

  function SymbolsAt(b: seq<Byte>, pos: nat, h: Layout, n: nat): Result<seq<Symbol>>
    decreases n
  {
    if n == 0 then Ok([], pos)
    else
      match SymbolAt(b, pos, h)
      case Failed => Failed
      case Ok(s, next) => Prepend([s], SymbolsAt(b, next, h, n - 1))
  }

  method ReadSymbol(r: Reader, h: Layout) returns (ok: bool, symbol: Symbol)
    requires r.endianness == h.e
    modifies r`pos
    ensures var was := SymbolAt(r.bytes, old(r.pos), h);
      ok == was.Ok? && (ok ==> Ok(symbol, r.pos) == was && r.pos == old(r.pos) + 8 + h.Word())
  {
    hide FieldsAt;
    symbol := Symbol(0, 0, []);
    var valid, v := ReadFields(r, EntryWidths(h));
    if !valid { return false, symbol; }
    EntrySize(r.bytes, old(r.pos), h);
    symbol := Symbol(v[0], v[4], []);
    ok := true;
  }

  method ReadSymbols(r: Reader, h: Layout, symoff: nat, symnum: nat) returns (ok: bool, symbols: seq<Symbol>, size: nat)
    requires r.endianness == h.e
    modifies r`pos
    ensures var was := SymbolsAt(r.bytes, symoff, h, symnum);
      && ok == was.Ok?
      && (ok ==> Ok(symbols, r.pos) == was && size == Total(symnum, 8 + h.Word()))
  {
    hide SymbolAt, Total;
    r.Seek(symoff);
    symbols, size := [], 0;
    ghost var all := SymbolsAt(r.bytes, symoff, h, symnum);
    PrependNothing(all);
    TotalStep(0, 8 + h.Word());
    for i := 0 to symnum
      invariant all == Prepend(symbols, SymbolsAt(r.bytes, r.pos, h, symnum - i))
      invariant size == Total(i, 8 + h.Word())
    {
      var pos := r.pos;
      var valid, symbol := ReadSymbol(r, h);
      if !valid { return false, symbols, size; }
      PrependTwice(symbols, [symbol], SymbolsAt(r.bytes, r.pos, h, symnum - (i + 1)));
      symbols := symbols + [symbol];
      TotalStep(i, 8 + h.Word());
      size := (size + (r.pos - pos)) % TWO32;
    }
    assert symbols + [] == symbols;
    ok := true;
  }

  /** The size of `n` entries, in 32 bits. */
  function Total(n: nat, size: nat): nat {
    (n * size) % TWO32
  }

  lemma TotalStep(i: nat, w: nat)
    ensures Total(0, w) == 0 && (Total(i, w) + w) % TWO32 == Total(i + 1, w)
  {
    assert (i + 1) * w == i * w + w;
    ModuloSum(i * w, w);
  }

  lemma ModuloSum(x: nat, y: nat)
    ensures (x % TWO32 + y) % TWO32 == (x + y) % TWO32
  {
  }

  lemma EntrySize(b: seq<Byte>, pos: nat, h: Layout)
    requires FieldsAt(b, pos, EntryWidths(h), h.e).Ok?
    ensures FieldsAt(b, pos, EntryWidths(h), h.e).pos == pos + 8 + h.Word()
  {
    var w := h.Word();
    FieldsEnd(b, pos, EntryWidths(h), h.e);
    assert [4, 1, 1, 2, w][1..] == [1, 1, 2, w] && [1, 1, 2, w][1..] == [1, 2, w];
    assert [1, 2, w][1..] == [2, w] && [2, w][1..] == [w] && [w][1..] == [];
    assert EntryWidths(h)[1..] == [1, 1, 2, w];
    assert TotalWidth([w]) == w;
    assert TotalWidth([2, w]) == 2 + w && TotalWidth([1, 2, w]) == 3 + w;
    assert TotalWidth([1, 1, 2, w]) == 4 + w;
  }

  // ---------------------------------------------------------------------------------------------
  // Names
  // ---------------------------------------------------------------------------------------------

  /** The bytes before the first zero byte. */
  function UntilZero(b: seq<Byte>): seq<Byte> {
    if b == [] || b[0] == 0 then [] else [b[0]] + UntilZero(b[1..])
  }

  /** The name that starts at `index` of a string table. */
  function NameAt(data: seq<Byte>, index: nat): seq<Byte> {
    if index >= |data| then [] else UntilZero(data[index..])
  }

  method ReadName(data: seq<Byte>, index: nat) returns (name: seq<Byte>)
    ensures name == NameAt(data, index)
  {
    name := [];
    var i := index;
    while i < |data|
      invariant index <= i && (index < |data| ==> i <= |data|)
      invariant NameAt(data, index) == name + NameAt(data, i)
    {
      if data[i] == 0 { break; }
      assert data[i..][1..] == data[i + 1..];
      assert name + ([data[i]] + NameAt(data, i + 1)) == name + [data[i]] + NameAt(data, i + 1);
      name := name + [data[i]];
      i := i + 1;
    }
  }

  /** A string table of the given names, each closed by a zero byte. */
  function NameTable(names: seq<seq<Byte>>): seq<Byte> {
    if names == [] then [] else names[0] + [0] + NameTable(names[1..])
  }

  function NameOffset(names: seq<seq<Byte>>, k: nat): nat
    requires k <= |names|
  {
    if k == 0 then 0 else |names[0]| + 1 + NameOffset(names[1..], k - 1)
  }

  lemma {:induction false} UntilZeroReadsName(name: seq<Byte>, rest: seq<Byte>)
    requires 0 !in name
    ensures UntilZero(name + [0] + rest) == name
  {
    if name == [] {
      assert ([] + [0] + rest)[0] == 0;
    } else {
      UntilZeroReadsName(name[1..], rest);
      assert (name + [0] + rest)[1..] == name[1..] + [0] + rest;
      assert [name[0]] + name[1..] == name;
    }
  }

  /** Every name of a string table is read back from its offset. */
  lemma {:induction false} NamesReadBack(names: seq<seq<Byte>>, k: nat)
    requires k < |names| && forall i | 0 <= i < |names| :: 0 !in names[i]
    ensures NameOffset(names, k) < |NameTable(names)|
    ensures NameAt(NameTable(names), NameOffset(names, k)) == names[k]
  {
    var rest := NameTable(names[1..]);
    if k == 0 {
      UntilZeroReadsName(names[0], rest);
      assert NameTable(names)[0..] == names[0] + [0] + rest;
    } else {
      NamesReadBack(names[1..], k - 1);
      var from := NameOffset(names[1..], k - 1);
      assert NameTable(names)[|names[0]| + 1 + from..] == rest[from..];
    }
  }

  // ---------------------------------------------------------------------------------------------
  // Merging
  // ---------------------------------------------------------------------------------------------

  method MergeNames(symbols: array<Symbol>, data: seq<Byte>)
    modifies symbols
    ensures forall i | 0 <= i < symbols.Length ::
      symbols[i] == old(symbols[i]).(name := NameAt(data, old(symbols[i]).index))
  {
    for k := 0 to symbols.Length
      invariant forall i | 0 <= i < k :: symbols[i] == old(symbols[i]).(name := NameAt(data, old(symbols[i]).index))
      invariant forall i | k <= i < symbols.Length :: symbols[i] == old(symbols[i])
    {
      var name := ReadName(data, symbols[k].index);
      symbols[k] := symbols[k].(name := name);
    }
  }

  /** Stub number `k` stands for the symbol that the indirect table names there. */
  function Stub(s: Symbol, k: nat, symbols: seq<Symbol>, stubAddr: nat): Symbol {
    if s.index < |symbols|
    then s.(name := symbols[s.index].name, value := (stubAddr + k * 6) % 0x1_0000_0000_0000_0000)
    else s
  }

  method MergeStubs(dynsymbols: array<Symbol>, symbols: seq<Symbol>, stubAddr: nat)
    modifies dynsymbols
    ensures forall i | 0 <= i < dynsymbols.Length ::
      dynsymbols[i] == Stub(old(dynsymbols[i]), i, symbols, stubAddr)
  {
    for k := 0 to dynsymbols.Length
      invariant forall i | 0 <= i < k :: dynsymbols[i] == Stub(old(dynsymbols[i]), i, symbols, stubAddr)
      invariant forall i | k <= i < dynsymbols.Length :: dynsymbols[i] == old(dynsymbols[i])
    {
      var idx := dynsymbols[k].index;
      if idx < |symbols| {
        dynsymbols[k] := dynsymbols[k].(name := symbols[idx].name);
        dynsymbols[k] := dynsymbols[k].(value := (stubAddr + k * 6) % 0x1_0000_0000_0000_0000);
      }
    }
  }

  /** Different stubs of a table that does not wrap around have different addresses, six bytes apart. */
  lemma StubsAreApart(s: Symbol, t: Symbol, i: nat, j: nat, symbols: seq<Symbol>, stubAddr: nat)
    requires i < j && s.index < |symbols| && t.index < |symbols|
    requires stubAddr + j * 6 < 0x1_0000_0000_0000_0000
    ensures Stub(t, j, symbols, stubAddr).value - Stub(s, i, symbols, stubAddr).value == (j - i) * 6
  {
  }
}
