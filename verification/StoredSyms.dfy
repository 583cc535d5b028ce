/**
 src/mem_scan.c:149-178 and src/elf_utils.c:150-297: what the elf_sym rows hold after a scan, and where each stands,
 said on the process.
 */
module StoredSyms {
  import opened Tables
  import opened ElfSymbols
  import opened SymbolRows
  import opened MemScan
  import StoredRows

  /** The number of rows the binaries first met among the first n blocks bring. */
  function SeenNames(p: Process, n: nat): nat
    requires n <= |p.blocks|
  {
    if n == 0 then 0
    else SeenNames(p, n - 1) + if IsFirst(p.blocks, n - 1) then ElfNames(p.elfOf(p.blocks[n - 1].path)) else 0
  }

  lemma SymStep(p: Process, m: nat, n: nat)
    requires n == m + 1 <= |p.blocks|
    ensures var b := p.blocks[m];
            SymRows(p, Firsts(p.blocks, n)) ==
            SymRows(p, Firsts(p.blocks, m))
            + if IsFirst(p.blocks, m) then ElfRows(p.elfOf(b.path), b.path, b.start) else []
  {
    hide IsFirst, ElfRows;
    StoredRows.FirstsStep(p.blocks, n);
  }

  lemma {:induction false} SymRowsSize(p: Process, n: nat)
    requires n <= |p.blocks|
    ensures |SymRows(p, Firsts(p.blocks, n))| == SeenNames(p, n)
  {
    hide IsFirst, ElfRows, ElfNames;
    if n > 0 {
      var m, b := n - 1, p.blocks[n - 1];
      SymStep(p, m, n);
      SymRowsSize(p, m);
      ElfRowsSize(p.elfOf(b.path), b.path, b.start);
    }
  }

  /** The rows of a binary met last stand behind those of the others. */
  lemma LastBinaryAt(p: Process, l: nat, n: nat, k: nat, sym: Symbol)
    requires n == l + 1 <= |p.blocks| && IsFirst(p.blocks, l)
    requires var b := p.blocks[l]; StoredAt(ElfRows(p.elfOf(b.path), b.path, b.start), k, sym, b.path, b.start)
    ensures var b := p.blocks[l];
            StoredAt(SymRows(p, Firsts(p.blocks, n)), SeenNames(p, l) + k, sym, b.path, b.start)
  {
    var b := p.blocks[l];
    SymStep(p, l, n);
    SymRowsSize(p, l);
    hide IsFirst, ElfRows, StoredAt;
    StoredBehind(
      SymRows(p, Firsts(p.blocks, l)), ElfRows(p.elfOf(b.path), b.path, b.start), k, sym, b.path, b.start);
  }

  lemma OneMoreBlock(p: Process, m: nat, n: nat, k: nat, sym: Symbol, source: string, base: nat)
    requires n == m + 1 <= |p.blocks| && StoredAt(SymRows(p, Firsts(p.blocks, m)), k, sym, source, base)
    ensures StoredAt(SymRows(p, Firsts(p.blocks, n)), k, sym, source, base)
  {
    var b := p.blocks[m];
    var rows := if IsFirst(p.blocks, m) then ElfRows(p.elfOf(b.path), b.path, b.start) else [];
    SymStep(p, m, n);
    hide IsFirst, ElfRows, StoredAt;
    StoredInFront(SymRows(p, Firsts(p.blocks, m)), rows, k, sym, source, base);
  }

  lemma {:induction false} SymRowAt(p: Process, n: nat, l: nat, k: nat, sym: Symbol)
    requires l < n <= |p.blocks| && IsFirst(p.blocks, l)
    requires var b := p.blocks[l]; StoredAt(ElfRows(p.elfOf(b.path), b.path, b.start), k, sym, b.path, b.start)
    ensures var b := p.blocks[l];
            StoredAt(SymRows(p, Firsts(p.blocks, n)), SeenNames(p, l) + k, sym, b.path, b.start)
  {
    hide IsFirst, ElfRows, StoredAt;
    if l == n - 1 {
      LastBinaryAt(p, l, n, k, sym);
    } else {
      var m, at := n - 1, SeenNames(p, l) + k;
      SymRowAt(p, m, l, k, sym);
      OneMoreBlock(p, m, n, at, sym, p.blocks[l].path, p.blocks[l].start);
    }
  }

  /** All rows a scan adds, and the number of those before the binary that block l is the first of. */
  function AddedSyms(p: Process): seq<SymRow> { SymRows(p, Firsts(p.blocks, |p.blocks|)) }

  function BeforeBinary(p: Process, l: nat): nat
    requires l <= |p.blocks|
  {
    SeenNames(p, l)
  }

  lemma AddedAt(p: Process, l: nat, k: nat, sym: Symbol)
    requires l < |p.blocks| && IsFirst(p.blocks, l)
    requires var b := p.blocks[l]; StoredAt(ElfRows(p.elfOf(b.path), b.path, b.start), k, sym, b.path, b.start)
    ensures var b := p.blocks[l]; StoredAt(AddedSyms(p), BeforeBinary(p, l) + k, sym, b.path, b.start)
  {
    hide IsFirst, ElfRows, StoredAt;
    SymRowAt(p, |p.blocks|, l, k, sym);
  }

  /** The elf_sym table after a scan, from any contents: its size, and that nothing in it is touched. */
  lemma SymTableSize(p: Process, c: Contents)
    ensures var syms := ScanContents(p, c).syms;
            syms[..|c.syms|] == c.syms && |syms| == |c.syms| + SeenNames(p, |p.blocks|)
    ensures ScanContents(p, c).syms == c.syms + AddedSyms(p)
  {
    assert p.blocks[..|p.blocks|] == p.blocks;
    SeenExact(p.blocks, |p.blocks|);
    hide SymRows, Seen, Firsts, HasPath, IsFirst;
    SymRowsSize(p, |p.blocks|);
  }

  /** Symbol i of the visited section t of the binary that block l is the first of is to be stored. */
  predicate IsSymbol(p: Process, l: nat, t: nat, i: nat) {
    && l < |p.blocks| && IsFirst(p.blocks, l) && p.elfOf(p.blocks[l].path).headerOk
    && IsStored(Visited(p.elfOf(p.blocks[l].path).sections), t, i)
  }

  function SymbolOf(p: Process, l: nat, t: nat, i: nat): Symbol
    requires IsSymbol(p, l, t, i)
  {
    Visited(p.elfOf(p.blocks[l].path).sections)[t].symbols[i]
  }

  /** Where it stands among the rows of its binary. */
  function PlaceIn(p: Process, l: nat, t: nat, i: nat): nat
    requires IsSymbol(p, l, t, i)
  {
    PlaceOf(p.elfOf(p.blocks[l].path), t, i)
  }

  /** Its row stands behind those of earlier binaries, tables and symbols. Its base is the start of the block. */
  ghost predicate SymbolAt(p: Process, syms: seq<SymRow>, first: nat, l: nat, t: nat, i: nat)
    requires IsSymbol(p, l, t, i)
  {
    StoredAt(
      syms, first + (BeforeBinary(p, l) + PlaceIn(p, l, t, i)), SymbolOf(p, l, t, i),
      p.blocks[l].path, p.blocks[l].start)
  }

  lemma PlacedInElf(p: Process, l: nat, t: nat, i: nat)
    requires IsSymbol(p, l, t, i)
    ensures var b := p.blocks[l];
            StoredAt(
              ElfRows(p.elfOf(b.path), b.path, b.start), PlaceIn(p, l, t, i), SymbolOf(p, l, t, i), b.path, b.start)
  {
    hide StoredAt, ElfRows, PlaceOf;
    ElfRowAt(p.elfOf(p.blocks[l].path), p.blocks[l].path, p.blocks[l].start, t, i);
  }

  lemma PlacedSymbol(p: Process, l: nat, t: nat, i: nat)
    requires IsSymbol(p, l, t, i)
    ensures StoredAt(
              AddedSyms(p), BeforeBinary(p, l) + PlaceIn(p, l, t, i), SymbolOf(p, l, t, i),
              p.blocks[l].path, p.blocks[l].start)
  {
    PlacedInElf(p, l, t, i);
    hide IsFirst, StoredAt, IsStored, ElfRows, PlaceIn, SymbolOf, AddedSyms, BeforeBinary;
    AddedAt(p, l, PlaceIn(p, l, t, i), SymbolOf(p, l, t, i));
  }

  lemma BehindOthers(p: Process, before: seq<SymRow>, rows: seq<SymRow>, l: nat, t: nat, i: nat)
    requires IsSymbol(p, l, t, i) && rows == AddedSyms(p)
    ensures SymbolAt(p, before + rows, |before|, l, t, i)
  {
    PlacedSymbol(p, l, t, i);
    hide IsFirst, StoredAt, IsStored, PlaceIn, SymbolOf, AddedSyms, BeforeBinary;
    var k := BeforeBinary(p, l) + PlaceIn(p, l, t, i);
    StoredBehind(before, rows, k, SymbolOf(p, l, t, i), p.blocks[l].path, p.blocks[l].start);
  }

  /** The elf_sym table after a scan, from any contents: every symbol is stored behind the rows that were there. */
  lemma SymRowsExact(p: Process, c: Contents, l: nat, t: nat, i: nat)
    requires IsSymbol(p, l, t, i)
    ensures SymbolAt(p, ScanContents(p, c).syms, |c.syms|, l, t, i)
  {
    hide ScanContents, IsSymbol, SymbolAt, AddedSyms;
    SymTableSize(p, c);
    BehindOthers(p, c.syms, AddedSyms(p), l, t, i);
  }
}
