/** src/elf_utils.c:212-278: where the row of each named symbol of a binary stands, and what it holds. */
module SymbolRows {
  import opened Text
  import opened Hex
  import opened Tables
  import opened ElfSymbols

  /** The columns stored for a named symbol of a binary. */
  predicate SymHolds(r: SymRow, sym: Symbol, source: string, base: nat) {
    && sym.name.Some?
    && r.source == source && r.name == sym.name.value && r.value == PrintHex(sym.value)
    && r.shndx == sym.shndx && r.kind == sym.kind && r.bind == sym.bind
    && r.addr == PrintHex((base + sym.value - (if sym.isFunc then sym.value % 2 else 0)) % WORD)
  }

  lemma SymRowHolds(sym: Symbol, source: SqlText, base: nat)
    requires sym.name.Some?
    ensures SymHolds(SymRowOf(sym, source, base), sym, source, base)
  {
    hide PrintHex;
  }

  /** The number of named symbols among the first n. */
  function Names(symbols: seq<Symbol>, n: nat): nat
    requires n <= |symbols|
  {
    if n == 0 then 0 else Names(symbols, n - 1) + if symbols[n - 1].name.Some? then 1 else 0
  }

  lemma {:induction false} NamedRowAt(symbols: seq<Symbol>, n: nat, source: SqlText, base: nat, i: nat)
    requires i < n <= |symbols|
    ensures |NamedRows(symbols[..n], source, base)| == Names(symbols, n)
    ensures symbols[i].name.Some? ==>
              && Names(symbols, i) < Names(symbols, n)
              && SymHolds(NamedRows(symbols[..n], source, base)[Names(symbols, i)], symbols[i], source, base)
  {
    hide SymRowOf, SymHolds;
    assert symbols[..n][..n - 1] == symbols[..n - 1];
    if symbols[n - 1].name.Some? { SymRowHolds(symbols[n - 1], source, base); }
    if n > 1 { NamedRowAt(symbols, n - 1, source, base, if i < n - 1 then i else 0); }
    if n == 1 { assert NamedRows(symbols[..0], source, base) == []; }
  }

  /** The number of names in the symbol tables among the first n sections. */
  function TableNames(sections: seq<Section>, n: nat): nat
    requires n <= |sections|
  {
    if n == 0 then 0
    else
      var s := sections[n - 1];
      TableNames(sections, n - 1) + if s.kind == DynSym || s.kind == SymTab then Names(s.symbols, |s.symbols|) else 0
  }

  lemma NamedRowsSize(symbols: seq<Symbol>, source: SqlText, base: nat)
    ensures |NamedRows(symbols, source, base)| == Names(symbols, |symbols|)
  {
    assert symbols[..|symbols|] == symbols;
    if symbols != [] { NamedRowAt(symbols, |symbols|, source, base, 0); }
  }

  /** Symbol i of section t is in a symbol table and has a name. */
  predicate IsStored(sections: seq<Section>, t: nat, i: nat) {
    && t < |sections| && (sections[t].kind == DynSym || sections[t].kind == SymTab)
    && i < |sections[t].symbols| && sections[t].symbols[i].name.Some?
  }

  lemma TableStep(sections: seq<Section>, n: nat, source: SqlText, base: nat)
    requires 0 < n <= |sections|
    ensures var s := sections[n - 1];
            TableRows(sections[..n], source, base) ==
            TableRows(sections[..n - 1], source, base)
            + if s.kind == DynSym || s.kind == SymTab then NamedRows(s.symbols, source, base) else []
  {
    assert sections[..n][..n - 1] == sections[..n - 1];
  }

  lemma {:induction false} TableRowsSize(sections: seq<Section>, n: nat, source: SqlText, base: nat)
    requires n <= |sections|
    ensures |TableRows(sections[..n], source, base)| == TableNames(sections, n)
  {
    hide NamedRows, Names;
    if n > 0 {
      TableStep(sections, n, source, base);
      TableRowsSize(sections, n - 1, source, base);
      NamedRowsSize(sections[n - 1].symbols, source, base);
    }
  }

  /** Row k is there and is that of the symbol. */
  ghost predicate StoredAt(rows: seq<SymRow>, k: nat, sym: Symbol, source: string, base: nat) {
    k < |rows| && SymHolds(rows[k], sym, source, base)
  }

  lemma StoredInFront(a: seq<SymRow>, b: seq<SymRow>, k: nat, sym: Symbol, source: string, base: nat)
    requires StoredAt(a, k, sym, source, base)
    ensures StoredAt(a + b, k, sym, source, base)
  {
    hide SymHolds;
  }

  lemma StoredBehind(a: seq<SymRow>, b: seq<SymRow>, k: nat, sym: Symbol, source: string, base: nat)
    requires StoredAt(b, k, sym, source, base)
    ensures StoredAt(a + b, |a| + k, sym, source, base)
  {
    hide SymHolds;
  }

  /** The same in a list that is a front and the rows. */
  lemma StoredIn(
    all: seq<SymRow>, at: nat, front: seq<SymRow>, rows: seq<SymRow>, k: nat, sym: Symbol, source: string, base: nat)
    requires all == front + rows && at == |front| + k && StoredAt(rows, k, sym, source, base)
    ensures StoredAt(all, at, sym, source, base)
  {
    hide StoredAt;
    StoredBehind(front, rows, k, sym, source, base);
  }

  /** The rows of the last section stand behind those of the others. */
  lemma LastSectionAt(sections: seq<Section>, t: nat, n: nat, source: SqlText, base: nat, i: nat)
    requires n == t + 1 <= |sections| && IsStored(sections, t, i)
    ensures StoredAt(
              TableRows(sections[..n], source, base), TableNames(sections, t) + Names(sections[t].symbols, i),
              sections[t].symbols[i], source, base)
  {
    var s, before := sections[t], TableRows(sections[..t], source, base);
    var all, rows := TableRows(sections[..n], source, base), NamedRows(s.symbols, source, base);
    var k, at := Names(s.symbols, i), TableNames(sections, t) + Names(s.symbols, i);
    TableStep(sections, n, source, base);
    assert all == before + rows;
    TableRowsSize(sections, t, source, base);
    assert at == |before| + k;
    LastTableRow(s.symbols, source, base, i);
    hide StoredAt, SymHolds, TableRows, NamedRows, TableNames, Names;
    StoredIn(all, at, before, rows, k, s.symbols[i], source, base);
  }

  lemma OneMoreSection(sections: seq<Section>, m: nat, n: nat, source: SqlText, base: nat, k: nat, sym: Symbol)
    requires n == m + 1 <= |sections| && StoredAt(TableRows(sections[..m], source, base), k, sym, source, base)
    ensures StoredAt(TableRows(sections[..n], source, base), k, sym, source, base)
  {
    var s := sections[m];
    var rows := if s.kind == DynSym || s.kind == SymTab then NamedRows(s.symbols, source, base) else [];
    TableStep(sections, n, source, base);
    hide StoredAt, SymHolds, NamedRows;
    StoredInFront(TableRows(sections[..m], source, base), rows, k, sym, source, base);
  }

  lemma {:induction false} TableRowAt(sections: seq<Section>, n: nat, source: SqlText, base: nat, t: nat, i: nat)
    requires t < n <= |sections| && IsStored(sections, t, i)
    ensures StoredAt(
              TableRows(sections[..n], source, base), TableNames(sections, t) + Names(sections[t].symbols, i),
              sections[t].symbols[i], source, base)
  {
    hide StoredAt, SymHolds;
    if t == n - 1 {
      LastSectionAt(sections, t, n, source, base, i);
    } else {
      var m, k := n - 1, TableNames(sections, t) + Names(sections[t].symbols, i);
      TableRowAt(sections, m, source, base, t, i);
      OneMoreSection(sections, m, n, source, base, k, sections[t].symbols[i]);
    }
  }

  lemma LastTableRow(symbols: seq<Symbol>, source: SqlText, base: nat, i: nat)
    requires i < |symbols| && symbols[i].name.Some?
    ensures StoredAt(NamedRows(symbols, source, base), Names(symbols, i), symbols[i], source, base)
  {
    assert symbols[..|symbols|] == symbols;
    NamedRowAt(symbols, |symbols|, source, base, i);
  }

  /** The number of rows a binary brings. */
  function ElfNames(elf: Elf): nat {
    if elf.headerOk then TableNames(Visited(elf.sections), |Visited(elf.sections)|) else 0
  }

  /** Where symbol i of the visited section t stands among the rows of its binary. */
  function PlaceOf(elf: Elf, t: nat, i: nat): nat
    requires IsStored(Visited(elf.sections), t, i)
  {
    TableNames(Visited(elf.sections), t) + Names(Visited(elf.sections)[t].symbols, i)
  }

  /** The rows of a binary: every named symbol of the visited tables has its place. */
  lemma ElfRowAt(elf: Elf, source: SqlText, base: nat, t: nat, i: nat)
    requires elf.headerOk && IsStored(Visited(elf.sections), t, i)
    ensures StoredAt(ElfRows(elf, source, base), PlaceOf(elf, t, i), Visited(elf.sections)[t].symbols[i], source, base)
  {
    hide StoredAt, SymHolds, Visited, TableRows, TableNames, Names;
    var v := Visited(elf.sections);
    assert v[..|v|] == v;
    TableRowAt(v, |v|, source, base, t, i);
  }

  lemma ElfRowsSize(elf: Elf, source: SqlText, base: nat)
    ensures |ElfRows(elf, source, base)| == ElfNames(elf)
  {
    hide TableRows, Visited;
    var v := Visited(elf.sections);
    assert v[..|v|] == v;
    TableRowsSize(v, |v|, source, base);
  }
}
