/**
 src/elf_utils.c: get_elf_info walks the sections of a binary and stores the named symbols of
 its symbol tables. The statement text is flushed when the symbol index in the current
 table is a multiple of 200 and its name resolves; what is left is carried to the next table.
 */
module ElfSymbols {
  import opened Text
  import opened Hex
  import opened RowText
  import opened Tables

  const BATCH: nat := 200

  /** A symbol; name is NULL when elf_strptr fails, the three class texts are opaque. */
  datatype Symbol = Symbol(
    name: Option<SqlText>, value: nat, isFunc: bool, shndx: SqlText, kind: SqlText, bind: SqlText)

  datatype SectionKind = DynSym | SymTab | Other

  /** The .plt and .got addresses and sizes remembered for one binary. */
  datatype SpecialSections = SpecialSections(pltAddr: nat, pltSize: nat, gotAddr: nat, gotSize: nat, path: SqlText)

  /** What calloc leaves: "%s" prints a NULL path as (null). */
  const NO_SECTIONS: SpecialSections := SpecialSections(0, 0, 0, 0, "(null)")

  /**
   A section. captured is the content of ssect_captured after the section is looked at, which the
   code leaves uninitialised except for .plt and .got: it is an input here.
   */
  datatype Section = Section(kind: SectionKind, symbols: seq<Symbol>, captured: SpecialSections)

  /** headerOk is false when the ELF header or the section-name index cannot be read. */
  datatype Elf = Elf(headerOk: bool, sections: seq<Section>)

  // ---- which symbols are to be stored ----

  predicate IsTable(s: Section) { s.kind.DynSym? || s.kind.SymTab? }

  predicate HasKind(sections: seq<Section>, kind: SectionKind) {
    exists i :: 0 <= i < |sections| && sections[i].kind == kind
  }

  /** The walk is over after these sections: both kinds of table have been seen. */
  predicate BothSeen(sections: seq<Section>) { HasKind(sections, DynSym) && HasKind(sections, SymTab) }

  /** The address stored: Morello marks functions in the low bit, which is cleared before adding the base. */
  function SymbolAddress(sym: Symbol, base: nat): nat {
    (base + if sym.isFunc then sym.value - sym.value % 2 else sym.value) % WORD
  }

  /**
   The stored address is base plus value modulo 2^64 with the low bit of a function's value taken out: at an
   even base a function's address is even, and anything else keeps its address.
   */
  lemma SymbolAddressExact(sym: Symbol, base: nat)
    ensures SymbolAddress(sym, base) < WORD
    ensures (SymbolAddress(sym, base) + if sym.isFunc then sym.value % 2 else 0) % WORD == (base + sym.value) % WORD
    ensures sym.isFunc ==> SymbolAddress(sym, base) % 2 == base % 2
  {
  }

  function SymRowOf(sym: Symbol, source: SqlText, base: nat): (r: SymRow)
    requires sym.name.Some?
    ensures SymQuotable(r)
  {
    SymRow(
      source, sym.name.value, PrintHex(sym.value), sym.shndx, sym.kind, sym.bind, PrintHex(SymbolAddress(sym, base)))
  }

  /** The rows of the named symbols of one table, in order. */
  function NamedRows(symbols: seq<Symbol>, source: SqlText, base: nat): (rows: seq<SymRow>)
    ensures |rows| <= |symbols|
    ensures forall i :: 0 <= i < |rows| ==> SymQuotable(rows[i])
  {
    if symbols == [] then []
    else
      var last := symbols[|symbols| - 1];
      NamedRows(symbols[..|symbols| - 1], source, base)
      + if last.name.Some? then [SymRowOf(last, source, base)] else []
  }

  function SectionRows(s: Section, source: SqlText, base: nat): seq<SymRow> {
    if IsTable(s) then NamedRows(s.symbols, source, base) else []
  }

  /** The rows of the symbol tables among the sections, in order. */
  function TableRows(sections: seq<Section>, source: SqlText, base: nat): seq<SymRow> {
    if sections == [] then []
    else TableRows(sections[..|sections| - 1], source, base) + SectionRows(sections[|sections| - 1], source, base)
  }

  /** The sections the walk visits: up to and with the one that completes both kinds. */
  function Visited(sections: seq<Section>): (v: seq<Section>)
    ensures v <= sections
  {
    if sections == [] then []
    else
      var before := Visited(sections[..|sections| - 1]);
      if BothSeen(before) then before else sections
  }

  lemma BothSeenMonotone(v: seq<Section>, w: seq<Section>)
    requires v <= w
    ensures BothSeen(v) ==> BothSeen(w)
  {
  }

  /** The walk stops right after the first section with which both kinds have been seen, or at the end. */
  lemma {:induction false} VisitedExact(sections: seq<Section>)
    ensures Visited(sections) <= sections
    ensures BothSeen(Visited(sections)) <==> BothSeen(sections)
    ensures !BothSeen(sections) ==> Visited(sections) == sections
    ensures forall k :: 0 <= k < |Visited(sections)| ==> !BothSeen(sections[..k])
  {
    if sections != [] {
      var before := sections[..|sections| - 1];
      VisitedExact(before);
      BothSeenMonotone(Visited(before), sections);
      forall k | 0 <= k < |Visited(sections)|
        ensures !BothSeen(sections[..k])
      {
        if k < |Visited(before)| {
          assert before[..k] == sections[..k];
        } else {
          BothSeenMonotone(sections[..k], before);
        }
      }
    }
  }

  /** The visited sections are the first k when these complete both kinds, or are all, and fewer do not. */
  lemma VisitedIs(sections: seq<Section>, k: nat)
    requires k <= |sections| && (BothSeen(sections[..k]) || k == |sections|)
    requires !BothSeen(sections[..k]) || !BothSeen(sections[..k - 1])
    ensures Visited(sections) == sections[..k]
  {
    VisitedExact(sections);
    var v := Visited(sections);
    if |v| < k {
      BothSeenMonotone(v, sections[..k - 1]);
      BothSeenMonotone(sections[..k - 1], sections[..k]);
    }
  }

  // ---- batches ----

  function Flatten(batches: seq<seq<SymRow>>): seq<SymRow> {
    if batches == [] then [] else Flatten(batches[..|batches| - 1]) + batches[|batches| - 1]
  }

  lemma FlattenSnoc(batches: seq<seq<SymRow>>, rows: seq<SymRow>, before: seq<SymRow>)
    ensures Flatten(batches + [rows]) == Flatten(batches) + rows
    ensures before + Flatten(batches + [rows]) == before + Flatten(batches) + rows
  {
    assert (batches + [rows])[..|batches|] == batches;
  }

  predicate Small(batches: seq<seq<SymRow>>) { forall i :: 0 <= i < |batches| ==> |batches[i]| <= BATCH }

  function SymText(rows: seq<SymRow>): Option<string> { TextOf(Encode(rows, SymFields)) }

  lemma SymTextSnoc(rows: seq<SymRow>, row: SymRow)
    ensures RowText.Accumulate(SymText(rows), RenderRow(SymFields(row))) == SymText(rows + [row])
  {
    EncodeSnoc(rows, row, SymFields);
    AccumulateRow(Encode(rows, SymFields), SymFields(row));
  }

  lemma SymTextEmpty(rows: seq<SymRow>)
    requires forall i :: 0 <= i < |rows| ==> SymQuotable(rows[i])
    ensures SymText(rows).None? <==> rows == []
    ensures rows != [] ==> RowsIn(SymText(rows).value, FieldsSym) == rows
  {
    if rows != [] { SymTextInserts(rows); }
  }

  /** The statements executed so far, as lists of rows, and the rows in the pending text. */
  datatype Buffer = Buffer(flushed: seq<seq<SymRow>>, pending: seq<SymRow>) {
    /** All rows handed over so far. */
    function Rows(): seq<SymRow> { Flatten(flushed) + pending }

    predicate Bounded() { Small(flushed) && |pending| < BATCH }

    /** After the INSERT of the pending text, which is skipped when the text is NULL. */
    function Flush(): Buffer { if pending == [] then this else Buffer(flushed + [pending], []) }
  }

  const NO_ROWS: Buffer := Buffer([], [])

  /** After symbol i of a table: an unnamed one is passed over before the index is looked at. */
  function Stored(b: Buffer, i: nat, sym: Symbol, source: SqlText, base: nat): Buffer {
    if sym.name.None? then b
    else
      var c := b.(pending := b.pending + [SymRowOf(sym, source, base)]);
      if i % BATCH == 0 then c.Flush() else c
  }

  function StoredTable(b: Buffer, symbols: seq<Symbol>, source: SqlText, base: nat): Buffer {
    if symbols == [] then b
    else
      var n := |symbols| - 1;
      Stored(StoredTable(b, symbols[..n], source, base), n, symbols[n], source, base)
  }

  function StoredSection(b: Buffer, s: Section, source: SqlText, base: nat): Buffer {
    if IsTable(s) then StoredTable(b, s.symbols, source, base) else b
  }

  function StoredSections(b: Buffer, sections: seq<Section>, source: SqlText, base: nat): Buffer {
    if sections == [] then b
    else
      var n := |sections| - 1;
      StoredSection(StoredSections(b, sections[..n], source, base), sections[n], source, base)
  }

  /** The batches get_elf_info executes. */
  function Batches(elf: Elf, source: SqlText, base: nat): seq<seq<SymRow>> {
    if elf.headerOk then StoredSections(NO_ROWS, Visited(elf.sections), source, base).Flush().flushed else []
  }

  function ElfRows(elf: Elf, source: SqlText, base: nat): seq<SymRow> {
    if elf.headerOk then TableRows(Visited(elf.sections), source, base) else []
  }

  lemma FlushKeepsRows(b: Buffer)
    ensures b.Flush().Rows() == b.Rows() && b.Flush().pending == []
  {
    FlattenSnoc(b.flushed, b.pending, []);
    assert Flatten(b.flushed) + [] == Flatten(b.flushed);
  }

  lemma {:induction false} StoredTableRows(b: Buffer, symbols: seq<Symbol>, source: SqlText, base: nat)
    ensures StoredTable(b, symbols, source, base).Rows() == b.Rows() + NamedRows(symbols, source, base)
  {
    hide SymRowOf;
    if symbols != [] {
      var n := |symbols| - 1;
      var before := StoredTable(b, symbols[..n], source, base);
      StoredTableRows(b, symbols[..n], source, base);
      if symbols[n].name.Some? {
        var row := SymRowOf(symbols[n], source, base);
        var c := before.(pending := before.pending + [row]);
        assert c.Rows() == before.Rows() + [row];
        FlushKeepsRows(c);
      }
    }
  }

  lemma {:induction false} StoredSectionsRows(b: Buffer, sections: seq<Section>, source: SqlText, base: nat)
    ensures StoredSections(b, sections, source, base).Rows() == b.Rows() + TableRows(sections, source, base)
  {
    if sections != [] {
      var n := |sections| - 1;
      var before := StoredSections(b, sections[..n], source, base);
      StoredSectionsRows(b, sections[..n], source, base);
      if IsTable(sections[n]) { StoredTableRows(before, sections[n].symbols, source, base); }
    }
  }

  /** Nothing is lost, repeated or reordered: the batches put together are the named symbols of the visited tables. */
  lemma BatchesExact(elf: Elf, source: SqlText, base: nat)
    ensures Flatten(Batches(elf, source, base)) == ElfRows(elf, source, base)
  {
    if elf.headerOk {
      var b := StoredSections(NO_ROWS, Visited(elf.sections), source, base);
      StoredSectionsRows(NO_ROWS, Visited(elf.sections), source, base);
      FlushKeepsRows(b);
      assert Flatten(b.Flush().flushed) + [] == Flatten(b.Flush().flushed);
      assert NO_ROWS.Rows() == [];
    }
  }

  // ---- get_elf_info ----

  /** The statement text and its row counter; ghost: the rows in the text and the batches flushed so far. */
  class Batcher {
    const db: Database
    ghost const start: Contents
    var values: Option<string> // insert_syms_query_values
    var index: nat             // query_values_index
    ghost var buffer: Buffer

    /** The text holds the pending rows, the database what it held at the start and the flushed batches. */
    ghost predicate Valid()
      reads this, db
    {
      && values == SymText(buffer.pending) && index == |buffer.pending|
      && (forall i :: 0 <= i < |buffer.pending| ==> SymQuotable(buffer.pending[i]))
      && db.Now() == start.(syms := start.syms + Flatten(buffer.flushed))
    }

    constructor (db: Database)
      ensures Valid() && this.db == db && start == db.Now() && buffer == NO_ROWS
    {
      this.db, start := db, db.Now();
      values, index, buffer := None, 0, NO_ROWS;
      assert db.syms + [] == db.syms;
    }

    method Append(row: SymRow)
      requires Valid() && SymQuotable(row)
      modifies this
      ensures Valid() && buffer == old(buffer).(pending := old(buffer.pending) + [row])
    {
      SymTextEmpty(buffer.pending);
      SymTextSnoc(buffer.pending, row);
      var val := RenderRow(SymFields(row));
      if index == 0 {
        values := Some(val);
      } else {
        values := Some(values.value + "," + val);
      }
      index := index + 1;
      buffer := buffer.(pending := buffer.pending + [row]);
    }

    /** Inserts the pending rows with one statement; nothing when the text is NULL. */
    method Flush()
      requires Valid()
      modifies this, db
      ensures Valid() && buffer == old(buffer).Flush()
    {
      hide SymText, SymQuotable, Flatten;
      SymTextEmpty(buffer.pending);
      SymTextEmpty([]);
      FlattenSnoc(buffer.flushed, buffer.pending, start.syms);
      if values.Some? {
        db.InsertSyms(values.value);
        values, index := None, 0;
        buffer := Buffer(buffer.flushed + [buffer.pending], []);
      }
    }

    /** The symbol loop over one table. */
    method StoreTable(symbols: seq<Symbol>, source: SqlText, base: nat)
      requires Valid()
      modifies this, db
      ensures Valid() && buffer == StoredTable(old(buffer), symbols, source, base)
    {
      hide SymText, SymRowOf;
      var i := 0;
      while i < |symbols|
        invariant i <= |symbols| && Valid()
        invariant buffer == StoredTable(old(buffer), symbols[..i], source, base)
      {
        var sym := symbols[i];
        assert symbols[..i + 1][..i] == symbols[..i];
        if sym.name.Some? {
          Append(SymRowOf(sym, source, base));
          if i % BATCH == 0 {
            Flush();
          }
        }
        i := i + 1;
      }
      assert symbols[..i] == symbols;
    }

    /** One turn of the section loop: a symbol table is stored, any other section passed over. */
    method StoreSection(shdr: Section, source: SqlText, base: nat)
      requires Valid()
      modifies this, db
      ensures Valid() && buffer == StoredSection(old(buffer), shdr, source, base)
    {
      if shdr.kind == DynSym || shdr.kind == SymTab {
        StoreTable(shdr.symbols, source, base);
      }
    }
  }

  function LastCaptured(v: seq<Section>, source: SqlText): SpecialSections {
    if v == [] then NO_SECTIONS else v[|v| - 1].captured.(path := source)
  }

  /** The record kept for a binary: the last visited section's, with the binary's path. */
  function SpecialOf(elf: Elf, source: SqlText): SpecialSections {
    if elf.headerOk then LastCaptured(Visited(elf.sections), source) else NO_SECTIONS
  }

  /** The section loop: stops at the section that completes both kinds of table. */
  method WalkSections(
    b: Batcher, sections: seq<Section>, source: SqlText, base: nat, ssect: array<SpecialSections>, ssectIndex: nat)
    requires ssectIndex < ssect.Length && ssect[ssectIndex] == NO_SECTIONS
    requires b.Valid() && b.buffer == NO_ROWS
    modifies b, b.db, ssect
    ensures b.Valid() && b.buffer == StoredSections(NO_ROWS, Visited(sections), source, base)
    ensures ssect[..] == old(ssect[..])[ssectIndex := SpecialOf(Elf(true, sections), source)]
  {
    hide StoredSections, StoredSection, Visited, SymText, HasKind;
    NoSections(sections, source, base);
    var seenDynsym, seenSymtab := false, false;
    var i := 0;
    while i < |sections|
      invariant i <= |sections| && b.Valid()
      invariant seenDynsym == HasKind(sections[..i], DynSym) && seenSymtab == HasKind(sections[..i], SymTab)
      invariant !BothSeen(sections[..i])
      invariant b.buffer == StoredSections(NO_ROWS, sections[..i], source, base)
      invariant ssect[..] == old(ssect[..])[ssectIndex := LastCaptured(sections[..i], source)]
    {
      var shdr := sections[i];
      TurnStep(sections, i, source, base);
      ssect[ssectIndex] := shdr.captured.(path := source);
      if shdr.kind == DynSym {
        seenDynsym := true;
      }
      if shdr.kind == SymTab {
        seenSymtab := true;
      }
      b.StoreSection(shdr, source, base);
      i := i + 1;
      if seenDynsym && seenSymtab {
        VisitedIs(sections, i);
        return;
      }
    }
    VisitedIs(sections, i);
  }

  lemma NoSections(sections: seq<Section>, source: SqlText, base: nat)
    ensures StoredSections(NO_ROWS, sections[..0], source, base) == NO_ROWS
    ensures !HasKind(sections[..0], DynSym) && !HasKind(sections[..0], SymTab)
  {
  }

  lemma TurnStep(sections: seq<Section>, i: nat, source: SqlText, base: nat)
    requires i < |sections|
    ensures StoredSections(NO_ROWS, sections[..i + 1], source, base) ==
            StoredSection(StoredSections(NO_ROWS, sections[..i], source, base), sections[i], source, base)
    ensures forall kind ::
              HasKind(sections[..i + 1], kind) <==> HasKind(sections[..i], kind) || sections[i].kind == kind
  {
    assert sections[..i + 1][..i] == sections[..i];
    KindStep(sections, i);
  }

  lemma KindStep(sections: seq<Section>, i: nat)
    requires i < |sections|
    ensures forall kind ::
              HasKind(sections[..i + 1], kind) <==> HasKind(sections[..i], kind) || sections[i].kind == kind
  {
    assert sections[..i + 1][i] == sections[i];
    forall kind | HasKind(sections[..i], kind)
      ensures HasKind(sections[..i + 1], kind)
    {
      var k :| 0 <= k < i && sections[..i][k].kind == kind;
      assert sections[..i + 1][k].kind == kind;
    }
  }

  /** Executes exactly the batches of the visited tables, and records the special sections. */
  method GetElfInfo(db: Database, elf: Elf, source: SqlText, base: nat, ssect: array<SpecialSections>, ssectIndex: nat)
    returns (ghost batches: seq<seq<SymRow>>)
    requires ssectIndex < ssect.Length && ssect[ssectIndex] == NO_SECTIONS
    modifies db, ssect
    ensures batches == Batches(elf, source, base)
    ensures db.Now() == old(db.Now()).(syms := old(db.syms) + ElfRows(elf, source, base))
    ensures ssect[..] == old(ssect[..])[ssectIndex := SpecialOf(elf, source)]
  {
    hide ElfRows;
    BatchesExact(elf, source, base);
    if elf.headerOk {
      batches := StoreSections(db, elf.sections, source, base, ssect, ssectIndex);
    } else {
      batches := [];
      assert db.syms + [] == db.syms;
    }
  }

  /** get_elf_info past the header checks: the walk and the last flush. */
  method StoreSections(
    db: Database, sections: seq<Section>, source: SqlText, base: nat, ssect: array<SpecialSections>, ssectIndex: nat)
    returns (ghost batches: seq<seq<SymRow>>)
    requires ssectIndex < ssect.Length && ssect[ssectIndex] == NO_SECTIONS
    modifies db, ssect
    ensures batches == StoredSections(NO_ROWS, Visited(sections), source, base).Flush().flushed
    ensures db.Now() == old(db.Now()).(syms := old(db.syms) + Flatten(batches))
    ensures ssect[..] == old(ssect[..])[ssectIndex := LastCaptured(Visited(sections), source)]
  {
    hide StoredSections, Visited, LastCaptured, SymText;
    var b := new Batcher(db);
    WalkSections(b, sections, source, base, ssect, ssectIndex);
    b.Flush();
    batches := b.buffer.flushed;
  }
}
