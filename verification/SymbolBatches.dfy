/**
 src/elf_utils.c: how many rows the INSERT statements of get_elf_info hold. A flush is tried at every 200th
 symbol of a table, but only when that symbol has a name.
 */
module SymbolBatches {
  import opened Text
  import opened Tables
  import opened ElfSymbols

  // ---- exactly when no batch is longer than 200 ----

  /** What of a symbol decides about the batches: its index in its table, and whether its name resolves. */
  datatype Mark = Mark(index: nat, named: bool)

  predicate Flushes(m: Mark) { m.named && m.index % BATCH == 0 }

  function Marks(symbols: seq<Symbol>): seq<Mark> {
    if symbols == [] then []
    else
      var n := |symbols| - 1;
      Marks(symbols[..n]) + [Mark(n, symbols[n].name.Some?)]
  }

  /** The marks of the symbol tables among the sections, table after table. */
  function TableMarks(sections: seq<Section>): seq<Mark> {
    if sections == [] then []
    else
      var s := sections[|sections| - 1];
      TableMarks(sections[..|sections| - 1]) + if IsTable(s) then Marks(s.symbols) else []
  }

  function NamedIn(ms: seq<Mark>): nat {
    if ms == [] then 0 else NamedIn(ms[..|ms| - 1]) + if ms[|ms| - 1].named then 1 else 0
  }

  /** No stretch without a flush, but perhaps at its last symbol, has more than 200 names. */
  predicate Spaced(ms: seq<Mark>) {
    forall lo, hi :: 0 <= lo < hi <= |ms| && Quiet(ms, lo, hi - 1) ==> NamedIn(ms[lo..hi]) <= BATCH
  }

  predicate Quiet(ms: seq<Mark>, lo: int, hi: int) { forall k :: 0 <= lo <= k < hi <= |ms| ==> !Flushes(ms[k]) }

  /** Where the stretch since the last flush starts. */
  function RunStart(ms: seq<Mark>): (r: nat)
    ensures r <= |ms|
    ensures r > 0 ==> Flushes(ms[r - 1])
    ensures Quiet(ms, r, |ms|)
  {
    if ms == [] then 0
    else if Flushes(ms[|ms| - 1]) then |ms|
    else RunStart(ms[..|ms| - 1])
  }

  lemma {:induction false} NamedInTail(ms: seq<Mark>, lo: nat)
    requires lo <= |ms|
    ensures NamedIn(ms[lo..]) <= NamedIn(ms)
  {
    var n := |ms| - 1;
    if lo <= n {
      NamedInTail(ms[..n], lo);
      assert ms[lo..][..n - lo] == ms[..n][lo..];
    }
  }

  /** One more mark closes exactly one longest stretch. */
  lemma SpacedSnoc(ms: seq<Mark>, m: Mark)
    ensures var more := ms + [m];
            Spaced(more) <==> Spaced(ms) && NamedIn(more[RunStart(ms)..]) <= BATCH
  {
    var more, start := ms + [m], RunStart(ms);
    hide NamedIn, Flushes, RunStart;
    assert forall k :: 0 <= k < |ms| ==> more[k] == ms[k];
    assert Quiet(more, start, |more| - 1);
    if Spaced(more) {
      assert more[start..|more|] == more[start..];
      forall lo, hi | 0 <= lo < hi <= |ms| && Quiet(ms, lo, hi - 1)
        ensures NamedIn(ms[lo..hi]) <= BATCH
      {
        assert Quiet(more, lo, hi - 1);
        assert more[lo..hi] == ms[lo..hi];
      }
    }
    if Spaced(ms) && NamedIn(more[start..]) <= BATCH {
      forall lo, hi | 0 <= lo < hi <= |more| && Quiet(more, lo, hi - 1)
        ensures NamedIn(more[lo..hi]) <= BATCH
      {
        StretchWithin(ms, m, lo, hi);
      }
    }
  }

  lemma StretchWithin(ms: seq<Mark>, m: Mark, lo: nat, hi: nat)
    requires Spaced(ms) && NamedIn((ms + [m])[RunStart(ms)..]) <= BATCH
    requires lo < hi <= |ms| + 1 && Quiet(ms + [m], lo, hi - 1)
    ensures NamedIn((ms + [m])[lo..hi]) <= BATCH
  {
    var more, start := ms + [m], RunStart(ms);
    hide NamedIn, Flushes, RunStart;
    assert forall k :: 0 <= k < |ms| ==> more[k] == ms[k];
    if hi <= |ms| {
      assert Quiet(ms, lo, hi - 1);
      assert more[lo..hi] == ms[lo..hi];
    } else {
      assert start > 0 ==> Flushes(more[start - 1]);
      NamedInTail(more[start..], lo - start);
      assert more[start..][lo - start..] == more[lo..hi];
    }
  }

  /** The buffer after the marked symbols: what is pending, and whether a batch was or is going to be too long. */
  ghost predicate Follows(b: Buffer, ms: seq<Mark>) {
    && |b.pending| == NamedIn(ms[RunStart(ms)..])
    && (Small(b.flushed) && |b.pending| <= BATCH <==> Spaced(ms))
  }

  lemma SmallSnoc(batches: seq<seq<SymRow>>, rows: seq<SymRow>)
    ensures Small(batches + [rows]) <==> Small(batches) && |rows| <= BATCH
  {
    var more := batches + [rows];
    assert more[|batches|] == rows;
    assert forall i :: 0 <= i < |batches| ==> more[i] == batches[i];
  }

  lemma RunSnoc(ms: seq<Mark>, m: Mark)
    ensures var more := ms + [m];
            && RunStart(more) == (if Flushes(m) then |more| else RunStart(ms))
            && NamedIn(more[RunStart(ms)..]) == NamedIn(ms[RunStart(ms)..]) + if m.named then 1 else 0
  {
    var more, start := ms + [m], RunStart(ms);
    assert more[..|ms|] == ms;
    assert more[start..][..|ms| - start] == ms[start..];
  }

  lemma StoredFollows(b: Buffer, ms: seq<Mark>, i: nat, sym: Symbol, source: SqlText, base: nat)
    requires Follows(b, ms)
    ensures Follows(Stored(b, i, sym, source, base), ms + [Mark(i, sym.name.Some?)])
  {
    hide NamedIn, RunStart, Spaced, SymRowOf, Small;
    var m := Mark(i, sym.name.Some?);
    RunSnoc(ms, m);
    SpacedSnoc(ms, m);
    if Flushes(m) {
      var more := ms + [m];
      assert more[|more|..] == [] && NamedIn([]) == 0 by { NoMarks(); }
      SmallSnoc(b.flushed, b.pending + [SymRowOf(sym, source, base)]);
    }
  }

  lemma NoMarks()
    ensures NamedIn([]) == 0 && RunStart([]) == 0 && Spaced([])
  {
  }

  lemma {:induction false} TableFollows(b: Buffer, ms: seq<Mark>, symbols: seq<Symbol>, source: SqlText, base: nat)
    requires Follows(b, ms)
    ensures Follows(StoredTable(b, symbols, source, base), ms + Marks(symbols))
  {
    hide Follows, Stored;
    if symbols == [] {
      assert ms + [] == ms;
    } else {
      var n := |symbols| - 1;
      var before, last := Marks(symbols[..n]), [Mark(n, symbols[n].name.Some?)];
      TableFollows(b, ms, symbols[..n], source, base);
      StoredFollows(StoredTable(b, symbols[..n], source, base), ms + before, n, symbols[n], source, base);
      assert ms + before + last == ms + (before + last);
    }
  }

  lemma {:induction false} SectionsFollow(sections: seq<Section>, source: SqlText, base: nat)
    ensures Follows(StoredSections(NO_ROWS, sections, source, base), TableMarks(sections))
  {
    hide Follows, StoredTable, Marks;
    if sections == [] {
      assert Follows(NO_ROWS, []) by { NothingFollows(); }
    } else {
      var n := |sections| - 1;
      var before, marks := sections[..n], TableMarks(sections[..n]);
      SectionsFollow(before, source, base);
      if IsTable(sections[n]) {
        TableFollows(StoredSections(NO_ROWS, before, source, base), marks, sections[n].symbols, source, base);
      } else {
        assert marks + [] == marks;
      }
    }
  }

  lemma NothingFollows()
    ensures Follows(NO_ROWS, [])
  {
    NoMarks();
  }

  /**
   Every statement holds at most 200 rows if and only if no stretch of symbols without a flush has more than
   200 names: said on the indices of the symbols and on which of them have names, tables put one after another.
   */
  lemma BatchesSmallIff(elf: Elf, source: SqlText, base: nat)
    ensures Small(Batches(elf, source, base)) <==> (elf.headerOk ==> Spaced(TableMarks(Visited(elf.sections))))
  {
    hide Visited, StoredSections, TableMarks, Spaced, Small;
    if elf.headerOk {
      var b := StoredSections(NO_ROWS, Visited(elf.sections), source, base);
      SectionsFollow(Visited(elf.sections), source, base);
      SmallSnoc(b.flushed, b.pending);
    } else {
      NoBatches();
    }
  }

  lemma NoBatches()
    ensures Small([])
  {
  }

  // ---- a condition on the flush points alone, and a batch that is too long ----

  /** Every symbol at an index divisible by 200, where a flush is tried, has a name. */
  predicate FlushPointsResolve(symbols: seq<Symbol>) {
    forall i :: 0 <= i < |symbols| && i % BATCH == 0 ==> symbols[i].name.Some?
  }

  predicate TablesResolve(sections: seq<Section>) {
    forall i :: 0 <= i < |sections| && IsTable(sections[i]) ==> FlushPointsResolve(sections[i].symbols)
  }

  /** Before symbol i no more rows are pending than there were symbols since the last index divisible by 200. */
  predicate InPhase(i: nat, pending: nat) { pending < BATCH && (i > 0 ==> pending <= (i - 1) % BATCH) }

  lemma PhaseStep(i: nat, pending: nat)
    requires InPhase(i, pending)
    ensures i % BATCH == 0 ==> InPhase(i + 1, 0)
    ensures i % BATCH != 0 ==> InPhase(i + 1, pending + 1) && InPhase(i + 1, pending)
  {
  }

  lemma {:induction false} TableBounded(b: Buffer, symbols: seq<Symbol>, source: SqlText, base: nat)
    requires b.Bounded() && FlushPointsResolve(symbols)
    ensures StoredTable(b, symbols, source, base).Bounded()
    ensures InPhase(|symbols|, |StoredTable(b, symbols, source, base).pending|)
  {
    hide SymRowOf;
    if symbols != [] {
      var n := |symbols| - 1;
      TableBounded(b, symbols[..n], source, base);
      PhaseStep(n, |StoredTable(b, symbols[..n], source, base).pending|);
    }
  }

  lemma {:induction false} SectionsBounded(b: Buffer, sections: seq<Section>, source: SqlText, base: nat)
    requires b.Bounded()
    requires TablesResolve(sections)
    ensures StoredSections(b, sections, source, base).Bounded()
  {
    hide FlushPointsResolve;
    if sections != [] {
      var n := |sections| - 1;
      var before := sections[..n];
      assert forall i :: 0 <= i < n ==> before[i] == sections[i];
      SectionsBounded(b, before, source, base);
      if IsTable(sections[n]) {
        TableBounded(StoredSections(b, before, source, base), sections[n].symbols, source, base);
      }
    }
  }

  /** When the symbols at the flush points of the visited tables resolve, no batch is longer than 200. */
  lemma BatchesBounded(elf: Elf, source: SqlText, base: nat)
    requires TablesResolve(Visited(elf.sections))
    ensures Small(Batches(elf, source, base))
  {
    if elf.headerOk { SectionsBounded(NO_ROWS, Visited(elf.sections), source, base); }
  }

  /** Without a name at any flush point nothing is flushed inside the table, however long it is. */
  lemma {:induction false} NeverFlushed(b: Buffer, symbols: seq<Symbol>, source: SqlText, base: nat)
    requires forall i :: 0 <= i < |symbols| && i % BATCH == 0 ==> symbols[i].name.None?
    ensures StoredTable(b, symbols, source, base) == Buffer(b.flushed, b.pending + NamedRows(symbols, source, base))
  {
    hide SymRowOf;
    if symbols != [] { NeverFlushed(b, symbols[..|symbols| - 1], source, base); }
  }

  /** n symbols of which those at the flush points have no name. */
  function Gappy(n: nat, sym: Symbol): seq<Symbol> {
    seq(n, i requires 0 <= i < n => if i % BATCH == 0 then sym.(name := None) else sym)
  }

  lemma {:induction false} GappyRows(n: nat, sym: Symbol, source: SqlText, base: nat)
    requires sym.name.Some?
    ensures |NamedRows(Gappy(n, sym), source, base)| == n - (n + BATCH - 1) / BATCH
  {
    hide SymRowOf;
    if n > 0 {
      assert Gappy(n, sym)[..n - 1] == Gappy(n - 1, sym);
      assert Gappy(n, sym)[n - 1] == if (n - 1) % BATCH == 0 then sym.(name := None) else sym;
      assert (n + BATCH - 1) / BATCH == (n - 1 + BATCH - 1) / BATCH + if (n - 1) % BATCH == 0 then 1 else 0;
      hide Gappy;
      GappyRows(n - 1, sym, source, base);
    }
  }

  /** The condition matters: a table of 203 symbols, two of them unnamed, goes into one batch of 201 rows. */
  lemma LongBatch(sym: Symbol, source: SqlText, base: nat, captured: SpecialSections)
    requires sym.name.Some?
    ensures var batches := Batches(Elf(true, [Section(SymTab, Gappy(203, sym), captured)]), source, base);
            |batches| == 1 && |batches[0]| == 201
  {
    var sections := [Section(SymTab, Gappy(203, sym), captured)];
    assert !HasKind(sections, DynSym);
    VisitedExact(sections);
    GappyRows(203, sym, source, base);
    NeverFlushed(NO_ROWS, Gappy(203, sym), source, base);
    assert sections[..0] == [];
    assert StoredSections(NO_ROWS, sections, source, base) == StoredTable(NO_ROWS, Gappy(203, sym), source, base);
  }
}
