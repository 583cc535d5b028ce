/** src/mem_scan.c:149-314: what the vm rows hold after a scan, column by column, said on the process. */
module StoredRows {
  import opened Text
  import opened Hex
  import opened Tables
  import opened ElfSymbols
  import opened Comparts
  import opened MemScan
  import Rescan
  import EndToEnd

  // ---- the path of a block ----

  /** Block j is the first parsed before block i that starts at the reservation of block i. */
  predicate LoadedAt(blocks: seq<Block>, i: nat, j: int)
    requires i < |blocks|
  {
    && 0 <= j < i && IsFirst(blocks, j) && blocks[j].start == blocks[i].reservation
    && forall k :: 0 <= k < j && IsFirst(blocks, k) ==> blocks[k].start != blocks[i].reservation
  }

  /** A block's own path, else that of the binary loaded at its reservation, else a guess. */
  ghost predicate PathOfBlock(blocks: seq<Block>, i: nat, path: string)
    requires i < |blocks|
  {
    var b := blocks[i];
    && (b.path != "" ==> path == b.path)
    && (b.path == "" ==> forall j :: LoadedAt(blocks, i, j) ==> path == blocks[j].path)
    && (b.path == "" && (forall j :: !LoadedAt(blocks, i, j)) ==>
          path == if b.isGuard then "Guard" else if b.growsDown then "Stack" else "Heap(others)")
  }

  lemma {:induction false} ReservationSnoc(seen: seq<Block>, b: Block, reservation: nat)
    ensures PathOfReservation(seen + [b], reservation) ==
            if PathOfReservation(seen, reservation).Some? then PathOfReservation(seen, reservation)
            else if b.start == reservation then Some(b.path)
            else None
  {
    if seen != [] {
      assert (seen + [b])[1..] == seen[1..] + [b];
      ReservationSnoc(seen[1..], b, reservation);
    }
  }

  lemma FirstsStep(blocks: seq<Block>, n: nat)
    requires 0 < n <= |blocks|
    ensures var before, b := Firsts(blocks, n - 1), blocks[n - 1];
            && Firsts(blocks, n) == (if IsFirst(blocks, n - 1) then before + [b] else before)
            && (before + [b])[..|before|] == before
  {
    hide IsFirst;
  }

  lemma {:induction false} LoadedPath(blocks: seq<Block>, i: nat, n: nat)
    requires n <= i < |blocks|
    ensures var found := PathOfReservation(Firsts(blocks, n), blocks[i].reservation);
            if found.Some? then exists j :: j < n && LoadedAt(blocks, i, j) && found.value == blocks[j].path
            else forall k :: 0 <= k < n && IsFirst(blocks, k) ==> blocks[k].start != blocks[i].reservation
  {
    hide IsFirst;
    if n > 0 {
      FirstsStep(blocks, n);
      LoadedPath(blocks, i, n - 1);
      ReservationSnoc(Firsts(blocks, n - 1), blocks[n - 1], blocks[i].reservation);
    }
  }

  lemma BasePathExact(blocks: seq<Block>, i: nat)
    requires i < |blocks|
    ensures PathOfBlock(blocks, i, BasePath(Seen(blocks[..i + 1]), blocks[i]))
  {
    SeenExact(blocks, i + 1);
    FirstsStep(blocks, i + 1);
    assert blocks[i].path == "" ==> !IsFirst(blocks, i);
    hide Seen, HasPath, IsFirst, Firsts, PathOfReservation;
    LoadedPath(blocks, i, i);
    assert forall j, k :: LoadedAt(blocks, i, j) && LoadedAt(blocks, i, k) ==> j == k;
  }

  // ---- the sections of a block ----

  /** The record of a binary: the captured fields of the last section visited, under the binary's path. */
  ghost predicate RecordIs(p: Process, path: string, s: SpecialSections) {
    var elf := p.elfOf(path);
    var v := Visited(elf.sections);
    if elf.headerOk && v != [] then
      var last := v[|v| - 1].captured;
      && s.pltAddr == last.pltAddr && s.pltSize == last.pltSize
      && s.gotAddr == last.gotAddr && s.gotSize == last.gotSize
      && s.path == path
    else s == SpecialSections(0, 0, 0, 0, "(null)")
  }

  lemma RecordExact(p: Process, b: Block)
    ensures RecordIs(p, b.path, SpecialOfBlock(p, b))
  {
    hide Visited;
  }

  /** Block l is the last one up to block i that was parsed. */
  predicate ParsedLast(blocks: seq<Block>, i: nat, l: int) {
    0 <= l <= i < |blocks| && IsFirst(blocks, l) && forall k :: l < k <= i ==> !IsFirst(blocks, k)
  }

  /** What the code reads as the record of the binary parsed last, for block i. */
  ghost predicate ReadFor(p: Process, i: nat, s: SpecialSections) {
    && (forall l :: ParsedLast(p.blocks, i, l) ==> RecordIs(p, p.blocks[l].path, s))
    && ((forall l :: !ParsedLast(p.blocks, i, l)) ==> s == p.underrun)
  }

  lemma {:induction false} LastFirst(blocks: seq<Block>, i: nat, n: nat)
    requires n <= i + 1 <= |blocks|
    requires forall k :: n <= k <= i ==> !IsFirst(blocks, k)
    ensures var seen := Firsts(blocks, n);
            if seen == [] then forall l :: !ParsedLast(blocks, i, l)
            else exists l :: ParsedLast(blocks, i, l) && seen[|seen| - 1] == blocks[l]
  {
    hide IsFirst;
    if n > 0 {
      if IsFirst(blocks, n - 1) {
        assert ParsedLast(blocks, i, n - 1);
      } else {
        LastFirst(blocks, i, n - 1);
      }
    }
  }

  lemma ReadFromLast(p: Process, i: nat, l: int)
    requires ParsedLast(p.blocks, i, l)
    ensures ReadFor(p, i, SpecialOfBlock(p, p.blocks[l]))
  {
    RecordExact(p, p.blocks[l]);
    OneParsedLast(p.blocks, i);
    hide SpecialOfBlock, RecordIs, IsFirst;
  }

  lemma ReadFromFirsts(p: Process, i: nat)
    requires i < |p.blocks|
    ensures ReadFor(p, i, LastSpecial(p, Firsts(p.blocks, i + 1)))
  {
    var seen := Firsts(p.blocks, i + 1);
    LastFirst(p.blocks, i, i + 1);
    hide ParsedLast, Firsts, SpecialOfBlock, IsFirst;
    if seen == [] {
      assert ReadFor(p, i, p.underrun);
    } else {
      hide ReadFor;
      var l :| ParsedLast(p.blocks, i, l) && seen[|seen| - 1] == p.blocks[l];
      ReadFromLast(p, i, l);
    }
  }

  lemma ReadExact(p: Process, i: nat)
    requires i < |p.blocks|
    ensures ReadFor(p, i, LastSpecial(p, Seen(p.blocks[..i + 1])))
  {
    hide *;
    SeenExact(p.blocks, i + 1);
    ReadFromFirsts(p, i);
  }

  lemma OneParsedLast(blocks: seq<Block>, i: nat)
    ensures forall l, k :: ParsedLast(blocks, i, l) && ParsedLast(blocks, i, k) ==> l == k
  {
    hide IsFirst;
  }

  // ---- the row ----

  ghost predicate PathHolds(p: Process, i: nat, path: string, base: string, s: SpecialSections)
    requires i < |p.blocks|
  {
    var b := p.blocks[i];
    && PathOfBlock(p.blocks, i, base) && ReadFor(p, i, s)
    && path == base
         + (if b.start <= s.pltAddr && s.pltAddr + s.pltSize <= b.end then "(.plt)" else "")
         + (if b.start <= s.gotAddr && s.gotAddr + s.gotSize <= b.end then "(.got)" else "")
  }

  /** The columns of the INSERT for block i. */
  ghost predicate RowHolds(p: Process, i: nat, r: VmRow)
    requires i < |p.blocks|
  {
    var b := p.blocks[i];
    && r.start == PrintHex(b.start) && r.end == PrintHex(b.end)
    && (exists base, s :: PathHolds(p, i, r.path, base, s))
    && r.compartId == Owner(p.links, r.path)
    && r.protection == b.protection && r.flags == b.flags && r.vnodeType == b.vnodeType
  }

  lemma RowOfHolds(p: Process, i: nat)
    requires i < |p.blocks|
    ensures RowHolds(p, i, VmRowOf(p, Seen(p.blocks[..i + 1]), p.blocks[i]))
  {
    var b, seen := p.blocks[i], Seen(p.blocks[..i + 1]);
    BasePathExact(p.blocks, i);
    ReadExact(p, i);
    hide Seen, PathOfBlock, ReadFor, PrintHex, Owner, BasePath, LastSpecial;
    var base, s := BasePath(seen, b), LastSpecial(p, seen);
    SuffixAppended(base, b, s);
    assert PathHolds(p, i, MmapPath(p, seen, b), base, s);
  }

  lemma SuffixAppended(base: string, b: Block, s: SpecialSections)
    ensures base + Suffix(b, s) ==
            base
              + (if b.start <= s.pltAddr && s.pltAddr + s.pltSize <= b.end then "(.plt)" else "")
              + (if b.start <= s.gotAddr && s.gotAddr + s.gotSize <= b.end then "(.got)" else "")
  {
  }

  /** Block l is the last of the first n whose record has the path. */
  predicate LastRecord(p: Process, n: nat, path: string, l: int)
    requires n <= |p.blocks|
  {
    && 0 <= l < n && IsFirst(p.blocks, l) && SpecialOfBlock(p, p.blocks[l]).path == path
    && forall k :: l < k < n && IsFirst(p.blocks, k) ==> SpecialOfBlock(p, p.blocks[k]).path != path
  }

  /** The columns are the printed fields of the record. */
  predicate Shows(columns: Option<SectionColumns>, s: SpecialSections) {
    && columns.Some?
    && columns.value.pltAddr == PrintHex(s.pltAddr) && columns.value.pltSize == PrintHex(s.pltSize)
    && columns.value.gotAddr == PrintHex(s.gotAddr) && columns.value.gotSize == PrintHex(s.gotSize)
  }

  /** The four section columns of a row after the UPDATE pass: those of the last record with its path. */
  ghost predicate Columns(
    p: Process, n: nat, path: string, before: Option<SectionColumns>, after: Option<SectionColumns>)
    requires n <= |p.blocks|
  {
    && (forall l :: LastRecord(p, n, path, l) ==> Shows(after, SpecialOfBlock(p, p.blocks[l])))
    && ((forall l :: !LastRecord(p, n, path, l)) ==> after == before)
  }

  lemma StampedSnoc(p: Process, r: VmRow, seen: seq<Block>, b: Block)
    ensures Rescan.Stamped(r, Specials(p, seen + [b])) ==
            if r.path == SpecialOfBlock(p, b).path then StampRow(r, SpecialOfBlock(p, b))
            else Rescan.Stamped(r, Specials(p, seen))
  {
    hide SpecialOfBlock, StampRow;
    assert Specials(p, seen + [b]) == Specials(p, seen) + [SpecialOfBlock(p, b)];
  }

  /** A row after the UPDATEs of the records of the first n blocks. */
  function Updated(p: Process, n: nat, r: VmRow): VmRow
    requires n <= |p.blocks|
  {
    Rescan.Stamped(r, Specials(p, Firsts(p.blocks, n)))
  }

  lemma UpdatedStep(p: Process, m: nat, n: nat, r: VmRow)
    requires n == m + 1 <= |p.blocks|
    ensures var s := SpecialOfBlock(p, p.blocks[m]);
            Updated(p, n, r) == if IsFirst(p.blocks, m) && s.path == r.path then StampRow(r, s) else Updated(p, m, r)
  {
    FirstsStep(p.blocks, n);
    StampedSnoc(p, r, Firsts(p.blocks, m), p.blocks[m]);
    hide IsFirst, SpecialOfBlock, StampRow;
  }

  lemma StampShows(r: VmRow, s: SpecialSections)
    requires r.path == s.path
    ensures Shows(StampRow(r, s).sections, s)
  {
    hide PrintHex;
  }

  lemma {:induction false} StampedColumns(p: Process, n: nat, r: VmRow)
    requires n <= |p.blocks|
    ensures Columns(p, n, r.path, r.sections, Updated(p, n, r).sections)
  {
    if n > 0 {
      var m := n - 1;
      var s := SpecialOfBlock(p, p.blocks[m]);
      StampedColumns(p, m, r);
      UpdatedStep(p, m, n, r);
      hide Columns, IsFirst, SpecialOfBlock, StampRow, Shows, Updated;
      if IsFirst(p.blocks, m) && s.path == r.path {
        StampShows(r, s);
        ColumnsHit(p, m, n, r.path, r.sections, StampRow(r, s).sections);
      } else {
        ColumnsMissed(p, m, n, r.path, r.sections, Updated(p, m, r).sections);
      }
    }
  }

  /** A record with the path decides. */
  lemma ColumnsHit(
    p: Process, m: nat, n: nat, path: string, before: Option<SectionColumns>, now: Option<SectionColumns>)
    requires n == m + 1 <= |p.blocks| && IsFirst(p.blocks, m) && SpecialOfBlock(p, p.blocks[m]).path == path
    requires Shows(now, SpecialOfBlock(p, p.blocks[m]))
    ensures Columns(p, n, path, before, now)
  {
    LastRecordSnoc(p, m, n, path);
    hide LastRecord, IsFirst, SpecialOfBlock, Shows;
    assert LastRecord(p, n, path, m);
  }

  /** A record with another path leaves the columns. */
  lemma ColumnsMissed(
    p: Process, m: nat, n: nat, path: string, before: Option<SectionColumns>, now: Option<SectionColumns>)
    requires n == m + 1 <= |p.blocks| && !(IsFirst(p.blocks, m) && SpecialOfBlock(p, p.blocks[m]).path == path)
    requires Columns(p, m, path, before, now)
    ensures Columns(p, n, path, before, now)
  {
    LastRecordSnoc(p, m, n, path);
    hide LastRecord, IsFirst, SpecialOfBlock, Shows;
    assert forall l :: LastRecord(p, n, path, l) <==> LastRecord(p, m, path, l);
  }

  lemma LastRecordSnoc(p: Process, m: nat, n: nat, path: string)
    requires n == m + 1 <= |p.blocks|
    ensures var hit := IsFirst(p.blocks, m) && SpecialOfBlock(p, p.blocks[m]).path == path;
            forall l :: LastRecord(p, n, path, l) <==> if hit then l == m else LastRecord(p, m, path, l)
  {
    hide IsFirst, SpecialOfBlock;
  }

  /** A row after the UPDATE pass: nothing but its section columns is changed. */
  ghost predicate Settled(p: Process, row: VmRow, r: VmRow) {
    && r.(sections := None) == row.(sections := None) && r.path == row.path
    && Columns(p, |p.blocks|, row.path, row.sections, r.sections)
  }

  /** Every row passes through it. */
  lemma StoredVm(p: Process, c: Contents, i: nat)
    requires i < |c.vm| + |p.blocks|
    ensures |ScanContents(p, c).vm| == |c.vm| + |p.blocks|
    ensures Settled(p, (c.vm + VmRows(p, p.blocks))[i], ScanContents(p, c).vm[i])
  {
    var n, rows := |p.blocks|, c.vm + VmRows(p, p.blocks);
    var specials := Specials(p, Seen(p.blocks));
    assert p.blocks[..n] == p.blocks;
    SeenExact(p.blocks, n);
    hide Seen, Columns, VmRows, Firsts, HasPath, Specials, CapRows, SymRows, ScanTable, Rescan.Stamped;
    Rescan.StampAllRow(rows, specials, i);
    Rescan.StampedPath(rows[i], specials);
    StampedColumns(p, n, rows[i]);
  }

  /** A row that was there before the scan: its section columns are settled anew, nothing else changes. */
  ghost predicate KeptRow(p: Process, before: VmRow, r: VmRow) {
    r.(sections := None) == before.(sections := None) && Columns(p, |p.blocks|, r.path, before.sections, r.sections)
  }

  /** The row of block i. */
  ghost predicate BlockRow(p: Process, i: nat, r: VmRow)
    requires i < |p.blocks|
  {
    RowHolds(p, i, r) && Columns(p, |p.blocks|, r.path, None, r.sections)
  }

  ghost predicate BlockRowAt(p: Process, vm: seq<VmRow>, first: nat, i: nat)
    requires i < |p.blocks|
  {
    first + i < |vm| && BlockRow(p, i, vm[first + i])
  }

  /** A vm table after a scan: every row that was there, then the row of every block. */
  ghost predicate VmAfter(p: Process, before: seq<VmRow>, vm: seq<VmRow>) {
    && |vm| == |before| + |p.blocks|
    && (forall i :: 0 <= i < |before| ==> KeptRow(p, before[i], vm[i]))
    && (forall i :: 0 <= i < |p.blocks| ==> BlockRowAt(p, vm, |before|, i))
  }

  /** So is the vm table after every scan, from any contents. */
  lemma VmRowsExact(p: Process, c: Contents)
    ensures VmAfter(p, c.vm, ScanContents(p, c).vm)
  {
    hide VmAfter, AllSettled;
    AllStored(p, c);
    AfterSettled(p, c.vm, VmRows(p, p.blocks), ScanContents(p, c).vm);
  }

  ghost predicate AllSettled(p: Process, rows: seq<VmRow>, vm: seq<VmRow>) {
    |vm| == |rows| && forall i :: 0 <= i < |rows| ==> Settled(p, rows[i], vm[i])
  }

  lemma AllStored(p: Process, c: Contents)
    ensures AllSettled(p, c.vm + VmRows(p, p.blocks), ScanContents(p, c).vm)
  {
    var rows, vm := c.vm + VmRows(p, p.blocks), ScanContents(p, c).vm;
    StampAllKeeps(rows, Specials(p, Seen(p.blocks)));
    assert |vm| == |rows|;
    hide ScanContents, Settled;
    forall i | 0 <= i < |rows|
      ensures Settled(p, rows[i], vm[i])
    {
      StoredVm(p, c, i);
    }
  }

  lemma AfterSettled(p: Process, before: seq<VmRow>, inserted: seq<VmRow>, vm: seq<VmRow>)
    requires inserted == VmRows(p, p.blocks) && AllSettled(p, before + inserted, vm)
    ensures VmAfter(p, before, vm)
  {
    hide Settled, KeptRow, BlockRow;
    var rows := before + inserted;
    forall i | 0 <= i < |before|
      ensures KeptRow(p, before[i], vm[i])
    {
      assert Settled(p, rows[i], vm[i]);
      KeptHolds(p, before[i], vm[i]);
    }
    forall i | 0 <= i < |p.blocks|
      ensures BlockRowAt(p, vm, |before|, i)
    {
      Behind(before, inserted, i);
      assert Settled(p, rows[|before| + i], vm[|before| + i]);
      BlockRowFrom(p, i, inserted[i], vm[|before| + i]);
    }
  }

  lemma KeptHolds(p: Process, row: VmRow, r: VmRow)
    requires Settled(p, row, r)
    ensures KeptRow(p, row, r)
  {
    hide Columns;
  }

  lemma Behind<T>(a: seq<T>, b: seq<T>, i: nat)
    requires i < |b|
    ensures (a + b)[|a| + i] == b[i]
  {
  }

  lemma BlockRowFrom(p: Process, i: nat, row: VmRow, r: VmRow)
    requires i < |p.blocks| && row == VmRows(p, p.blocks)[i] && Settled(p, row, r)
    ensures BlockRow(p, i, r)
  {
    InsertedRow(p, i, r);
    hide Columns, RowHolds, VmRows;
  }

  lemma InsertedRow(p: Process, i: nat, r: VmRow)
    requires i < |p.blocks| && r.(sections := None) == VmRows(p, p.blocks)[i].(sections := None)
    ensures RowHolds(p, i, r) && VmRows(p, p.blocks)[i].sections == None
  {
    hide RowHolds, VmRowOf, VmRows, Seen;
    assert p.blocks[..|p.blocks|] == p.blocks;
    RowOfHolds(p, i);
    EndToEnd.VmRowAt(p, |p.blocks|, i);
    RowHoldsFor(p, i, VmRows(p, p.blocks)[i], r);
  }

  lemma RowHoldsFor(p: Process, i: nat, r: VmRow, r': VmRow)
    requires i < |p.blocks| && RowHolds(p, i, r) && r.(sections := None) == r'.(sections := None)
    ensures RowHolds(p, i, r')
  {
    hide PathHolds;
    assert r'.path == r'.(sections := None).path == r.path && r'.start == r'.(sections := None).start == r.start;
  }
}
