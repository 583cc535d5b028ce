/**
 src/mem_scan.c: scan_mem takes the memory map of a process block by block, parses each binary
 once, attributes every block to a path and a compartment, and records its capabilities.
 */
module MemScan {
  import opened Text
  import opened Hex
  import opened RowText
  import opened Tables
  import opened TagScan
  import opened ElfSymbols
  import opened Comparts

  /** A kinfo_vmentry; the three flags stand for the tests on kve_type and kve_flags. */
  datatype Block = Block(
    start: nat, end: nat, path: SqlText, reservation: nat, protection: int, flags: int, vnodeType: int,
    isGuard: bool, growsDown: bool, hasCap: bool)

  const ZERO_BLOCK: Block := Block(0, 0, "", 0, 0, 0, 0, false, false, false)

  /**
   The traced process: memory, ELF files by path, link map, compartment names, memory map.
   underrun is what the code reads at ssect[-1] while no binary has been parsed: anything.
   */
  datatype Process = Process(
    memory: Memory, elfOf: string -> Elf, underrun: SpecialSections,
    links: seq<LinkEntry>, names: seq<Option<string>>, blocks: seq<Block>)

  // ---- the binaries seen ----

  predicate HasPath(seen: seq<Block>, path: string) { exists j :: 0 <= j < |seen| && seen[j].path == path }

  /** The seen table after one more block. */
  function SeenNext(seen: seq<Block>, b: Block): seq<Block> {
    if b.path != "" && !HasPath(seen, b.path) then seen + [b] else seen
  }

  /** The table of seen binaries after a list of blocks. */
  function Seen(blocks: seq<Block>): (s: seq<Block>)
    ensures |s| <= |blocks|
  {
    if blocks == [] then [] else SeenNext(Seen(blocks[..|blocks| - 1]), blocks[|blocks| - 1])
  }

  /** Block i is the first one with its path, and the path is not empty. */
  predicate IsFirst(blocks: seq<Block>, i: nat) {
    i < |blocks| && blocks[i].path != "" && forall j :: 0 <= j < i ==> blocks[j].path != blocks[i].path
  }

  /** The first blocks of all non-empty paths among the first n blocks, in order. */
  function Firsts(blocks: seq<Block>, n: nat): seq<Block>
    requires n <= |blocks|
  {
    if n == 0 then [] else Firsts(blocks, n - 1) + if IsFirst(blocks, n - 1) then [blocks[n - 1]] else []
  }

  /** The seen table is the list of first blocks; its paths are the non-empty paths met, each once. */
  lemma {:induction false} SeenExact(blocks: seq<Block>, n: nat)
    requires n <= |blocks|
    ensures Seen(blocks[..n]) == Firsts(blocks, n)
    ensures forall path :: HasPath(Seen(blocks[..n]), path) <==> path != "" && HasPath(blocks[..n], path)
    ensures DistinctPaths(Seen(blocks[..n]))
  {
    if n > 0 {
      SeenExact(blocks, n - 1);
      FirstIff(blocks, n - 1);
      var before, now, b := blocks[..n - 1], blocks[..n], blocks[n - 1];
      var seen := Seen(before);
      assert now[..n - 1] == before && now == before + [b];
      DistinctSnoc(seen, b);
      hide HasPath, IsFirst, DistinctPaths;
      forall path
        ensures HasPath(Seen(now), path) <==> path != "" && HasPath(now, path)
      {
        HasPathSnoc(before, b, path);
        HasPathSnoc(seen, b, path);
      }
    }
  }

  lemma FirstIff(blocks: seq<Block>, n: nat)
    requires n < |blocks|
    ensures IsFirst(blocks, n) <==> blocks[n].path != "" && !HasPath(blocks[..n], blocks[n].path)
  {
    if HasPath(blocks[..n], blocks[n].path) {
      var j :| 0 <= j < n && blocks[..n][j].path == blocks[n].path;
      assert blocks[j].path == blocks[n].path;
    } else {
      forall j | 0 <= j < n
        ensures blocks[j].path != blocks[n].path
      {
        assert blocks[..n][j] == blocks[j];
      }
    }
  }

  lemma DistinctSnoc(seen: seq<Block>, b: Block)
    requires DistinctPaths(seen)
    ensures DistinctPaths(SeenNext(seen, b))
  {
  }

  predicate DistinctPaths(seen: seq<Block>) { forall i, j :: 0 <= i < j < |seen| ==> seen[i].path != seen[j].path }

  lemma HasPathSnoc(s: seq<Block>, b: Block, path: string)
    ensures HasPath(s + [b], path) <==> HasPath(s, path) || b.path == path
  {
    assert (s + [b])[|s|] == b;
    if HasPath(s, path) {
      var j :| 0 <= j < |s| && s[j].path == path;
      assert (s + [b])[j].path == path;
    }
  }

  /** The growing array of seen binaries. */
  class SeenTable {
    var entries: array<Block> // seen_kivp
    var size: nat             // seen_kivp_buffer_size
    var capacity: nat         // seen_kivp_buffer_capacity
    var index: nat            // seen_index

    ghost predicate Valid()
      reads this, entries
    {
      size == index <= capacity == entries.Length && capacity > 0
    }

    ghost function Contents(): seq<Block>
      requires Valid()
      reads this, entries
    {
      entries[..index]
    }

    constructor ()
      ensures Valid() && fresh(entries) && Contents() == [] && capacity == 100
    {
      entries := new Block[100](_ => ZERO_BLOCK);
      size, capacity, index := 0, 100, 0;
    }

    method Holds(path: string) returns (seen: bool)
      requires Valid()
      ensures seen <==> HasPath(Contents(), path)
    {
      for j := 0 to index
        invariant !HasPath(entries[..j], path)
      {
        if entries[j].path == path {
          assert Contents()[j].path == path;
          return true;
        }
      }
      return false;
    }

    /** The path of the first seen binary that starts at the reservation. */
    method PathAt(reservation: nat) returns (path: Option<SqlText>)
      requires Valid()
      ensures path == PathOfReservation(Contents(), reservation)
    {
      var j := 0;
      while j < index
        invariant j <= index
        invariant PathOfReservation(Contents(), reservation) == PathOfReservation(Contents()[j..], reservation)
      {
        assert Contents()[j..][1..] == Contents()[j + 1..];
        if entries[j].start == reservation {
          return Some(entries[j].path);
        }
        j := j + 1;
      }
      return None;
    }

    /** Doubles a full table, then writes below capacity. */
    method Add(b: Block)
      requires Valid()
      modifies this, entries
      ensures Valid() && Contents() == old(Contents()) + [b]
      ensures entries == old(entries) || fresh(entries)
    {
      if size == capacity {
        capacity := capacity * 2;
        var bigger := new Block[capacity](_ => ZERO_BLOCK);
        for k := 0 to entries.Length
          invariant bigger[..k] == entries[..k]
          modifies bigger
        {
          bigger[k] := entries[k];
        }
        entries := bigger;
      }
      entries[index] := b;
      size := size + 1;
      index := index + 1;
    }
  }

  // ---- attribution ----

  function PathOfReservation(seen: seq<Block>, reservation: nat): Option<SqlText> {
    if seen == [] then None
    else if seen[0].start == reservation then Some(seen[0].path)
    else PathOfReservation(seen[1..], reservation)
  }

  function GuessedPath(b: Block): SqlText {
    if b.isGuard then "Guard" else if b.growsDown then "Stack" else "Heap(others)"
  }

  function BasePath(seen: seq<Block>, b: Block): SqlText {
    if b.path != "" then b.path else PathOfReservation(seen, b.reservation).GetOr(GuessedPath(b))
  }

  predicate Covers(b: Block, addr: nat, size: nat) { b.start <= addr && addr + size <= b.end }

  /** The suffixes for a block that covers the .plt or .got of the binary parsed last. */
  function Suffix(b: Block, s: SpecialSections): (x: SqlText)
    ensures x == "" || x[0] == '('
  {
    (if Covers(b, s.pltAddr, s.pltSize) then "(.plt)" else "") +
    (if Covers(b, s.gotAddr, s.gotSize) then "(.got)" else "")
  }

  /** The appended text tells exactly which of the two sections the block covers. */
  lemma SuffixReadsBack(b: Block, s: SpecialSections)
    ensures var x := Suffix(b, s);
            && (Covers(b, s.pltAddr, s.pltSize) <==> |x| >= 6 && x[..6] == "(.plt)")
            && (Covers(b, s.gotAddr, s.gotSize) <==> |x| >= 6 && x[|x| - 6..] == "(.got)")
            && |x| == (if Covers(b, s.pltAddr, s.pltSize) then 6 else 0) +
                      (if Covers(b, s.gotAddr, s.gotSize) then 6 else 0)
  {
    var x := Suffix(b, s);
    assert "(.plt)"[2] != "(.got)"[2];
    assert |x| >= 6 ==> x[..6][2] == x[2] && x[|x| - 6..][2] == x[|x| - 4];
  }

  function SpecialOfBlock(p: Process, b: Block): SpecialSections { SpecialOf(p.elfOf(b.path), b.path) }

  function Specials(p: Process, seen: seq<Block>): (s: seq<SpecialSections>)
    ensures |s| == |seen|
    ensures forall i :: 0 <= i < |s| ==> s[i] == SpecialOfBlock(p, seen[i])
  {
    if seen == [] then [] else Specials(p, seen[..|seen| - 1]) + [SpecialOfBlock(p, seen[|seen| - 1])]
  }

  /** ssect[ssect_index - 1] */
  function LastSpecial(p: Process, seen: seq<Block>): SpecialSections {
    if seen == [] then p.underrun else SpecialOfBlock(p, seen[|seen| - 1])
  }

  /** The path a block is stored under, seen being the binaries parsed so far, this block's included. */
  function MmapPath(p: Process, seen: seq<Block>, b: Block): SqlText {
    BasePath(seen, b) + Suffix(b, LastSpecial(p, seen))
  }

  /** An anonymous block takes the path of the first seen binary loaded at its reservation, and only then. */
  lemma {:induction false} ReservationExact(seen: seq<Block>, reservation: nat, j: nat)
    requires j <= |seen| && forall i :: 0 <= i < j ==> seen[i].start != reservation
    requires j < |seen| ==> seen[j].start == reservation
    ensures PathOfReservation(seen, reservation) == if j < |seen| then Some(seen[j].path) else None
  {
    if j > 0 {
      assert seen[0].start != reservation;
      assert forall i :: 0 <= i < |seen| - 1 ==> seen[1..][i] == seen[i + 1];
      ReservationExact(seen[1..], reservation, j - 1);
    }
  }

  /** When no link-map path contains '(', the suffixes never change the compartment a block is given. */
  lemma SuffixKeepsCompartment(p: Process, seen: seq<Block>, b: Block)
    requires forall i :: 0 <= i < |p.links| ==> '(' !in p.links[i].path
    ensures Owner(p.links, MmapPath(p, seen, b)) == Owner(p.links, BasePath(seen, b))
  {
    SuffixKeepsOwner(p.links, BasePath(seen, b), Suffix(b, LastSpecial(p, seen)));
  }

  // ---- what a scan adds ----

  function VmRowOf(p: Process, seen: seq<Block>, b: Block): (r: VmRow)
    ensures VmInsertable(r)
  {
    var path := MmapPath(p, seen, b);
    VmRow(PrintHex(b.start), PrintHex(b.end), path, Owner(p.links, path), b.protection, b.flags, b.vnodeType, None)
  }

  /** The addresses recorded from a block: none when it cannot hold capabilities. */
  function CapsOf(p: Process, b: Block): seq<nat> { if b.hasCap then BlockCaps(p.memory, b.start, b.end) else [] }

  function CapRowsOf(p: Process, seen: seq<Block>, b: Block): seq<CapRow> {
    CapRowsAt(p.memory, MmapPath(p, seen, b), CapsOf(p, b))
  }

  function VmRows(p: Process, blocks: seq<Block>): (rows: seq<VmRow>)
    ensures |rows| == |blocks|
    ensures forall i :: 0 <= i < |rows| ==> VmInsertable(rows[i])
  {
    if blocks == [] then []
    else VmRows(p, blocks[..|blocks| - 1]) + [VmRowOf(p, Seen(blocks), blocks[|blocks| - 1])]
  }

  function CapRows(p: Process, blocks: seq<Block>): seq<CapRow> {
    if blocks == [] then []
    else CapRows(p, blocks[..|blocks| - 1]) + CapRowsOf(p, Seen(blocks), blocks[|blocks| - 1])
  }

  /** The symbols of the seen binaries, each parsed once, in first-appearance order. */
  function SymRows(p: Process, seen: seq<Block>): seq<SymRow> {
    if seen == [] then []
    else
      var b := seen[|seen| - 1];
      SymRows(p, seen[..|seen| - 1]) + ElfRows(p.elfOf(b.path), b.path, b.start)
  }

  /** UPDATE vm SET plt_addr, ... WHERE mmap_path = the record's path. */
  function Stamp(rows: seq<VmRow>, s: SpecialSections): (stamped: seq<VmRow>)
    ensures |stamped| == |rows|
    ensures forall i :: 0 <= i < |rows| ==> stamped[i] == StampRow(rows[i], s)
  {
    if rows == [] then [] else Stamp(rows[..|rows| - 1], s) + [StampRow(rows[|rows| - 1], s)]
  }

  function StampRow(row: VmRow, s: SpecialSections): VmRow {
    if row.path == s.path
    then
      row.(sections := Some(SectionColumns(
        PrintHex(s.pltAddr), PrintHex(s.pltSize), PrintHex(s.gotAddr), PrintHex(s.gotSize))))
    else row
  }

  function StampAll(rows: seq<VmRow>, specials: seq<SpecialSections>): seq<VmRow> {
    if specials == [] then rows
    else Stamp(StampAll(rows, specials[..|specials| - 1]), specials[|specials| - 1])
  }

  /** The columns other than the section columns are left alone by the UPDATE pass. */
  lemma {:induction false} StampAllKeeps(rows: seq<VmRow>, specials: seq<SpecialSections>)
    ensures |StampAll(rows, specials)| == |rows|
    ensures forall i :: 0 <= i < |rows| ==>
              var s := StampAll(rows, specials)[i];
              && s.(sections := None) == rows[i].(sections := None)
              && s.path == rows[i].path && s.compartId == rows[i].compartId
              && s.start == rows[i].start && s.end == rows[i].end
  {
    hide PrintHex;
    if specials != [] { StampAllKeeps(rows, specials[..|specials| - 1]); }
  }

  /** The database after a scan. */
  function ScanContents(p: Process, c: Contents): Contents {
    var seen := Seen(p.blocks);
    Contents(
      StampAll(c.vm + VmRows(p, p.blocks), Specials(p, seen)),
      c.caps + CapRows(p, p.blocks),
      c.syms + SymRows(p, seen),
      ScanTable(p.links, p.names, c.comparts))
  }

  // ---- scan_mem ----

  /** The page loop over one block. */
  method ScanPages(db: Database, m: Memory, b: Block, path: SqlText)
    modifies db
    ensures db.Now() == old(db.Now()).(caps := old(db.caps) + CapRowsAt(m, path, BlockCaps(m, b.start, b.end)))
  {
    hide CapRowsAt, CapRowAt, PageCaps;
    ghost var done: seq<nat> := [];
    var start := b.start;
    assert db.caps + [] == db.caps;
    while start < b.end
      invariant done + BlockCaps(m, start, b.end) == BlockCaps(m, b.start, b.end)
      invariant db.Now() == old(db.Now()).(caps := old(db.caps) + CapRowsAt(m, path, done))
      decreases b.end - start
    {
      ghost var page := PageCaps(m, start);
      PageTurn(m, path, start, b.end, done, old(db.caps));
      var _ := GetTags(db, m, start, path);
      done := done + page;
      start := start + 4096;
    }
    assert done + [] == done;
  }

  lemma PageTurn(m: Memory, path: SqlText, start: nat, end: nat, done: seq<nat>, rows: seq<CapRow>)
    requires start < end
    ensures var page := PageCaps(m, start);
            && done + BlockCaps(m, start, end) == done + page + BlockCaps(m, start + PAGE, end)
            && rows + CapRowsAt(m, path, done) + CapRowsAt(m, path, page) == rows + CapRowsAt(m, path, done + page)
  {
    var page := PageCaps(m, start);
    CapRowsConcat(m, path, done, page);
    SeqAssoc(done, page, BlockCaps(m, start + PAGE, end));
    SeqAssoc(rows, CapRowsAt(m, path, done), CapRowsAt(m, path, page));
  }

  lemma SeqAssoc<T>(a: seq<T>, b: seq<T>, c: seq<T>)
    ensures a + b + c == a + (b + c)
  {
  }

  lemma CapRowsConcat(m: Memory, path: SqlText, s: seq<nat>, t: seq<nat>)
    ensures CapRowsAt(m, path, s + t) == CapRowsAt(m, path, s) + CapRowsAt(m, path, t)
  {
    hide CapRowsAt, CapRowAt;
  }

  /** The symbols one more block brings. */
  function NewSyms(p: Process, seen: seq<Block>, b: Block): seq<SymRow> {
    if b.path != "" && !HasPath(seen, b.path) then ElfRows(p.elfOf(b.path), b.path, b.start) else []
  }

  /** The whole array of special sections: the records of the seen binaries, zeroes behind. */
  function Padded(p: Process, seen: seq<Block>, n: nat): (s: seq<SpecialSections>)
    requires |seen| <= n
    ensures |s| == n && s[..|seen|] == Specials(p, seen)
    ensures |seen| < n ==> s[|seen|] == NO_SECTIONS
  {
    Specials(p, seen) + seq(n - |seen|, _ => NO_SECTIONS)
  }

  lemma PaddedNext(p: Process, seen: seq<Block>, b: Block, n: nat)
    requires |seen| < n
    ensures Padded(p, seen, n)[|seen| := SpecialOfBlock(p, b)] == Padded(p, seen + [b], n)
  {
    assert (seen + [b])[..|seen|] == seen;
  }

  /** Looks a non-empty path up among the seen binaries and parses the binary when it is new. */
  method ParseOnce(db: Database, p: Process, seen: SeenTable, ssect: array<SpecialSections>, ssectIndex0: nat, b: Block)
    returns (ssectIndex: nat)
    requires seen.Valid() && ssectIndex0 == |seen.Contents()| < ssect.Length
    requires ssect[..] == Padded(p, seen.Contents(), ssect.Length)
    modifies db, seen, seen.entries, ssect
    ensures seen.Valid() && (seen.entries == old(seen.entries) || fresh(seen.entries))
    ensures seen.Contents() == SeenNext(old(seen.Contents()), b) && ssectIndex == |seen.Contents()| <= ssect.Length
    ensures ssect[..] == Padded(p, seen.Contents(), ssect.Length)
    ensures db.Now() == old(db.Now()).(syms := old(db.syms) + NewSyms(p, old(seen.Contents()), b))
  {
    ssectIndex := ssectIndex0;
    if |b.path| > 0 {
      var known := seen.Holds(b.path);
      if !known {
        PaddedNext(p, seen.Contents(), b, ssect.Length);
        seen.Add(b);
        ghost var batches := GetElfInfo(db, p.elfOf(b.path), b.path, b.start, ssect, ssectIndex);
        ssectIndex := ssectIndex + 1;
        return;
      }
    }
    assert db.syms + [] == db.syms;
  }

  /** The path of a block without suffix: its own, a seen binary's, or a guess. */
  method FindPath(seen: SeenTable, b: Block) returns (mmapPath: SqlText)
    requires seen.Valid()
    ensures mmapPath == BasePath(seen.Contents(), b)
  {
    if |b.path| == 0 {
      var found := seen.PathAt(b.reservation);
      if found.Some? {
        mmapPath := found.value;
      } else if b.isGuard {
        mmapPath := "Guard";
      } else if b.growsDown {
        mmapPath := "Stack";
      } else {
        mmapPath := "Heap(others)";
      }
    } else {
      mmapPath := b.path;
    }
  }

  method AppendSuffixes(path: SqlText, b: Block, last: SpecialSections) returns (mmapPath: SqlText)
    ensures mmapPath == path + Suffix(b, last)
  {
    mmapPath := path;
    if b.start <= last.pltAddr && b.end >= last.pltAddr + last.pltSize {
      mmapPath := mmapPath + "(.plt)";
    }
    if b.start <= last.gotAddr && b.end >= last.gotAddr + last.gotSize {
      mmapPath := mmapPath + "(.got)";
    }
  }

  /** From the memory-map entry to the stored path. */
  method AttributePath(p: Process, seen: SeenTable, ssect: array<SpecialSections>, ssectIndex: nat, b: Block)
    returns (mmapPath: SqlText)
    requires seen.Valid() && ssectIndex == |seen.Contents()| <= ssect.Length
    requires ssect[..] == Padded(p, seen.Contents(), ssect.Length)
    ensures mmapPath == MmapPath(p, seen.Contents(), b)
  {
    mmapPath := FindPath(seen, b);
    var last := if ssectIndex == 0 then p.underrun else ssect[ssectIndex - 1];
    assert ssectIndex > 0 ==> last == ssect[..][..ssectIndex][ssectIndex - 1];
    mmapPath := AppendSuffixes(mmapPath, b, last);
  }

  function VmText(rows: seq<VmRow>): Option<string> { TextOf(Encode(rows, VmFields)) }

  lemma VmTextSnoc(rows: seq<VmRow>, row: VmRow)
    ensures RowText.Accumulate(VmText(rows), RenderRow(VmFields(row))) == VmText(rows + [row])
  {
    EncodeSnoc(rows, row, VmFields);
    AccumulateRow(Encode(rows, VmFields), VmFields(row));
  }

  lemma VmTextEmpty(rows: seq<VmRow>)
    requires forall i :: 0 <= i < |rows| ==> VmInsertable(rows[i])
    ensures VmText(rows).None? <==> rows == []
    ensures rows != [] ==> RowsIn(VmText(rows).value, FieldsVm) == rows
  {
    if rows != [] { VmTextInserts(rows); }
  }

  /** The scan after the first n blocks: what the loop has collected and stored, from the contents c. */
  function PartialContents(p: Process, n: nat, c: Contents): (r: Contents)
    requires n <= |p.blocks|
    ensures r.vm == c.vm && r.comparts == c.comparts
  {
    var blocks := p.blocks[..n];
    c.(caps := c.caps + CapRows(p, blocks), syms := c.syms + SymRows(p, Seen(blocks)))
  }

  lemma SeenTurn(p: Process, n: nat)
    requires n < |p.blocks|
    ensures Seen(p.blocks[..n + 1]) == SeenNext(Seen(p.blocks[..n]), p.blocks[n])
    ensures VmRows(p, p.blocks[..n + 1]) ==
            VmRows(p, p.blocks[..n]) + [VmRowOf(p, Seen(p.blocks[..n + 1]), p.blocks[n])]
    ensures CapRows(p, p.blocks[..n + 1]) ==
            CapRows(p, p.blocks[..n]) + CapRowsOf(p, Seen(p.blocks[..n + 1]), p.blocks[n])
  {
    assert p.blocks[..n + 1][..n] == p.blocks[..n];
  }

  lemma SymsTurn(p: Process, seen: seq<Block>, b: Block)
    ensures SymRows(p, SeenNext(seen, b)) == SymRows(p, seen) + NewSyms(p, seen, b)
  {
    assert (seen + [b])[..|seen|] == seen;
  }

  lemma BlockTurn(p: Process, n: nat, c: Contents)
    requires n < |p.blocks|
    ensures var b, before, now := p.blocks[n], PartialContents(p, n, c), Seen(p.blocks[..n + 1]);
            PartialContents(p, n + 1, c) ==
            before.(
              syms := before.syms + NewSyms(p, Seen(p.blocks[..n]), b), caps := before.caps + CapRowsOf(p, now, b))
  {
    var b, seen, now := p.blocks[n], Seen(p.blocks[..n]), Seen(p.blocks[..n + 1]);
    SeenTurn(p, n);
    SymsTurn(p, seen, b);
    SeqAssoc(c.caps, CapRows(p, p.blocks[..n]), CapRowsOf(p, now, b));
    SeqAssoc(c.syms, SymRows(p, seen), NewSyms(p, seen, b));
  }

  /** The part of the block loop after the parsing: attribute, collect the row, scan the pages. */
  method RecordBlock(
    db: Database, p: Process, head: CompartList, seen: SeenTable, ssect: array<SpecialSections>, ssectIndex: nat,
    b: Block, values0: Option<string>, ghost rows: seq<VmRow>)
    returns (values: Option<string>)
    requires ListToSeq(head) == DataOfAll(p.links)
    requires seen.Valid() && ssectIndex == |seen.Contents()| <= ssect.Length
    requires ssect[..] == Padded(p, seen.Contents(), ssect.Length)
    requires values0 == VmText(rows)
    modifies db
    ensures values == VmText(rows + [VmRowOf(p, seen.Contents(), b)])
    ensures db.Now() == old(db.Now()).(caps := old(db.caps) + CapRowsOf(p, seen.Contents(), b))
  {
    var mmapPath := AttributePath(p, seen, ssect, ssectIndex, b);
    var compartId := CompartOf(head, mmapPath, p.links);
    var row := VmRow(PrintHex(b.start), PrintHex(b.end), mmapPath, compartId, b.protection, b.flags, b.vnodeType, None);
    VmTextSnoc(rows, row);
    values := RowText.Accumulate(values0, RenderRow(VmFields(row)));
    if b.hasCap {
      ScanPages(db, p.memory, b, mmapPath);
    } else {
      assert db.caps + [] == db.caps;
    }
  }

  /** One turn of the block loop. */
  method ScanBlock(
    db: Database, p: Process, head: CompartList, seen: SeenTable, ssect: array<SpecialSections>, ssectIndex0: nat,
    i: nat, values0: Option<string>, ghost c: Contents)
    returns (ssectIndex: nat, values: Option<string>)
    requires ListToSeq(head) == DataOfAll(p.links) && i < |p.blocks| == ssect.Length
    requires seen.Valid() && seen.Contents() == Seen(p.blocks[..i]) && ssectIndex0 == |seen.Contents()|
    requires ssect[..] == Padded(p, seen.Contents(), ssect.Length)
    requires values0 == VmText(VmRows(p, p.blocks[..i]))
    requires db.Now() == PartialContents(p, i, c)
    modifies db, seen, seen.entries, ssect
    ensures seen.Valid() && seen.Contents() == Seen(p.blocks[..i + 1]) && ssectIndex == |seen.Contents()|
    ensures seen.entries == old(seen.entries) || fresh(seen.entries)
    ensures ssect[..] == Padded(p, seen.Contents(), ssect.Length)
    ensures values == VmText(VmRows(p, p.blocks[..i + 1]))
    ensures db.Now() == PartialContents(p, i + 1, c)
  {
    hide Seen, VmRows, CapRowsOf, VmRowOf, PartialContents, Padded, VmText, NewSyms, SeenNext, DataOfAll, ListToSeq;
    var b := p.blocks[i];
    SeenTurn(p, i);
    BlockTurn(p, i, c);
    ghost var rows := VmRows(p, p.blocks[..i]);
    ssectIndex := ParseOnce(db, p, seen, ssect, ssectIndex0, b);
    values := RecordBlock(db, p, head, seen, ssect, ssectIndex, b, values0, rows);
  }

  /** The block loop of scan_mem and the INSERT of the collected vm rows. */
  method ScanBlocks(db: Database, p: Process, head: CompartList)
    returns (ssect: array<SpecialSections>, ssectIndex: nat)
    requires ListToSeq(head) == DataOfAll(p.links)
    modifies db
    ensures db.Now() == PartialContents(p, |p.blocks|, old(db.Now())).(vm := old(db.vm) + VmRows(p, p.blocks))
    ensures fresh(ssect) && ssectIndex <= ssect.Length && ssect[..ssectIndex] == Specials(p, Seen(p.blocks))
  {
    hide Seen, VmRows, CapRowsOf, VmRowOf, Padded, VmText, NewSyms, SeenNext;
    hide DataOfAll, ListToSeq, PartialContents, Specials;
    ghost var c := db.Now();
    var seen := new SeenTable();
    ssect := new SpecialSections[|p.blocks|](_ => NO_SECTIONS);
    ssectIndex := 0;
    var values: Option<string> := None;
    EmptyScan(p, c, ssect[..]);
    var i := 0;
    while i < |p.blocks|
      invariant i <= |p.blocks| == ssect.Length && fresh(ssect) && fresh(seen) && fresh(seen.entries) && seen.Valid()
      invariant seen.Contents() == Seen(p.blocks[..i]) && ssectIndex == |seen.Contents()|
      invariant ssect[..] == Padded(p, seen.Contents(), ssect.Length)
      invariant values == VmText(VmRows(p, p.blocks[..i]))
      invariant db.Now() == PartialContents(p, i, c)
    {
      ssectIndex, values := ScanBlock(db, p, head, seen, ssect, ssectIndex, i, values, c);
      i := i + 1;
    }
    assert p.blocks[..i] == p.blocks;
    assert ssect[..ssectIndex] == ssect[..][..ssectIndex];
    StoreVmRows(db, values, VmRows(p, p.blocks));
  }

  lemma EmptyScan(p: Process, c: Contents, s: seq<SpecialSections>)
    requires forall k :: 0 <= k < |s| ==> s[k] == NO_SECTIONS
    ensures PartialContents(p, 0, c) == c
    ensures Seen(p.blocks[..0]) == [] && VmText(VmRows(p, p.blocks[..0])) == None
    ensures s == Padded(p, [], |s|)
  {
    assert c.caps + [] == c.caps && c.syms + [] == c.syms;
  }

  method StoreVmRows(db: Database, values: Option<string>, ghost rows: seq<VmRow>)
    requires values == VmText(rows) && forall i :: 0 <= i < |rows| ==> VmInsertable(rows[i])
    modifies db
    ensures db.Now() == old(db.Now()).(vm := old(db.vm) + rows)
  {
    VmTextEmpty(rows);
    if values.Some? {
      db.InsertVm(values.value);
    } else {
      assert db.vm + [] == db.vm;
    }
  }

  /** The UPDATE pass over the records of the parsed binaries. */
  method UpdatePass(db: Database, ssect: array<SpecialSections>, ssectIndex: nat)
    requires ssectIndex <= ssect.Length
    modifies db
    ensures db.Now() == old(db.Now()).(vm := StampAll(old(db.vm), ssect[..ssectIndex]))
  {
    for i := 0 to ssectIndex
      invariant db.Now() == old(db.Now()).(vm := StampAll(old(db.vm), ssect[..i]))
    {
      assert ssect[..i + 1][..i] == ssect[..i];
      db.vm := Stamp(db.vm, ssect[i]);
    }
  }

  /** scan_mem: the database afterwards, whatever it held before. */
  method ScanMem(db: Database, p: Process)
    modifies db
    ensures db.Now() == ScanContents(p, old(db.Now()))
  {
    hide Seen, VmRows, CapRows, SymRows, StampAll, Specials, Apply, NameAll, Upserts, DataOfAll, ListToSeq;
    var head := ScanRtldLinkmap(db, p.links);
    ScanRComparts(db, p.names);
    var ssect, ssectIndex := ScanBlocks(db, p, head);
    assert p.blocks[..|p.blocks|] == p.blocks;
    UpdatePass(db, ssect, ssectIndex);
  }
}
