/** Runs of several scans into one database. */
module Rescan {
  import Arith
  import opened Text
  import opened Hex
  import opened Tables
  import opened ElfSymbols
  import opened Comparts
  import opened MemScan
  import opened Views

  // ---- integrity over whole runs ----

  /** Every block's compartment is -1 or a key of comparts, and every parent is one. */
  ghost predicate Integrity(c: Contents) {
    ParentsExist(c.comparts) && Owned(c.vm, c.comparts.Keys)
  }

  predicate Owned(vm: seq<VmRow>, keys: set<int>) {
    forall i :: 0 <= i < |vm| ==> vm[i].compartId == -1 || vm[i].compartId in keys
  }

  /** Every capability is stored under the path of some block. */
  ghost predicate CapPathsKnown(c: Contents) {
    AllPathsIn(c.caps, c.vm)
  }

  ghost predicate AllPathsIn(caps: seq<CapRow>, vm: seq<VmRow>) {
    forall k :: 0 <= k < |caps| ==> PathIn(vm, caps[k].locPath)
  }

  function AfterScans(ps: seq<Process>, c: Contents): Contents {
    if ps == [] then c else ScanContents(ps[|ps| - 1], AfterScans(ps[..|ps| - 1], c))
  }

  lemma {:induction false} RowsOwned(p: Process, blocks: seq<Block>)
    ensures forall i :: 0 <= i < |blocks| ==>
              var id := VmRows(p, blocks)[i].compartId;
              id == -1 || exists j :: 0 <= j < |p.links| && p.links[j].id == id
  {
    hide MmapPath, PrintHex;
    if blocks != [] {
      RowsOwned(p, blocks[..|blocks| - 1]);
      OwnerIsEntry(p.links, MmapPath(p, Seen(blocks), blocks[|blocks| - 1]));
    }
  }

  /** One scan of any process keeps integrity and removes no compartment. */
  lemma ScanKeepsIntegrity(p: Process, c: Contents)
    requires Integrity(c)
    ensures Integrity(ScanContents(p, c))
    ensures c.comparts.Keys <= ScanContents(p, c).comparts.Keys
  {
    hide VmRows, StampAll, Seen, ScanTable, ParentsExist, Specials, Owned;
    ScanTableIntegrity(p.links, p.names, c.comparts);
    var keys := ScanTable(p.links, p.names, c.comparts).Keys;
    var rows, specials := VmRows(p, p.blocks), Specials(p, Seen(p.blocks));
    RowsOwned(p, p.blocks);
    OwnedMore(c.vm, c.comparts.Keys, keys);
    LinkedRowsOwned(rows, p.links, keys);
    OwnedConcat(c.vm, rows, keys);
    StampedOwned(c.vm + rows, specials, keys);
  }

  lemma OwnedMore(vm: seq<VmRow>, keys: set<int>, more: set<int>)
    requires Owned(vm, keys) && keys <= more
    ensures Owned(vm, more)
  {
  }

  lemma LinkedRowsOwned(vm: seq<VmRow>, links: seq<LinkEntry>, keys: set<int>)
    requires forall i :: 0 <= i < |vm| ==>
               vm[i].compartId == -1 || exists j :: 0 <= j < |links| && links[j].id == vm[i].compartId
    requires forall j :: 0 <= j < |links| ==> links[j].id in keys
    ensures Owned(vm, keys)
  {
  }

  lemma OwnedConcat(a: seq<VmRow>, b: seq<VmRow>, keys: set<int>)
    requires Owned(a, keys) && Owned(b, keys)
    ensures Owned(a + b, keys)
  {
  }

  lemma StampedOwned(vm: seq<VmRow>, specials: seq<SpecialSections>, keys: set<int>)
    requires Owned(vm, keys)
    ensures Owned(StampAll(vm, specials), keys)
  {
    hide StampAll;
    StampAllKeeps(vm, specials);
  }

  /** Referential integrity over whole runs: any number of scans of any processes, from empty tables. */
  lemma {:induction false} IntegrityOverRuns(ps: seq<Process>)
    ensures Integrity(AfterScans(ps, EMPTY))
  {
    if ps != [] {
      IntegrityOverRuns(ps[..|ps| - 1]);
      ScanKeepsIntegrity(ps[|ps| - 1], AfterScans(ps[..|ps| - 1], EMPTY));
    }
  }

  lemma {:induction false} CapRowPaths(p: Process, blocks: seq<Block>)
    ensures AllPathsIn(CapRows(p, blocks), VmRows(p, blocks))
  {
    hide MmapPath, PrintHex, Seen, CapsOf;
    if blocks != [] {
      var before, last := blocks[..|blocks| - 1], blocks[|blocks| - 1];
      CapRowPaths(p, before);
      var caps, rows := CapRows(p, blocks), VmRows(p, blocks);
      forall k | 0 <= k < |caps|
        ensures PathIn(rows, caps[k].locPath)
      {
        if k < |CapRows(p, before)| {
          assert caps[k] == CapRows(p, before)[k];
          PathInMore(VmRows(p, before), rows, caps[k].locPath);
        } else {
          assert rows[|rows| - 1].path == caps[k].locPath;
        }
      }
    }
  }

  lemma PathInMore(vm: seq<VmRow>, more: seq<VmRow>, path: string)
    requires PathIn(vm, path)
    requires |vm| <= |more| && forall i :: 0 <= i < |vm| ==> more[i].path == vm[i].path
    ensures PathIn(more, path)
  {
    var i :| 0 <= i < |vm| && vm[i].path == path;
    assert more[i].path == path;
  }

  lemma PathInTail(vm: seq<VmRow>, tail: seq<VmRow>, path: string)
    requires PathIn(tail, path)
    ensures PathIn(vm + tail, path)
  {
    var i :| 0 <= i < |tail| && tail[i].path == path;
    assert (vm + tail)[|vm| + i].path == path;
  }

  lemma PathsInConcat(a: seq<CapRow>, vm: seq<VmRow>, b: seq<CapRow>, tail: seq<VmRow>)
    requires AllPathsIn(a, vm) && AllPathsIn(b, tail)
    ensures AllPathsIn(a + b, vm + tail)
  {
    forall k | 0 <= k < |a + b|
      ensures PathIn(vm + tail, (a + b)[k].locPath)
    {
      if k < |a| {
        PathInMore(vm, vm + tail, a[k].locPath);
      } else {
        PathInTail(vm, tail, b[k - |a|].locPath);
      }
    }
  }

  lemma StampedPaths(caps: seq<CapRow>, vm: seq<VmRow>, specials: seq<SpecialSections>)
    requires AllPathsIn(caps, vm)
    ensures AllPathsIn(caps, StampAll(vm, specials))
  {
    hide StampAll;
    StampAllKeeps(vm, specials);
    forall k | 0 <= k < |caps|
      ensures PathIn(StampAll(vm, specials), caps[k].locPath)
    {
      PathInMore(vm, StampAll(vm, specials), caps[k].locPath);
    }
  }

  /** The graphs look a capability's path up in vm: after any run of scans it is there. */
  lemma {:induction false} CapPathsOverRuns(ps: seq<Process>)
    ensures CapPathsKnown(AfterScans(ps, EMPTY))
  {
    if ps != [] {
      var p, c := ps[|ps| - 1], AfterScans(ps[..|ps| - 1], EMPTY);
      CapPathsOverRuns(ps[..|ps| - 1]);
      hide VmRows, CapRows, StampAll, Seen, Specials, AllPathsIn;
      CapRowPaths(p, p.blocks);
      PathsInConcat(c.caps, c.vm, CapRows(p, p.blocks), VmRows(p, p.blocks));
      StampedPaths(c.caps + CapRows(p, p.blocks), c.vm + VmRows(p, p.blocks), Specials(p, Seen(p.blocks)));
    }
  }

  // ---- the same process scanned k times ----

  lemma StampConcat(a: seq<VmRow>, b: seq<VmRow>, s: SpecialSections)
    ensures Stamp(a + b, s) == Stamp(a, s) + Stamp(b, s)
  {
    hide StampRow, Stamp;
  }

  lemma {:induction false} StampAllConcat(a: seq<VmRow>, b: seq<VmRow>, specials: seq<SpecialSections>)
    ensures StampAll(a + b, specials) == StampAll(a, specials) + StampAll(b, specials)
  {
    hide StampRow, Stamp;
    if specials != [] {
      var before := specials[..|specials| - 1];
      StampAllConcat(a, b, before);
      StampConcat(StampAll(a, before), StampAll(b, before), specials[|specials| - 1]);
    }
  }

  lemma {:induction false} StampAllLength(rows: seq<VmRow>, specials: seq<SpecialSections>)
    ensures |StampAll(rows, specials)| == |rows|
  {
    if specials != [] { StampAllLength(rows, specials[..|specials| - 1]); }
  }

  /** One row through the UPDATE pass: the last record with its path decides. */
  function Stamped(row: VmRow, specials: seq<SpecialSections>): VmRow {
    if specials == [] then row
    else if row.path == specials[|specials| - 1].path then StampRow(row, specials[|specials| - 1])
    else Stamped(row, specials[..|specials| - 1])
  }

  lemma {:induction false} StampAllRow(rows: seq<VmRow>, specials: seq<SpecialSections>, i: nat)
    requires i < |rows|
    ensures |StampAll(rows, specials)| == |rows|
    ensures StampAll(rows, specials)[i] == Stamped(rows[i], specials)
    ensures Stamped(rows[i], specials).path == rows[i].path
  {
    hide PrintHex;
    if specials != [] {
      var before := specials[..|specials| - 1];
      StampAllRow(rows, before, i);
      StampedPath(rows[i], before);
      assert Stamped(rows[i], before) == rows[i].(sections := Stamped(rows[i], before).sections);
    }
  }

  lemma {:induction false} StampedPath(row: VmRow, specials: seq<SpecialSections>)
    ensures Stamped(row, specials).(sections := None) == row.(sections := None)
  {
    hide PrintHex;
    if specials != [] { StampedPath(row, specials[..|specials| - 1]); }
  }

  lemma {:induction false} StampedTwice(row: VmRow, specials: seq<SpecialSections>)
    ensures Stamped(Stamped(row, specials), specials) == Stamped(row, specials)
  {
    hide PrintHex;
    StampedPath(row, specials);
    assert Stamped(row, specials).path == Stamped(row, specials).(sections := None).path == row.path;
    StampedAgain(row, Stamped(row, specials).sections, specials);
  }

  /** Which columns a row carried before does not matter once a record has its path. */
  lemma {:induction false} StampedAgain(row: VmRow, columns: Option<SectionColumns>, specials: seq<SpecialSections>)
    requires Stamped(row, specials) != row ==> columns == Stamped(row, specials).sections
    requires Stamped(row, specials) == row ==> columns == row.sections
    ensures Stamped(row.(sections := columns), specials) == Stamped(row, specials)
    ensures Stamped(row, specials) == row.(sections := columns)
  {
    hide PrintHex;
    StampedPath(row, specials);
    if specials != [] && row.path != specials[|specials| - 1].path {
      StampedAgain(row, columns, specials[..|specials| - 1]);
    }
  }

  /** Running the UPDATE pass again changes nothing. */
  lemma StampAllTwice(rows: seq<VmRow>, specials: seq<SpecialSections>)
    ensures StampAll(StampAll(rows, specials), specials) == StampAll(rows, specials)
  {
    var once := StampAll(rows, specials);
    StampAllLength(rows, specials);
    StampAllLength(once, specials);
    forall i | 0 <= i < |rows|
      ensures StampAll(once, specials)[i] == once[i]
    {
      StampAllRow(rows, specials, i);
      StampAllRow(once, specials, i);
      StampedTwice(rows[i], specials);
    }
  }

  function Repeat(p: Process, k: nat): Contents {
    if k == 0 then EMPTY else ScanContents(p, Repeat(p, k - 1))
  }

  /**
   Scanning a process k times stores its vm, cap_info and elf_sym rows k times over,
   and its comparts table once.
   */
  lemma {:induction false} RepeatExact(p: Process, k: nat)
    requires k > 0
    ensures var once := ScanContents(p, EMPTY);
            Repeat(p, k) == Contents(Replay(once.vm, k), Replay(once.caps, k), Replay(once.syms, k), once.comparts)
  {
    hide Seen, VmRows, CapRows, SymRows, ScanTable, StampAll, Specials;
    var seen := Seen(p.blocks);
    var rows, specials := VmRows(p, p.blocks), Specials(p, seen);
    var once := ScanContents(p, EMPTY);
    assert [] + rows == rows && [] + CapRows(p, p.blocks) == CapRows(p, p.blocks);
    assert [] + SymRows(p, seen) == SymRows(p, seen);
    if k == 1 {
      assert [] + once.vm == once.vm && [] + once.caps == once.caps && [] + once.syms == once.syms;
      ReplayOnce(once.vm);
      ReplayOnce(once.caps);
      ReplayOnce(once.syms);
    } else {
      RepeatExact(p, k - 1);
      RescanConverges(p.links, p.names, map[]);
      var before := Replay(once.vm, k - 1);
      StampAllConcat(before, rows, specials);
      StampAllReplay(rows, specials, k - 1);
    }
  }

  lemma ReplayOnce<T>(rows: seq<T>)
    ensures Replay(rows, 1) == rows
  {
    assert Replay(rows, 0) + rows == rows;
  }

  lemma {:induction false} StampAllReplay(rows: seq<VmRow>, specials: seq<SpecialSections>, k: nat)
    ensures StampAll(Replay(StampAll(rows, specials), k), specials) == Replay(StampAll(rows, specials), k)
  {
    hide StampAll;
    var once := StampAll(rows, specials);
    if k == 0 {
      StampAllLength([], specials);
    } else {
      StampAllReplay(rows, specials, k - 1);
      StampAllConcat(Replay(once, k - 1), once, specials);
      StampAllTwice(rows, specials);
    }
  }

  lemma {:induction false} ReplayAt<T>(rows: seq<T>, k: nat, i: nat)
    requires rows != [] && i < k * |rows|
    ensures |Replay(rows, k)| == k * |rows|
    ensures Replay(rows, k)[i] == rows[i % |rows|]
  {
    ReplayLength(rows, k);
    var n := |rows|;
    if i < (k - 1) * n {
      ReplayAt(rows, k - 1, i);
    } else {
      ReplayLength(rows, k - 1);
      Arith.DivUnique(i, n, k - 1, i - (k - 1) * n);
    }
  }

  lemma {:induction false} ReplayLength<T>(rows: seq<T>, k: nat)
    ensures |Replay(rows, k)| == k * |rows|
  {
    if k > 0 { ReplayLength(rows, k - 1); }
  }

  /**
   Rescanning is harmless to the densities: after k scans of a process with at least one recorded
   capability, every row shows the density it showed after the first, and k times its TOTAL.
   */
  lemma RescanKeepsDensities(p: Process, k: nat, i: nat)
    requires k > 0 && ScanContents(p, EMPTY).caps != []
    requires i < k * |ScanContents(p, EMPTY).vm|
    ensures var once, many := ScanContents(p, EMPTY), Repeat(p, k);
            && |many.vm| == k * |once.vm| && |once.vm| > 0
            && var row := RowFor(VmRange(many.vm[i]), many.caps);
               var first := RowFor(VmRange(once.vm[i % |once.vm|]), once.caps);
               row.density == first.density && row.total == k * first.total
  {
    hide ScanContents, RowFor, VmRange;
    var once := ScanContents(p, EMPTY);
    RepeatExact(p, k);
    assert once.vm == [] ==> k * |once.vm| == 0;
    ReplayAt(once.vm, k, i);
    DensityUnderReplay(VmRange(once.vm[i % |once.vm|]), once.caps, k);
  }
}
