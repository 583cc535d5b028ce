/**
 From the link map and the tags of a process to the TOTAL column of the compartment view, whatever
 the addresses: strtol reads one above LONG_MAX as LONG_MAX.
 */
module CompartTotals {
  import opened Text
  import opened Hex
  import opened Tables
  import opened TagScan
  import opened Comparts
  import opened MemScan
  import opened Fetch
  import opened Views
  import opened EndToEnd

  // ---- what the linker says about a compartment ----

  /** A compartment as the linker describes it, with the addresses as numbers. */
  datatype Extent = Extent(
    id: int, name: Option<string>, library: Option<string>, lo: nat, hi: nat, isDefault: bool, parent: Option<int>)

  /** A default compartment is named by the file of its library and has no parent. */
  function EntryExtent(e: LinkEntry): Extent {
    Extent(e.id, None, Some(BaseName(e.path)), e.base, e.base + e.size, true, None)
  }

  /** A sub-compartment has its own name and the entry as its parent. */
  function SubExtents(subs: seq<SubCompart>, parent: int): seq<Extent> {
    if subs == [] then []
    else
      var s := subs[|subs| - 1];
      SubExtents(subs[..|subs| - 1], parent)
      + [Extent(s.id, Some(BaseName(s.name)), None, s.start, s.end, false, Some(parent))]
  }

  /** The compartments of a link map: every entry, then its sub-compartments. */
  function Extents(links: seq<LinkEntry>): seq<Extent> {
    if links == [] then []
    else
      var e := links[|links| - 1];
      Extents(links[..|links| - 1]) + [EntryExtent(e)] + SubExtents(e.subs, e.id)
  }

  /** The range given last for an id. */
  function LastExtent(xs: seq<Extent>, id: int): Option<Extent> {
    if xs == [] then None
    else if xs[|xs| - 1].id == id then Some(xs[|xs| - 1])
    else LastExtent(xs[..|xs| - 1], id)
  }

  // ---- the stored rows ----

  /** Every column of the row is that of the compartment, the addresses printed. */
  predicate Carries(row: CompartRow, x: Extent) {
    && row.name == x.name && row.library == x.library
    && row.start == Some(PrintHex(x.lo)) && row.end == Some(PrintHex(x.hi))
    && row.isDefault == x.isDefault && row.parent == x.parent
  }

  predicate CarryAll(ups: seq<Upsert>, xs: seq<Extent>) {
    |ups| == |xs| && forall i :: 0 <= i < |xs| ==> ups[i].id == xs[i].id && Carries(ups[i].row, xs[i])
  }

  lemma CarryConcat(a: seq<Upsert>, xs: seq<Extent>, b: seq<Upsert>, ys: seq<Extent>)
    requires CarryAll(a, xs) && CarryAll(b, ys)
    ensures CarryAll(a + b, xs + ys)
  {
    hide Carries;
  }

  lemma {:induction false} SubsCarry(subs: seq<SubCompart>, parent: int)
    ensures CarryAll(SubUpserts(subs, parent), SubExtents(subs, parent))
  {
    hide PrintHex, BaseName;
    if subs != [] {
      var n := |subs| - 1;
      SubsCarry(subs[..n], parent);
      CarryConcat(
        SubUpserts(subs[..n], parent), SubExtents(subs[..n], parent),
        [Upsert(subs[n].id, SubRow(subs[n], parent))],
        [Extent(
           subs[n].id, Some(BaseName(subs[n].name)), None, subs[n].start, subs[n].end, false, Some(parent))]);
    }
  }

  lemma EntryCarries(e: LinkEntry)
    ensures CarryAll(EntryUpserts(e), [EntryExtent(e)] + SubExtents(e.subs, e.id))
  {
    hide PrintHex, BaseName, SubUpserts, SubExtents;
    SubsCarry(e.subs, e.id);
    CarryConcat(
      [Upsert(e.id, DefaultRow(e))], [EntryExtent(e)], SubUpserts(e.subs, e.id), SubExtents(e.subs, e.id));
  }

  lemma {:induction false} LinksCarry(links: seq<LinkEntry>)
    ensures CarryAll(Upserts(links), Extents(links))
  {
    hide EntryUpserts, SubExtents, Carries;
    if links != [] {
      var before, e := links[..|links| - 1], links[|links| - 1];
      LinksCarry(before);
      EntryCarries(e);
      var xs := [EntryExtent(e)] + SubExtents(e.subs, e.id);
      CarryConcat(Upserts(before), Extents(before), EntryUpserts(e), xs);
      assert Extents(before) + xs == Extents(links);
    }
  }

  lemma {:induction false} LastCarries(ups: seq<Upsert>, xs: seq<Extent>, id: int)
    requires CarryAll(ups, xs)
    ensures LastRow(ups, id).Some? <==> LastExtent(xs, id).Some?
    ensures LastRow(ups, id).Some? ==> Carries(LastRow(ups, id).value, LastExtent(xs, id).value)
  {
    hide Carries;
    if xs != [] { LastCarries(ups[..|ups| - 1], xs[..|xs| - 1], id); }
  }

  /** The name the UPDATE gives a compartment, else the one it has. */
  function NameOf(names: seq<Option<string>>, id: int, name: Option<string>): Option<string> {
    if 0 <= id < |names| && names[id].Some? then Some(BaseName(names[id].value)) else name
  }

  /**
   The comparts table after a scan, from any contents, said on the link map and the names: under an id of the link map
   every column of the compartment given last, under any other id what was there, and the names on top.
   */
  lemma CompartRowExact(p: Process, c: Contents, id: int)
    ensures var t, last := ScanContents(p, c).comparts, LastExtent(Extents(p.links), id);
            && (id in t <==> id in c.comparts || last.Some?)
            && (id in t && last.Some? ==>
                  Carries(t[id], last.value.(name := NameOf(p.names, id, last.value.name))))
            && (id in t && last.None? ==>
                  t[id] == c.comparts[id].(name := NameOf(p.names, id, c.comparts[id].name)))
  {
    var ups, xs := Upserts(p.links), Extents(p.links);
    LinksCarry(p.links);
    LastCarries(ups, xs, id);
    hide PrintHex, Upserts, Extents, BaseName;
    ApplyAt(ups, c.comparts, id);
    NameAllAt(p.names, Apply(ups, c.comparts));
  }

  /**
   After a scan into empty tables the compartments are the ids of the link map, and each is shown with the
   range the linker gave last for it.
   */
  lemma CompartRanges(p: Process, id: int)
    ensures var t := ScanContents(p, EMPTY).comparts;
            && (id in t <==> LastExtent(Extents(p.links), id).Some?)
            && (id in t ==>
                  var x := LastExtent(Extents(p.links), id).value;
                  CompRange(ToCompInfo(id, t[id])) == Range(ReadBack(x.lo), ReadBack(x.hi), true))
  {
    var ups, xs := Upserts(p.links), Extents(p.links);
    LinksCarry(p.links);
    LastCarries(ups, xs, id);
    hide PrintHex, ParseAddr, Upserts, Extents;
    ApplyAt(ups, map[], id);
    NameAllAt(p.names, Apply(ups, map[]));
    if id in Apply(ups, map[]) {
      var x := LastExtent(xs, id).value;
      ParsePrint(x.lo);
      ParsePrint(x.hi);
    }
  }

  // ---- the recorded capabilities ----

  /** The addresses recorded from all blocks, block by block. */
  function Recorded(p: Process, blocks: seq<Block>): seq<nat> {
    if blocks == [] then [] else Recorded(p, blocks[..|blocks| - 1]) + CapsOf(p, blocks[|blocks| - 1])
  }

  /** The stored rows are those of the recorded addresses. */
  predicate RowsFor(m: Memory, caps: seq<CapRow>, addrs: seq<nat>) {
    |caps| == |addrs| && forall k :: 0 <= k < |caps| ==> RowFrom(m, caps[k], addrs[k])
  }

  /** A row's texts but for its path. */
  predicate RowFrom(m: Memory, c: CapRow, a: nat) {
    && c.locAddr == PrintHex(a) && c.addr == PrintHex(m.capAt(a).addr) && c.perms == m.capAt(a).perms
    && c.base == PrintHex(m.capAt(a).base) && c.top == PrintHex(m.capAt(a).top)
  }

  lemma {:induction false} RecordedRows(p: Process, blocks: seq<Block>)
    ensures RowsFor(p.memory, CapRows(p, blocks), Recorded(p, blocks))
  {
    hide CapsOf, MmapPath, Seen, PrintHex;
    if blocks != [] { RecordedRows(p, blocks[..|blocks| - 1]); }
  }

  /** A capability counts for a compartment when it is stored in it and points into it. */
  predicate Within(m: Memory, x: Extent, a: nat) {
    ReadBack(x.lo) <= ReadBack(a) <= ReadBack(x.hi) && ReadBack(x.lo) <= ReadBack(m.capAt(a).addr) <= ReadBack(x.hi)
  }

  function CountWithin(m: Memory, x: Extent, addrs: seq<nat>): nat {
    if addrs == [] then 0
    else CountWithin(m, x, addrs[..|addrs| - 1]) + if Within(m, x, addrs[|addrs| - 1]) then 1 else 0
  }

  lemma CompartCounts(m: Memory, c: CapRow, a: nat, x: Extent)
    requires RowFrom(m, c, a)
    ensures Located(Range(ReadBack(x.lo), ReadBack(x.hi), true), c) <==> Within(m, x, a)
  {
    hide PrintHex, ParseAddr;
    ParsePrint(a);
    ParsePrint(m.capAt(a).addr);
  }

  lemma {:induction false} CountRecorded(m: Memory, x: Extent, caps: seq<CapRow>, addrs: seq<nat>)
    requires RowsFor(m, caps, addrs)
    ensures Count(Range(ReadBack(x.lo), ReadBack(x.hi), true), Any, caps) == CountWithin(m, x, addrs)
  {
    hide RowFrom, Within, Located, ReadBack;
    if caps != [] {
      var n := |caps| - 1;
      assert forall k :: 0 <= k < n ==> caps[..n][k] == caps[k] && addrs[..n][k] == addrs[k];
      CountRecorded(m, x, caps[..n], addrs[..n]);
      CompartCounts(m, caps[n], addrs[n], x);
    }
  }

  /**
   End to end: a compartment's TOTAL is the number of recorded addresses that lie, with what is stored
   there pointing, in the range the linker gave last for its id.
   */
  lemma CompartTotalExact(p: Process, id: int)
    requires id in ScanContents(p, EMPTY).comparts
    ensures var c := ScanContents(p, EMPTY);
            && LastExtent(Extents(p.links), id).Some?
            && Count(CompRange(ToCompInfo(id, c.comparts[id])), Any, c.caps) ==
               CountWithin(p.memory, LastExtent(Extents(p.links), id).value, Recorded(p, p.blocks))
  {
    hide ScanContents, CompRange, Recorded, CapRows, RowsFor, ReadBack;
    CompartRanges(p, id);
    StoredCaps(p);
    RecordedRows(p, p.blocks);
    CountRecorded(p.memory, LastExtent(Extents(p.links), id).value, CapRows(p, p.blocks), Recorded(p, p.blocks));
  }

  /**
   A scan and then the compartment view, on an empty database: a row for every id of the link map, in ascending
   order.
   */
  method ScanThenCompView(p: Process) returns (rows: seq<ViewRow>)
    ensures var ids := Keys(ScanContents(p, EMPTY).comparts);
            && |rows| == |ids|
            && (forall id :: id in ids <==> LastExtent(Extents(p.links), id).Some?)
            && forall i :: 0 <= i < |rows| ==>
                 LastExtent(Extents(p.links), ids[i]).Some? &&
                 rows[i].total ==
                 CountWithin(p.memory, LastExtent(Extents(p.links), ids[i]).value, Recorded(p, p.blocks))
  {
    hide ScanContents, CompRange, LastExtent, Extents, Recorded, CountWithin;
    var db := new Database();
    ScanMem(db, p);
    var process := new DbProcess(db);
    rows := CompCapsView(process);
    ghost var ids := Keys(ScanContents(p, EMPTY).comparts);
    forall id
      ensures id in ids <==> LastExtent(Extents(p.links), id).Some?
    {
      CompartRanges(p, id);
    }
    forall i | 0 <= i < |rows|
      ensures LastExtent(Extents(p.links), ids[i]).Some?
      ensures rows[i].total == CountWithin(p.memory, LastExtent(Extents(p.links), ids[i]).value, Recorded(p, p.blocks))
    {
      CompartTotalExact(p, ids[i]);
    }
  }
}
