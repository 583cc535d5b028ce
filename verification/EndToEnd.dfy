/**
 From the tags of a process to the TOTAL column: what scan_mem stores, the views count.
 The addresses go through "0x%lx" and strtol, and the views' ranges include their end.
 */
module EndToEnd {
  import opened Text
  import opened Hex
  import opened Tables
  import opened TagScan
  import opened Comparts
  import opened MemScan
  import opened Fetch
  import opened Views

  const USER_TOP: nat := 0x8000_0000_0000_0000

  /** A memory map: non-empty page-aligned blocks in address order, disjoint, below 2^63. */
  predicate MemoryMap(blocks: seq<Block>) {
    && (forall i :: 0 <= i < |blocks| ==> AlignedBlock(blocks[i]))
    && (forall i, j :: 0 <= i < j < |blocks| ==> blocks[i].end <= blocks[j].start)
  }

  predicate AlignedBlock(b: Block) { b.start < b.end < USER_TOP && b.start % PAGE == 0 && b.end % PAGE == 0 }

  /**
   The next block starts where block i ends, can hold capabilities, and its first granule is tagged, on a readable
   page and not in a group that is passed over.
   */
  predicate SpillsOver(p: Process, i: nat)
    requires i < |p.blocks|
  {
    var end := p.blocks[i].end;
    && i + 1 < |p.blocks| && p.blocks[i + 1].start == end && p.blocks[i + 1].hasCap
    && p.memory.readable(end) && p.memory.tagged(end) && !LooksLikeZeroChar(p.memory, end)
  }

  /** Said on what the scan records: the end of block i is recorded from the next block. */
  lemma SpillOverIsRecorded(p: Process, i: nat)
    requires MemoryMap(p.blocks) && i + 1 < |p.blocks|
    ensures SpillsOver(p, i) <==> p.blocks[i].end in CapsOf(p, p.blocks[i + 1])
  {
    var b, c := p.blocks[i], p.blocks[i + 1];
    hide LooksLikeZeroChar;
    assert AlignedBlock(b) && AlignedBlock(c) && b.end <= c.start;
    AlignedBlockCaps(p.memory, c.start, c.end, b.end);
    assert b.end % GRANULE == 0 && b.end - b.end % PAGE == b.end && b.end - b.end % 128 == b.end by { OnPage(b.end); }
  }

  lemma OnPage(a: nat)
    requires a % PAGE == 0
    ensures a % GRANULE == 0 && a % 128 == 0
  {
    assert a == PAGE * (a / PAGE);
  }

  // ---- counting addresses instead of rows ----

  function CountIn(lo: nat, hi: nat, addrs: seq<nat>): nat {
    if addrs == [] then 0
    else CountIn(lo, hi, addrs[..|addrs| - 1]) + if lo <= addrs[|addrs| - 1] <= hi then 1 else 0
  }

  lemma {:induction false} CountRowsAt(lo: nat, hi: nat, m: Memory, path: SqlText, addrs: seq<nat>)
    requires forall k :: 0 <= k < |addrs| ==> addrs[k] < USER_TOP
    ensures Count(Range(lo, hi, false), Any, CapRowsAt(m, path, addrs)) == CountIn(lo, hi, addrs)
  {
    hide PrintHex, ParseAddr;
    if addrs != [] {
      var before, a := addrs[..|addrs| - 1], addrs[|addrs| - 1];
      CountRowsAt(lo, hi, m, path, before);
      ParsePrint(a);
      var rows := CapRowsAt(m, path, addrs);
      assert rows[..|rows| - 1] == CapRowsAt(m, path, before);
      assert rows[|rows| - 1] == CapRowAt(m, path, a);
    }
  }

  lemma {:induction false} CountAll(lo: nat, hi: nat, addrs: seq<nat>)
    requires forall k :: 0 <= k < |addrs| ==> lo <= addrs[k] <= hi
    ensures CountIn(lo, hi, addrs) == |addrs|
  {
    if addrs != [] { CountAll(lo, hi, addrs[..|addrs| - 1]); }
  }

  lemma {:induction false} CountNone(lo: nat, hi: nat, addrs: seq<nat>)
    requires forall k :: 0 <= k < |addrs| ==> addrs[k] < lo || hi < addrs[k]
    ensures CountIn(lo, hi, addrs) == 0
  {
    if addrs != [] { CountNone(lo, hi, addrs[..|addrs| - 1]); }
  }

  /** Of an ascending list from hi on, only the first address can be counted. */
  lemma {:induction false} CountEnd(lo: nat, hi: nat, addrs: seq<nat>)
    requires lo <= hi && Ascending(addrs) && forall k :: 0 <= k < |addrs| ==> hi <= addrs[k]
    ensures CountIn(lo, hi, addrs) == if hi in addrs then 1 else 0
  {
    if addrs != [] {
      var before, a := addrs[..|addrs| - 1], addrs[|addrs| - 1];
      CountEnd(lo, hi, before);
      assert before != [] ==> hi <= addrs[0] < a;
      assert hi in addrs <==> hi in before || a == hi;
    }
  }

  /** What block j adds to the count for block i. */
  lemma CountOfBlock(p: Process, i: nat, j: nat)
    requires MemoryMap(p.blocks) && i < |p.blocks| && j < |p.blocks|
    ensures var b, addrs := p.blocks[i], CapsOf(p, p.blocks[j]);
            CountIn(b.start, b.end, addrs) ==
              if j == i then |addrs| else if j == i + 1 && SpillsOver(p, i) then 1 else 0
    ensures forall k :: 0 <= k < |CapsOf(p, p.blocks[j])| ==> CapsOf(p, p.blocks[j])[k] < USER_TOP
  {
    var b, c := p.blocks[i], p.blocks[j];
    var addrs := CapsOf(p, c);
    assert AlignedBlock(b) && AlignedBlock(c);
    BlockCapsAscending(p.memory, c.start, c.end);
    ScanEndAligned(c.start, c.end);
    assert Ascending(addrs) && Between(addrs, c.start, c.end);
    if j == i {
      CountAll(b.start, b.end, addrs);
    } else if j < i {
      CountNone(b.start, b.end, addrs);
    } else if j == i + 1 {
      CountEnd(b.start, b.end, addrs);
      SpillOverIsRecorded(p, i);
    } else {
      assert AlignedBlock(p.blocks[i + 1]);
      assert b.end <= p.blocks[i + 1].start < p.blocks[i + 1].end <= c.start;
      CountNone(b.start, b.end, addrs);
    }
  }

  /** The count for block i over the rows of the first n blocks. */
  lemma {:induction false} CountOverBlocks(p: Process, i: nat, n: nat)
    requires MemoryMap(p.blocks) && i < |p.blocks| && n <= |p.blocks|
    ensures Count(Range(p.blocks[i].start, p.blocks[i].end, false), Any, CapRows(p, p.blocks[..n])) ==
            (if i < n then |CapsOf(p, p.blocks[i])| else 0) + (if i + 1 < n && SpillsOver(p, i) then 1 else 0)
  {
    hide MemoryMap, CapsOf, SpillsOver, PrintHex, ParseAddr, MmapPath, Seen;
    if n > 0 {
      var b, c := p.blocks[i], p.blocks[n - 1];
      var g := Range(b.start, b.end, false);
      assert p.blocks[..n][..n - 1] == p.blocks[..n - 1];
      var before, seen := CapRows(p, p.blocks[..n - 1]), Seen(p.blocks[..n]);
      CountOverBlocks(p, i, n - 1);
      CountOfBlock(p, i, n - 1);
      CountRowsAt(b.start, b.end, p.memory, MmapPath(p, seen, c), CapsOf(p, c));
      CountConcat(g, Any, before, CapRowsOf(p, seen, c));
    }
  }

  // ---- the stored vm rows ----

  lemma {:induction false} VmRowAt(p: Process, n: nat, i: nat)
    requires i < n <= |p.blocks|
    ensures VmRows(p, p.blocks[..n])[i] == VmRowOf(p, Seen(p.blocks[..i + 1]), p.blocks[i])
  {
    hide MmapPath, PrintHex, Owner, Seen, VmRowOf;
    assert p.blocks[..n][..n - 1] == p.blocks[..n - 1];
    if i < n - 1 { VmRowAt(p, n - 1, i); }
  }

  lemma StoredText(p: Process, i: nat)
    requires i < |p.blocks|
    ensures var vm := ScanContents(p, EMPTY).vm;
            |vm| == |p.blocks| && vm[i].start == PrintHex(p.blocks[i].start) && vm[i].end == PrintHex(p.blocks[i].end)
  {
    hide PrintHex, MmapPath, Seen, Owner;
    var rows := VmRows(p, p.blocks);
    assert [] + rows == rows;
    StampAllKeeps(rows, Specials(p, Seen(p.blocks)));
    assert p.blocks[..|p.blocks|] == p.blocks;
    VmRowAt(p, |p.blocks|, i);
  }

  /** The view's range for a stored block is the block's own: print and parse cancel below 2^63. */
  lemma StoredRange(p: Process, i: nat)
    requires MemoryMap(p.blocks) && i < |p.blocks|
    ensures var vm := ScanContents(p, EMPTY).vm;
            |vm| == |p.blocks| && VmRange(vm[i]) == Range(p.blocks[i].start, p.blocks[i].end, false)
  {
    hide PrintHex, ParseAddr, ScanContents;
    StoredText(p, i);
    assert AlignedBlock(p.blocks[i]);
    ParsePrint(p.blocks[i].start);
    ParsePrint(p.blocks[i].end);
  }

  /** TOTAL of block i after a scan into empty tables. */
  function Total(p: Process, i: nat): nat
    requires i < |ScanContents(p, EMPTY).vm|
  {
    var c := ScanContents(p, EMPTY);
    Count(VmRange(c.vm[i]), Any, c.caps)
  }

  /**
   End to end: the TOTAL shown for a block is the number of capabilities recorded from it, plus one
   exactly when the next block starts at its end and had its first granule recorded.
   */
  lemma TotalExact(p: Process, i: nat)
    requires MemoryMap(p.blocks) && i < |p.blocks|
    ensures |ScanContents(p, EMPTY).vm| == |p.blocks|
    ensures Total(p, i) == |CapsOf(p, p.blocks[i])| + if SpillsOver(p, i) then 1 else 0
  {
    hide MemoryMap, CapsOf, ScanContents, VmRange, Density, Count;
    StoredRange(p, i);
    StoredCaps(p);
    CountOverBlocks(p, i, |p.blocks|);
    assert p.blocks[..|p.blocks|] == p.blocks;
  }

  lemma StoredCaps(p: Process)
    ensures ScanContents(p, EMPTY).caps == CapRows(p, p.blocks)
  {
    hide CapRows;
    assert [] + CapRows(p, p.blocks) == CapRows(p, p.blocks);
  }

  /** So TOTAL is, as documented, the capabilities found in this block, if and only if nothing spills over. */
  lemma TotalIsRecordedIff(p: Process, i: nat)
    requires MemoryMap(p.blocks) && i < |p.blocks|
    ensures |ScanContents(p, EMPTY).vm| == |p.blocks|
    ensures Total(p, i) == |CapsOf(p, p.blocks[i])| <==> !SpillsOver(p, i)
  {
    TotalExact(p, i);
  }

  /** Two adjacent pages, one tag at the start of the second: both blocks report a capability. */
  lemma SpillOverHappens(p: Process, a: Block, b: Block)
    requires p.blocks == [a, b]
    requires a.start == 0x1000 && a.end == 0x2000 && b.start == 0x2000 && b.end == 0x3000 && a.hasCap && b.hasCap
    requires forall x :: p.memory.readable(x)
    requires forall x :: p.memory.tagged(x) <==> x == 0x2000
    ensures MemoryMap(p.blocks) && |ScanContents(p, EMPTY).vm| == 2
    ensures (forall x :: x !in CapsOf(p, a)) && Total(p, 0) == |CapsOf(p, a)| + 1
  {
    AlignedBlockCaps(p.memory, a.start, a.end, 0x2000);
    forall x
      ensures x !in CapsOf(p, a)
    {
      AlignedBlockCaps(p.memory, a.start, a.end, x);
    }
    AlignedBlockCaps(p.memory, b.start, b.end, 0x2000);
    TotalExact(p, 0);
  }

  // ---- conservation after a scan ----

  predicate InBlock(blocks: seq<Block>, a: nat) {
    exists i :: 0 <= i < |blocks| && blocks[i].start <= a < blocks[i].end
  }

  lemma {:induction false} RowsInBlocks(p: Process, n: nat)
    requires MemoryMap(p.blocks) && n <= |p.blocks|
    ensures forall k :: 0 <= k < |CapRows(p, p.blocks[..n])| ==>
              InBlock(p.blocks, ParseAddr(CapRows(p, p.blocks[..n])[k].locAddr))
  {
    hide MmapPath, Seen, PrintHex, ParseAddr, CapsOf;
    if n > 0 {
      assert p.blocks[..n][..n - 1] == p.blocks[..n - 1];
      var before, b := CapRows(p, p.blocks[..n - 1]), p.blocks[n - 1];
      var rows, addrs := CapRows(p, p.blocks[..n]), CapsOf(p, b);
      RowsInBlocks(p, n - 1);
      CapsInBlock(p, b);
      forall k | 0 <= k < |rows|
        ensures InBlock(p.blocks, ParseAddr(rows[k].locAddr))
      {
        if k < |before| {
          assert rows[k] == before[k];
        } else {
          var a := addrs[k - |before|];
          assert rows[k] == CapRowAt(p.memory, MmapPath(p, Seen(p.blocks[..n]), b), a);
          ParsePrint(a);
          assert p.blocks[n - 1].start <= a < p.blocks[n - 1].end;
        }
      }
    }
  }

  lemma CapsInBlock(p: Process, b: Block)
    requires AlignedBlock(b)
    ensures forall k :: 0 <= k < |CapsOf(p, b)| ==> b.start <= CapsOf(p, b)[k] < b.end
  {
    BlockCapsAscending(p.memory, b.start, b.end);
    ScanEndAligned(b.start, b.end);
  }

  lemma StoredSorted(p: Process)
    requires MemoryMap(p.blocks)
    ensures |ScanContents(p, EMPTY).vm| == |p.blocks|
    ensures Sorted(ScanContents(p, EMPTY).vm)
    ensures forall a :: InBlock(p.blocks, a) ==> InSome(ScanContents(p, EMPTY).vm, a)
  {
    hide ScanContents, VmRange;
    var vm := ScanContents(p, EMPTY).vm;
    if p.blocks == [] { EmptyMap(p); } else { StoredRange(p, 0); }
    forall i | 0 <= i < |vm|
      ensures VmRange(vm[i]) == Range(p.blocks[i].start, p.blocks[i].end, false)
    {
      StoredRange(p, i);
    }
    assert forall i :: 0 <= i < |vm| ==> AlignedBlock(p.blocks[i]);
  }

  /** The TOTAL column after a scan sums to all stored capabilities plus those stored at some block's end address. */
  lemma ScannedTotalsConserve(p: Process)
    requires MemoryMap(p.blocks)
    ensures var c := ScanContents(p, EMPTY);
            SumTotals(c.vm, c.caps) == |c.caps| + CountAtEnds(c.vm, c.caps)
  {
    hide ScanContents, Sorted, InSome, InBlock, MemoryMap;
    var c := ScanContents(p, EMPTY);
    StoredSorted(p);
    StoredCaps(p);
    RowsInBlocks(p, |p.blocks|);
    assert p.blocks[..|p.blocks|] == p.blocks;
    CoveredTotalsConserve(c.vm, c.caps);
  }

  /** chericat -p and -v on an empty database. */
  method ScanThenView(p: Process) returns (rows: seq<ViewRow>)
    requires MemoryMap(p.blocks)
    ensures |rows| == |p.blocks|
    ensures forall i :: 0 <= i < |rows| ==>
              rows[i].total == |CapsOf(p, p.blocks[i])| + if SpillsOver(p, i) then 1 else 0
  {
    var db := new Database();
    ScanMem(db, p);
    var process := new DbProcess(db);
    rows := VmCapsView(process);
    if |p.blocks| > 0 { TotalExact(p, 0); } else { EmptyMap(p); }
    forall i | 0 <= i < |rows|
      ensures rows[i].total == |CapsOf(p, p.blocks[i])| + if SpillsOver(p, i) then 1 else 0
    {
      TotalExact(p, i);
    }
  }

  lemma EmptyMap(p: Process)
    requires p.blocks == []
    ensures ScanContents(p, EMPTY).vm == []
  {
    StampAllKeeps([], Specials(p, Seen(p.blocks)));
  }
}
