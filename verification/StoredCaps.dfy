/** src/cap_capture.c:93-94: what the cap_info rows hold after a scan, column by column, said on the process. */
module StoredCaps {
  import opened Hex
  import opened Tables
  import opened MemScan
  import opened CompartTotals
  import EndToEnd

  /** For every recorded address the block it was recorded from. */
  function RecordedFrom(p: Process, n: nat): (froms: seq<nat>)
    requires n <= |p.blocks|
    ensures forall k :: 0 <= k < |froms| ==> froms[k] < n
  {
    if n == 0 then [] else RecordedFrom(p, n - 1) + seq(|CapsOf(p, p.blocks[n - 1])|, _ => n - 1)
  }

  lemma {:induction false} RowsFromBlocks(p: Process, n: nat, k: nat)
    requires n <= |p.blocks|
    ensures |RecordedFrom(p, n)| == |CapRows(p, p.blocks[..n])| == |Recorded(p, p.blocks[..n])|
    ensures k < |RecordedFrom(p, n)| ==>
              var i := RecordedFrom(p, n)[k];
              && CapRows(p, p.blocks[..n])[k].locPath == MmapPath(p, Seen(p.blocks[..i + 1]), p.blocks[i])
              && Recorded(p, p.blocks[..n])[k] in CapsOf(p, p.blocks[i])
  {
    hide CapsOf, MmapPath, Seen, PrintHex;
    if n > 0 {
      assert p.blocks[..n][..n - 1] == p.blocks[..n - 1];
      RowsFromBlocks(p, n - 1, k);
    }
  }

  lemma CapTableSize(p: Process, c: Contents)
    ensures var now, recorded := ScanContents(p, c), Recorded(p, p.blocks);
            && |RecordedFrom(p, |p.blocks|)| == |recorded|
            && |now.caps| == |c.caps| + |recorded| && now.caps[..|c.caps|] == c.caps
            && now.caps[|c.caps|..] == CapRows(p, p.blocks)
  {
    assert p.blocks[..|p.blocks|] == p.blocks;
    RowsFromBlocks(p, |p.blocks|, 0);
    hide VmRows, CapRows, SymRows, StampAll, Recorded, RecordedFrom;
  }

  /**
   The cap_info table after a scan, from any contents: row k is that of the recorded address k, under the path of the
   row of the block it was recorded from.
   */
  lemma CapRowsExact(p: Process, c: Contents, k: nat)
    requires k < |Recorded(p, p.blocks)|
    ensures var now, a := ScanContents(p, c), Recorded(p, p.blocks)[k];
            && |RecordedFrom(p, |p.blocks|)| == |Recorded(p, p.blocks)|
            && |now.caps| == |c.caps| + |Recorded(p, p.blocks)|
            && |now.vm| == |c.vm| + |p.blocks|
            && var i := RecordedFrom(p, |p.blocks|)[k];
               CapHolds(p, now.caps[|c.caps| + k], a, p.blocks[i], now.vm[|c.vm| + i].path)
  {
    hide ScanContents, CapRows, Recorded, RecordedFrom, MmapPath, Seen, CapHolds;
    assert p.blocks[..|p.blocks|] == p.blocks;
    CapTableSize(p, c);
    assert ScanContents(p, c).caps[|c.caps| + k] == CapRows(p, p.blocks)[k];
    CapRowHolds(p, k);
    StoredPath(p, c, RecordedFrom(p, |p.blocks|)[k]);
  }

  /** The columns stored for the capability at a, recorded from a block with this path. */
  predicate CapHolds(p: Process, r: CapRow, a: nat, b: Block, path: string) {
    && a in CapsOf(p, b) && r.locPath == path
    && r.locAddr == PrintHex(a) && r.addr == PrintHex(p.memory.capAt(a).addr) && r.perms == p.memory.capAt(a).perms
    && r.base == PrintHex(p.memory.capAt(a).base) && r.top == PrintHex(p.memory.capAt(a).top)
  }

  lemma CapRowHolds(p: Process, k: nat)
    requires k < |Recorded(p, p.blocks)|
    ensures |RecordedFrom(p, |p.blocks|)| == |CapRows(p, p.blocks)| == |Recorded(p, p.blocks)|
    ensures var i := RecordedFrom(p, |p.blocks|)[k];
            CapHolds(
              p, CapRows(p, p.blocks)[k], Recorded(p, p.blocks)[k], p.blocks[i],
              MmapPath(p, Seen(p.blocks[..i + 1]), p.blocks[i]))
  {
    hide CapRows, Recorded, RecordedFrom, MmapPath, Seen, PrintHex, CapsOf;
    assert p.blocks[..|p.blocks|] == p.blocks;
    RowsFromBlocks(p, |p.blocks|, k);
    RecordedRows(p, p.blocks);
    assert RowFrom(p.memory, CapRows(p, p.blocks)[k], Recorded(p, p.blocks)[k]);
  }

  lemma StoredPath(p: Process, c: Contents, i: nat)
    requires i < |p.blocks|
    ensures |ScanContents(p, c).vm| == |c.vm| + |p.blocks|
    ensures ScanContents(p, c).vm[|c.vm| + i].path == MmapPath(p, Seen(p.blocks[..i + 1]), p.blocks[i])
  {
    hide PrintHex, MmapPath, Seen, Specials, StampAll;
    assert p.blocks[..|p.blocks|] == p.blocks;
    StampAllKeeps(c.vm + VmRows(p, p.blocks), Specials(p, Seen(p.blocks)));
    EndToEnd.VmRowAt(p, |p.blocks|, i);
  }
}
