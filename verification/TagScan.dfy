/**
 src/cap_capture.c: one page of tags becomes rows of cap_info. The kernel hands over 32
 bytes, one bit a 16-byte granule; get_tags walks the bytes and shifts the bits out.
 */
module TagScan {
  import opened Text
  import opened Arith
  import opened Hex
  import opened RowText
  import opened Tables

  const PAGE: nat := 4096
  const GRANULE: nat := 16
  const ZERO_CHAR: nat := 0x30 // '0', which the guard in get_tags compares a tag byte with

  /** A capability as strfcap prints it. */
  datatype Capability = Capability(addr: nat, perms: SqlText, base: nat, top: nat)

  /** The memory of the traced process: its tags, the pages whose tags can be read, what a tagged granule holds. */
  datatype Memory = Memory(tagged: nat -> bool, readable: nat -> bool, capAt: nat -> Capability)

  /** Bits j..8 of the tag byte for the eight granules from base: the byte shifted right j times. */
  function PackedFrom(m: Memory, base: nat, j: nat): (b: nat)
    requires j <= 8
    ensures j == 8 ==> b == 0
    decreases 8 - j
  {
    if j == 8 then 0 else Bit(m.tagged(base + GRANULE * j)) + 2 * PackedFrom(m, base, j + 1)
  }

  function Bit(b: bool): nat { if b then 1 else 0 }

  function TagByte(m: Memory, base: nat): nat { PackedFrom(m, base, 0) }

  /** PIOD_READ_CHERI_TAGS for the page at start. */
  function TagBuffer(m: Memory, start: nat): (b: seq<nat>)
    ensures |b| == 32
  {
    seq(32, i requires 0 <= i < 32 => TagByte(m, start + 128 * i))
  }

  /** The row get_capability renders. */
  function CapRowAt(m: Memory, path: SqlText, a: nat): (r: CapRow)
    ensures CapQuotable(r)
  {
    var c := m.capAt(a);
    CapRow(PrintHex(a), path, PrintHex(c.addr), c.perms, PrintHex(c.base), PrintHex(c.top))
  }

  function CapRowsAt(m: Memory, path: SqlText, addrs: seq<nat>): (rows: seq<CapRow>)
    ensures |rows| == |addrs|
    ensures forall i :: 0 <= i < |rows| ==> rows[i] == CapRowAt(m, path, addrs[i])
  {
    if addrs == [] then [] else CapRowsAt(m, path, addrs[..|addrs| - 1]) + [CapRowAt(m, path, addrs[|addrs| - 1])]
  }

  // ---- which granules are recorded, said on the tags ----

  /** Exactly the fifth and sixth of the eight granules from base are tagged. */
  predicate LooksLikeZeroChar(m: Memory, base: nat) {
    && !m.tagged(base) && !m.tagged(base + 16) && !m.tagged(base + 32) && !m.tagged(base + 48)
    && m.tagged(base + 64) && m.tagged(base + 80) && !m.tagged(base + 96) && !m.tagged(base + 112)
  }

  lemma TagByteIsZeroChar(m: Memory, base: nat)
    ensures TagByte(m, base) == ZERO_CHAR <==> LooksLikeZeroChar(m, base)
    ensures TagByte(m, base) < 256
  {
  }

  /** The tagged ones among the first j granules from base. */
  function TaggedFirst(m: Memory, base: nat, j: nat): seq<nat> {
    if j == 0 then []
    else TaggedFirst(m, base, j - 1) + if m.tagged(base + GRANULE * (j - 1)) then [base + GRANULE * (j - 1)] else []
  }

  /** The recorded ones among the granules of the first i tag bytes from start. */
  function BytesCaps(m: Memory, start: nat, i: nat): seq<nat> {
    if i == 0 then []
    else BytesCaps(m, start, i - 1) + ByteCaps(m, start + 128 * (i - 1))
  }

  function ByteCaps(m: Memory, base: nat): seq<nat> {
    if LooksLikeZeroChar(m, base) then [] else TaggedFirst(m, base, 8)
  }

  /** What get_tags records of the page at start. */
  function PageCaps(m: Memory, start: nat): seq<nat> {
    if m.readable(start) then BytesCaps(m, start, 32) else []
  }

  predicate Ascending(s: seq<nat>) { forall i, j :: 0 <= i < j < |s| ==> s[i] < s[j] }

  predicate Between(s: seq<nat>, lo: nat, hi: nat) { forall i :: 0 <= i < |s| ==> lo <= s[i] < hi }

  /** The address is recorded when whole tag bytes from start are decoded. */
  predicate KeptFrom(m: Memory, start: nat, a: nat)
    requires start <= a
  {
    (a - start) % GRANULE == 0 && m.tagged(a) && !LooksLikeZeroChar(m, a - (a - start) % 128)
  }

  lemma {:induction false} TaggedFirstMember(m: Memory, base: nat, j: nat, a: nat)
    ensures a in TaggedFirst(m, base, j) <==> base <= a < base + GRANULE * j && (a - base) % GRANULE == 0 && m.tagged(a)
  {
    if j > 0 { TaggedFirstMember(m, base, j - 1, a); }
  }

  lemma {:induction false} TaggedFirstAscending(m: Memory, base: nat, j: nat)
    ensures |TaggedFirst(m, base, j)| <= j && Ascending(TaggedFirst(m, base, j))
    ensures Between(TaggedFirst(m, base, j), base, base + GRANULE * j)
  {
    if j > 0 {
      TaggedFirstAscending(m, base, j - 1);
      var last: nat := base + GRANULE * (j - 1);
      AscendingConcat(TaggedFirst(m, base, j - 1), if m.tagged(last) then [last] else [], base, last, last + GRANULE);
    }
  }

  lemma SplitOffset(start: nat, i: nat, a: nat)
    requires start + 128 * i <= a < start + 128 * i + 128
    ensures (a - start) % 128 == a - (start + 128 * i)
    ensures (a - start) % GRANULE == (a - (start + 128 * i)) % GRANULE
  {
    assert a - start == a - (start + 128 * i) + GRANULE * (8 * i);
  }

  /** In the bytes from start, the byte from base holds the address. */
  lemma KeptInByte(m: Memory, start: nat, i: nat, a: nat)
    requires start + 128 * i <= a < start + 128 * i + 128
    ensures KeptFrom(m, start, a) <==> a in ByteCaps(m, start + 128 * i)
  {
    SplitOffset(start, i, a);
    TaggedFirstMember(m, start + 128 * i, 8, a);
  }

  lemma {:induction false} BytesCapsMember(m: Memory, start: nat, i: nat, a: nat)
    ensures a in BytesCaps(m, start, i) <==> start <= a < start + 128 * i && KeptFrom(m, start, a)
  {
    hide KeptFrom, LooksLikeZeroChar, TaggedFirst;
    if i > 0 {
      var base: nat := start + 128 * (i - 1);
      BytesCapsMember(m, start, i - 1, a);
      TaggedFirstMember(m, base, 8, a);
      if base <= a < base + 128 { KeptInByte(m, start, i - 1, a); }
    }
  }

  lemma {:induction false} BytesCapsAscending(m: Memory, start: nat, i: nat)
    ensures |BytesCaps(m, start, i)| <= 8 * i && Ascending(BytesCaps(m, start, i))
    ensures Between(BytesCaps(m, start, i), start, start + 128 * i)
  {
    if i > 0 {
      var base: nat := start + 128 * (i - 1);
      BytesCapsAscending(m, start, i - 1);
      TaggedFirstAscending(m, base, 8);
      AscendingConcat(BytesCaps(m, start, i - 1), ByteCaps(m, base), start, base, base + 128);
    }
  }

  /** An ascending list followed by a later one is ascending. */
  lemma AscendingConcat(s: seq<nat>, t: seq<nat>, lo: nat, mid: nat, hi: nat)
    requires lo <= mid <= hi
    requires Ascending(s) && Ascending(t) && Between(s, lo, mid) && Between(t, mid, hi)
    ensures Ascending(s + t) && Between(s + t, lo, hi)
  {
  }

  // ---- get_tags ----

  /** One shift of the tag byte: the low bit is the granule's tag, the rest is the shifted byte. */
  lemma ShiftOut(m: Memory, base: nat, j: nat)
    requires j < 8
    ensures PackedFrom(m, base, j) % 2 == Bit(m.tagged(base + GRANULE * j))
    ensures PackedFrom(m, base, j) / 2 == PackedFrom(m, base, j + 1)
  {
  }

  lemma CapRowsSnoc(m: Memory, path: SqlText, addrs: seq<nat>, a: nat)
    ensures CapRowsAt(m, path, addrs + [a]) == CapRowsAt(m, path, addrs) + [CapRowAt(m, path, a)]
  {
    assert (addrs + [a])[..|addrs|] == addrs;
  }

  /** The statement text accumulated for a list of addresses. */
  function CapText(m: Memory, path: SqlText, addrs: seq<nat>): Option<string> {
    TextOf(Encode(CapRowsAt(m, path, addrs), CapFields))
  }

  lemma CapTextSnoc(m: Memory, path: SqlText, addrs: seq<nat>, a: nat)
    ensures RowText.Accumulate(CapText(m, path, addrs), RenderRow(CapFields(CapRowAt(m, path, a))))
         == CapText(m, path, addrs + [a])
  {
    var rows, row := CapRowsAt(m, path, addrs), CapRowAt(m, path, a);
    CapRowsSnoc(m, path, addrs, a);
    EncodeSnoc(rows, row, CapFields);
    AccumulateRow(Encode(rows, CapFields), CapFields(row));
  }

  lemma CapTextEmpty(m: Memory, path: SqlText, addrs: seq<nat>)
    ensures CapText(m, path, addrs).None? <==> addrs == []
    ensures addrs != [] ==> RowsIn(CapText(m, path, addrs).value, FieldsCap) == CapRowsAt(m, path, addrs)
  {
    if addrs != [] {
      CapTextInserts(CapRowsAt(m, path, addrs));
    }
  }

  /** textOf gives the statement text for a list of addresses, render the text of one row. */
  ghost predicate Accumulates(render: nat -> string, textOf: seq<nat> -> Option<string>) {
    && textOf([]) == None
    && forall s, a {:trigger textOf(s + [a])} :: textOf(s + [a]) == RowText.Accumulate(textOf(s), render(a))
  }

  /** The inner loop of get_tags: eight shifts of one tag byte, after the addresses in before. */
  method DecodeByte(
    m: Memory, base: nat, render: nat -> string, ghost textOf: seq<nat> -> Option<string>, ghost before: seq<nat>,
    values0: Option<string>, capCount0: nat)
    returns (values: Option<string>, capCount: nat)
    requires Accumulates(render, textOf) && values0 == textOf(before)
    ensures values == textOf(before + TaggedFirst(m, base, 8))
    ensures capCount == capCount0 + |TaggedFirst(m, base, 8)|
  {
    hide LooksLikeZeroChar, PackedFrom, TaggedFirst, TagByte, RowText.Accumulate;
    values, capCount := values0, capCount0;
    var tags := TagByte(m, base);
    ByteStart(m, base);
    TaggedFirstStart(m, base);
    ghost var done := before;
    for j := 0 to 8
      invariant tags == PackedFrom(m, base, j)
      invariant done == before + TaggedFirst(m, base, j)
      invariant values == textOf(done)
      invariant capCount == capCount0 + |TaggedFirst(m, base, j)|
    {
      ShiftOut(m, base, j);
      TaggedFirstStep(m, base, j);
      var bit := tags % 2;
      var address := base + j * 16;
      tags := tags / 2;
      if bit != 0 {
        var val := render(address);
        values := RowText.Accumulate(values, val);
        done := done + [address];
        capCount := capCount + 1;
      }
    }
  }

  /** The outer loop of get_tags over the 32 tag bytes of a page. */
  method DecodePage(m: Memory, start: nat, render: nat -> string, ghost textOf: seq<nat> -> Option<string>)
    returns (values: Option<string>, capCount: nat)
    requires Accumulates(render, textOf)
    ensures values == textOf(BytesCaps(m, start, 32))
    ensures capCount == |BytesCaps(m, start, 32)|
  {
    hide LooksLikeZeroChar, PackedFrom, TaggedFirst, BytesCaps, RowText.Accumulate;
    values, capCount := None, 0;
    var tagsbuf := TagBuffer(m, start);
    BytesCapsStart(m, start);
    for i := 0 to 32
      invariant values == textOf(BytesCaps(m, start, i))
      invariant capCount == |BytesCaps(m, start, i)|
    {
      var base := start + i * 8 * 16;
      var tags := tagsbuf[i];
      assert tags == TagByte(m, base);
      TagByteIsZeroChar(m, base);
      BytesCapsStep(m, start, i);
      ghost var before := BytesCaps(m, start, i);
      if ZERO_CHAR != tags {
        values, capCount := DecodeByte(m, base, render, textOf, before, values, capCount);
      }
      assert before + [] == before;
    }
  }

  lemma ByteStart(m: Memory, base: nat)
    ensures TagByte(m, base) == PackedFrom(m, base, 0)
  {
  }

  lemma TaggedFirstStart(m: Memory, base: nat)
    ensures TaggedFirst(m, base, 0) == []
  {
  }

  lemma TaggedFirstStep(m: Memory, base: nat, j: nat)
    ensures TaggedFirst(m, base, j + 1) ==
            TaggedFirst(m, base, j) + if m.tagged(base + GRANULE * j) then [base + GRANULE * j] else []
  {
  }

  lemma BytesCapsStart(m: Memory, start: nat)
    ensures BytesCaps(m, start, 0) == []
  {
  }

  lemma BytesCapsStep(m: Memory, start: nat, i: nat)
    ensures BytesCaps(m, start, i + 1) == BytesCaps(m, start, i) + ByteCaps(m, start + 128 * i)
  {
  }

  lemma CapTextAccumulates(m: Memory, path: SqlText)
    ensures Accumulates((a: nat) => RenderRow(CapFields(CapRowAt(m, path, a))), (s: seq<nat>) => CapText(m, path, s))
  {
    forall s: seq<nat>, a: nat
      ensures CapText(m, path, s + [a])
           == RowText.Accumulate(CapText(m, path, s), RenderRow(CapFields(CapRowAt(m, path, a))))
    {
      CapTextSnoc(m, path, s, a);
    }
  }

  /**
   Reads the tags of one page, renders a row for every tagged granule, and inserts them
   with one statement. A byte equal to the character '0' is passed over.
   */
  method GetTags(db: Database, m: Memory, start: nat, path: SqlText) returns (capCount: nat)
    modifies db
    ensures db.Now() == old(db.Now()).(caps := old(db.caps) + CapRowsAt(m, path, PageCaps(m, start)))
    ensures capCount == |PageCaps(m, start)| <= 256
  {
    capCount := 0;
    BytesCapsAscending(m, start, 32);
    if m.readable(start) {
      var render := (a: nat) => RenderRow(CapFields(CapRowAt(m, path, a)));
      ghost var textOf := (s: seq<nat>) => CapText(m, path, s);
      CapTextAccumulates(m, path);
      assert Accumulates(render, textOf);
      var values;
      values, capCount := DecodePage(m, start, render, textOf);
      CapTextEmpty(m, path, PageCaps(m, start));
      if values.Some? {
        db.InsertCaps(values.value);
      }
    }
  }

  // ---- a whole block ----

  /** The page loop of scan_mem over [start, end): every 4096 bytes, a last partial page included. */
  function BlockCaps(m: Memory, start: nat, end: nat): seq<nat>
    decreases end - start
  {
    if start >= end then [] else PageCaps(m, start) + BlockCaps(m, start + PAGE, end)
  }

  /** The address is recorded by a scan of whole pages from start. */
  predicate RecordedFrom(m: Memory, start: nat, a: nat)
    requires start <= a
  {
    m.readable(a - (a - start) % PAGE) && KeptFrom(m, start, a)
  }

  lemma PageShift(m: Memory, start: nat, a: nat)
    requires start + PAGE <= a
    ensures RecordedFrom(m, start, a) <==> RecordedFrom(m, start + PAGE, a)
  {
    OffsetShift(a - start - PAGE);
    assert a - (start + PAGE) == a - start - PAGE;
  }

  lemma OffsetShift(d: nat)
    ensures (d + PAGE) % GRANULE == d % GRANULE
    ensures (d + PAGE) % 128 == d % 128
    ensures (d + PAGE) % PAGE == d % PAGE
  {
    ModShift(d, GRANULE, 256);
    ModShift(d, 128, 32);
    ModShift(d, PAGE, 1);
  }

  lemma FirstPage(m: Memory, start: nat, a: nat)
    requires start <= a < start + PAGE
    ensures RecordedFrom(m, start, a) <==> m.readable(start) && KeptFrom(m, start, a)
  {
    assert (a - start) % PAGE == a - start;
  }

  /** Where the page loop stops: the first multiple of 4096 past start that is not below end. */
  function ScanEnd(start: nat, end: nat): nat
    decreases end - start
  {
    if start >= end then start else ScanEnd(start + PAGE, end)
  }

  lemma {:induction false} ScanEndAligned(start: nat, end: nat)
    requires start <= end && start % PAGE == 0 && end % PAGE == 0
    ensures ScanEnd(start, end) == end
    decreases end - start
  {
    if start < end { ScanEndAligned(start + PAGE, end); }
  }

  /**
   Scan exactness: the page, byte and bit loops record an address exactly when it is a tagged
   granule on a readable page, outside the groups of eight whose tag byte is '0'.
   */
  lemma {:induction false} BlockCapsMember(m: Memory, start: nat, end: nat, a: nat)
    ensures a in BlockCaps(m, start, end) <==> start <= a < ScanEnd(start, end) && RecordedFrom(m, start, a)
    decreases end - start
  {
    hide RecordedFrom, KeptFrom, BytesCaps;
    if start < end {
      BlockCapsMember(m, start + PAGE, end, a);
      ScanEndBeyond(start + PAGE, end);
      BytesCapsMember(m, start, 32, a);
      if start <= a < start + PAGE {
        FirstPage(m, start, a);
      } else if start + PAGE <= a {
        PageShift(m, start, a);
      }
    }
  }

  lemma {:induction false} ScanEndBeyond(start: nat, end: nat)
    ensures start <= ScanEnd(start, end)
    decreases end - start
  {
    if start < end { ScanEndBeyond(start + PAGE, end); }
  }

  /** The recorded list is strictly ascending, so without duplicates. */
  lemma {:induction false} BlockCapsAscending(m: Memory, start: nat, end: nat)
    ensures Ascending(BlockCaps(m, start, end)) && start <= ScanEnd(start, end)
    ensures Between(BlockCaps(m, start, end), start, ScanEnd(start, end))
    decreases end - start
  {
    if start < end {
      BytesCapsAscending(m, start, 32);
      BlockCapsAscending(m, start + PAGE, end);
      AscendingConcat(PageCaps(m, start), BlockCaps(m, start + PAGE, end), start, start + PAGE, ScanEnd(start, end));
    }
  }

  lemma AlignedOffset(a: nat, start: nat)
    requires start <= a && start % PAGE == 0
    ensures (a - start) % GRANULE == a % GRANULE && (a - start) % PAGE == a % PAGE && (a - start) % 128 == a % 128
  {
    var d, q := a - start, start / PAGE;
    assert a == d + PAGE * q == d + GRANULE * (256 * q) == d + 128 * (32 * q);
  }

  /** For a page-aligned block the statement needs no reference to where the block starts. */
  lemma AlignedBlockCaps(m: Memory, start: nat, end: nat, a: nat)
    requires start <= end && start % PAGE == 0 && end % PAGE == 0
    ensures a in BlockCaps(m, start, end) <==>
              && start <= a < end && a % GRANULE == 0
              && m.readable(a - a % PAGE) && m.tagged(a) && !LooksLikeZeroChar(m, a - a % 128)
    ensures Between(BlockCaps(m, start, end), start, end)
  {
    BlockCapsMember(m, start, end, a);
    BlockCapsAscending(m, start, end);
    ScanEndAligned(start, end);
    if start <= a { AlignedOffset(a, start); }
  }

  /** Tagged granules are really lost: both of such a group, though the page is readable. */
  lemma ZeroCharLosesCapabilities(m: Memory)
    requires m.readable(0) && LooksLikeZeroChar(m, 0)
    ensures m.tagged(64) && 64 !in BlockCaps(m, 0, PAGE) && m.tagged(80) && 80 !in BlockCaps(m, 0, PAGE)
  {
    AlignedBlockCaps(m, 0, PAGE, 64);
    AlignedBlockCaps(m, 0, PAGE, 80);
  }
}
