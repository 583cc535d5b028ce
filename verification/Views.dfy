/**
 src/vm_caps_view.c and src/comp_caps_view.c: for every block or compartment, the capabilities
 located in its address range are counted, by permission. Both ends of a range are inclusive.
 */
module Views {
  import opened Text
  import opened Hex
  import opened Tables
  import opened Fetch

  /** Which of the counters a capability belongs to. */
  datatype Class = Any | Readable | Ro | Rw | Rx | Rwx

  /** strchr(perms, c) != NULL for c one of r, w, x. */
  predicate InClass(perms: string, cls: Class) {
    match cls
    case Any => true
    case Readable => 'r' in perms
    case Ro => 'r' in perms && 'w' !in perms && 'x' !in perms
    case Rw => 'r' in perms && 'w' in perms && 'x' !in perms
    case Rx => 'r' in perms && 'w' !in perms && 'x' in perms
    case Rwx => 'r' in perms && 'w' in perms && 'x' in perms
  }

  /** A range; the compartment view wants what the capability points to in it too. */
  datatype Range = Range(lo: nat, hi: nat, both: bool)

  predicate Located(g: Range, c: CapRow) {
    && g.lo <= ParseAddr(c.locAddr) <= g.hi
    && (g.both ==> g.lo <= ParseAddr(c.addr) <= g.hi)
  }

  /** The number of capabilities of a class located in a range. */
  function Count(g: Range, cls: Class, caps: seq<CapRow>): (n: nat)
    ensures n <= |caps|
  {
    if caps == [] then 0
    else
      var c := caps[|caps| - 1];
      Count(g, cls, caps[..|caps| - 1]) + if Located(g, c) && InClass(c.perms, cls) then 1 else 0
  }

  /** A printed row; the density is NaN, here None, when there are no capabilities at all. */
  datatype ViewRow = ViewRow(total: nat, ro: nat, rw: nat, rx: nat, rwx: nat, density: Option<real>)

  function Density(part: nat, whole: nat): Option<real> {
    if whole == 0 then None else Some(part as real / whole as real * 100.0)
  }

  function RowFor(g: Range, caps: seq<CapRow>): ViewRow {
    ViewRow(
      Count(g, Any, caps), Count(g, Ro, caps), Count(g, Rw, caps), Count(g, Rx, caps), Count(g, Rwx, caps),
      Density(Count(g, Any, caps), |caps|))
  }

  function VmRange(r: VmRow): Range { Range(ParseAddr(r.start), ParseAddr(r.end), false) }

  /** A NULL address counts as 0. */
  function AddrOrZero(s: Option<string>): nat { if s.None? then 0 else ParseAddr(s.value) }

  function CompRange(r: CompInfo): Range { Range(AddrOrZero(r.start), AddrOrZero(r.end), true) }

  // ---- the counting loops ----

  /** The inner loop of both views, over all capabilities for one range. */
  method Tally(g: Range, caps: array<CapRow>) returns (row: ViewRow)
    ensures row == RowFor(g, caps[..])
  {
    var total, ro, rw, rx, rwx := 0, 0, 0, 0, 0;
    var j := 0;
    while j < caps.Length
      invariant j <= caps.Length
      invariant total == Count(g, Any, caps[..j])
      invariant ro == Count(g, Ro, caps[..j]) && rw == Count(g, Rw, caps[..j])
      invariant rx == Count(g, Rx, caps[..j]) && rwx == Count(g, Rwx, caps[..j])
    {
      var loc, addr, perms := ParseAddr(caps[j].locAddr), ParseAddr(caps[j].addr), caps[j].perms;
      assert caps[..j + 1][..j] == caps[..j];
      if loc >= g.lo && loc <= g.hi && (!g.both || (addr >= g.lo && addr <= g.hi)) {
        total := total + 1;
        if 'r' in perms && 'w' !in perms && 'x' !in perms {
          ro := ro + 1;
        }
        if 'r' in perms && 'w' in perms && 'x' !in perms {
          rw := rw + 1;
        }
        if 'r' in perms && 'x' in perms && 'w' !in perms {
          rx := rx + 1;
        }
        if 'r' in perms && 'x' in perms && 'w' in perms {
          rwx := rwx + 1;
        }
      }
      j := j + 1;
    }
    assert caps[..j] == caps[..];
    row := ViewRow(total, ro, rw, rx, rwx, Density(total, caps.Length));
  }

  /** One row for every row of vm, in order. The program aborts when a fetch fails, so both succeed here. */
  method VmCapsView(p: DbProcess) returns (out: seq<ViewRow>)
    requires p.Valid()
    modifies p.Indices()
    ensures p.Valid() && |out| == |p.db.vm|
    ensures forall i :: 0 <= i < |out| ==> out[i] == RowFor(VmRange(p.db.vm[i]), p.db.caps)
  {
    hide RowFor, VmRange;
    var vmCount, vm := p.GetAllVmInfo(Complete);
    var capCount, caps := p.GetAllCapInfo(Complete);
    ghost var blocks, locs := vm[..], caps[..];
    out := [];
    for i := 0 to vm.Length
      invariant |out| == i && vm[..] == blocks && caps[..] == locs
      invariant forall k :: 0 <= k < i ==> out[k] == RowFor(VmRange(blocks[k]), locs)
      modifies {}
    {
      var row := Tally(VmRange(vm[i]), caps);
      out := out + [row];
    }
  }

  /** One row for every compartment, by ascending id. */
  method CompCapsView(p: DbProcess) returns (out: seq<ViewRow>)
    requires p.Valid()
    modifies p.Indices()
    ensures p.Valid() && |out| == |p.db.comparts|
    ensures forall i :: 0 <= i < |out| ==> out[i] == RowFor(CompRange(CompRows(p.db.comparts)[i]), p.db.caps)
  {
    hide RowFor, CompRange, CompRows;
    var compCount, comps := p.GetAllCompInfo(Complete);
    var capCount, caps := p.GetAllCapInfo(Complete);
    ghost var ranges, locs := comps[..], caps[..];
    out := [];
    for i := 0 to comps.Length
      invariant |out| == i && comps[..] == ranges && caps[..] == locs
      invariant forall k :: 0 <= k < i ==> out[k] == RowFor(CompRange(ranges[k]), locs)
      modifies {}
    {
      var row := Tally(CompRange(comps[i]), caps);
      out := out + [row];
    }
  }

  // ---- the counters of one row ----

  /** The capability is in the range, as the view reads the addresses, and has these letters and not those. */
  predicate Counted(g: Range, c: CapRow, letters: string, others: string) {
    && g.lo <= ParseAddr(c.locAddr) <= g.hi
    && (g.both ==> g.lo <= ParseAddr(c.addr) <= g.hi)
    && (forall x :: x in letters ==> x in c.perms) && (forall x :: x in others ==> x !in c.perms)
  }

  ghost function Those(g: Range, caps: seq<CapRow>, letters: string, others: string): set<int> {
    set k | 0 <= k < |caps| && Counted(g, caps[k], letters, others)
  }

  ghost function Number(g: Range, caps: seq<CapRow>, letters: string, others: string): nat {
    |Those(g, caps, letters, others)|
  }

  lemma NumberSnoc(g: Range, caps: seq<CapRow>, letters: string, others: string)
    requires caps != []
    ensures var n := |caps| - 1;
            Number(g, caps, letters, others) ==
            Number(g, caps[..n], letters, others) + if Counted(g, caps[n], letters, others) then 1 else 0
  {
    hide Counted;
    var n := |caps| - 1;
    assert Those(g, caps, letters, others) ==
           Those(g, caps[..n], letters, others) + if Counted(g, caps[n], letters, others) then {n} else {};
  }

  lemma {:induction false} CountIsNumber(g: Range, cls: Class, caps: seq<CapRow>, letters: string, others: string)
    requires forall c: CapRow :: Located(g, c) && InClass(c.perms, cls) <==> Counted(g, c, letters, others)
    ensures Count(g, cls, caps) == Number(g, caps, letters, others)
  {
    if caps == [] {
      assert Those(g, caps, letters, others) == {};
    } else {
      hide Located, InClass, Counted, Number;
      NumberSnoc(g, caps, letters, others);
      CountIsNumber(g, cls, caps[..|caps| - 1], letters, others);
    }
  }

  /** What a printed row says: the five counts, by their letters, and the density in percent of all capabilities. */
  lemma RowExact(g: Range, caps: seq<CapRow>)
    ensures var r := RowFor(g, caps);
            && r.total == Number(g, caps, "", "")
            && r.ro == Number(g, caps, "r", "wx") && r.rw == Number(g, caps, "rw", "x")
            && r.rx == Number(g, caps, "rx", "w") && r.rwx == Number(g, caps, "rwx", "")
            && (r.density.None? <==> caps == [])
            && (caps != [] ==> r.density.value * |caps| as real == 100.0 * r.total as real)
  {
    hide ParseAddr, Count, Number;
    CountIsNumber(g, Any, caps, "", "");
    CountIsNumber(g, Ro, caps, "r", "wx");
    CountIsNumber(g, Rw, caps, "rw", "x");
    CountIsNumber(g, Rx, caps, "rx", "w");
    CountIsNumber(g, Rwx, caps, "rwx", "");
    if caps != [] { Percent(Count(g, Any, caps) as real, |caps| as real); }
  }

  lemma Percent(part: real, whole: real)
    requires whole > 0.0
    ensures part / whole * 100.0 * whole == 100.0 * part
  {
    assert part / whole * whole == part;
    assert part / whole * 100.0 * whole == part / whole * whole * 100.0;
  }

  /** ro + rw + rx + rwx is the number of counted capabilities that have 'r'. */
  lemma {:induction false} ClassesPartition(g: Range, caps: seq<CapRow>)
    ensures Count(g, Ro, caps) + Count(g, Rw, caps) + Count(g, Rx, caps) + Count(g, Rwx, caps) ==
            Count(g, Readable, caps)
    ensures Count(g, Readable, caps) <= Count(g, Any, caps)
  {
    if caps != [] { ClassesPartition(g, caps[..|caps| - 1]); }
  }

  /** The compartment view's count for a range never exceeds the vm view's for the same range. */
  lemma {:induction false} CompNeverExceedsVm(lo: nat, hi: nat, cls: Class, caps: seq<CapRow>)
    ensures Count(Range(lo, hi, true), cls, caps) <= Count(Range(lo, hi, false), cls, caps)
  {
    if caps != [] { CompNeverExceedsVm(lo, hi, cls, caps[..|caps| - 1]); }
  }

  lemma {:induction false} CountConcat(g: Range, cls: Class, a: seq<CapRow>, b: seq<CapRow>)
    ensures Count(g, cls, a + b) == Count(g, cls, a) + Count(g, cls, b)
  {
    if b == [] {
      assert a + b == a;
    } else {
      CountConcat(g, cls, a, b[..|b| - 1]);
      assert (a + b)[..|a + b| - 1] == a + b[..|b| - 1];
    }
  }

  // ---- conservation over all rows ----

  predicate Inside(g: Range, a: nat) { g.lo <= a < g.hi }

  predicate InSome(vm: seq<VmRow>, a: nat) { exists i :: 0 <= i < |vm| && Inside(VmRange(vm[i]), a) }

  predicate AtSomeEnd(vm: seq<VmRow>, a: nat) { exists i :: 0 <= i < |vm| && VmRange(vm[i]).hi == a }

  /** Blocks in address order, non-empty and disjoint. */
  ghost predicate Sorted(vm: seq<VmRow>) {
    && (forall i :: 0 <= i < |vm| ==> VmRange(vm[i]).lo < VmRange(vm[i]).hi)
    && (forall i, j :: 0 <= i < j < |vm| ==> VmRange(vm[i]).hi <= VmRange(vm[j]).lo)
  }

  /** How many rows count a capability at this address. */
  function TimesCounted(vm: seq<VmRow>, a: nat): nat {
    if vm == [] then 0
    else
      var g := VmRange(vm[|vm| - 1]);
      TimesCounted(vm[..|vm| - 1], a) + if g.lo <= a <= g.hi then 1 else 0
  }

  function One(b: bool): nat { if b then 1 else 0 }

  lemma InSomeSnoc(vm: seq<VmRow>, r: VmRow, a: nat)
    ensures InSome(vm + [r], a) <==> InSome(vm, a) || Inside(VmRange(r), a)
    ensures AtSomeEnd(vm + [r], a) <==> AtSomeEnd(vm, a) || VmRange(r).hi == a
  {
    var all := vm + [r];
    assert all[|vm|] == r;
    if InSome(vm, a) {
      var i :| 0 <= i < |vm| && Inside(VmRange(vm[i]), a);
      assert all[i] == vm[i];
    }
    if AtSomeEnd(vm, a) {
      var i :| 0 <= i < |vm| && VmRange(vm[i]).hi == a;
      assert all[i] == vm[i];
    }
  }

  /** An address is counted once for the block it lies in and once more for the block it ends. */
  lemma {:induction false} TimesCountedExact(vm: seq<VmRow>, a: nat)
    requires Sorted(vm)
    ensures TimesCounted(vm, a) == One(InSome(vm, a)) + One(AtSomeEnd(vm, a))
  {
    hide ParseAddr;
    if vm != [] {
      var before, r := vm[..|vm| - 1], vm[|vm| - 1];
      assert vm == before + [r];
      TimesCountedExact(before, a);
      InSomeSnoc(before, r, a);
    }
  }

  function SumTotals(vm: seq<VmRow>, caps: seq<CapRow>): nat {
    if vm == [] then 0
    else SumTotals(vm[..|vm| - 1], caps) + Count(VmRange(vm[|vm| - 1]), Any, caps)
  }

  function CountInSome(vm: seq<VmRow>, caps: seq<CapRow>): nat {
    if caps == [] then 0
    else CountInSome(vm, caps[..|caps| - 1]) + One(InSome(vm, ParseAddr(caps[|caps| - 1].locAddr)))
  }

  function CountAtEnds(vm: seq<VmRow>, caps: seq<CapRow>): nat {
    if caps == [] then 0
    else CountAtEnds(vm, caps[..|caps| - 1]) + One(AtSomeEnd(vm, ParseAddr(caps[|caps| - 1].locAddr)))
  }

  lemma {:induction false} SumTotalsNoCaps(vm: seq<VmRow>)
    ensures SumTotals(vm, []) == 0
  {
    if vm != [] { SumTotalsNoCaps(vm[..|vm| - 1]); }
  }

  lemma {:induction false} SumTotalsSnoc(vm: seq<VmRow>, caps: seq<CapRow>, c: CapRow)
    ensures SumTotals(vm, caps + [c]) == SumTotals(vm, caps) + TimesCounted(vm, ParseAddr(c.locAddr))
  {
    hide ParseAddr;
    if vm != [] {
      SumTotalsSnoc(vm[..|vm| - 1], caps, c);
      assert (caps + [c])[..|caps|] == caps;
    }
  }

  /**
   Conservation: over sorted disjoint blocks the TOTALs sum to the capabilities located in some
   block plus the capabilities located at some block's end address.
   */
  lemma {:induction false} TotalsConserve(vm: seq<VmRow>, caps: seq<CapRow>)
    requires Sorted(vm)
    ensures SumTotals(vm, caps) == CountInSome(vm, caps) + CountAtEnds(vm, caps)
  {
    if caps == [] {
      SumTotalsNoCaps(vm);
    } else {
      var before, c := caps[..|caps| - 1], caps[|caps| - 1];
      assert caps == before + [c];
      TotalsConserve(vm, before);
      SumTotalsSnoc(vm, before, c);
      TimesCountedExact(vm, ParseAddr(c.locAddr));
    }
  }

  /** With blocks that cover every location, the first summand is the number of all capabilities. */
  lemma {:induction false} CoveredTotalsConserve(vm: seq<VmRow>, caps: seq<CapRow>)
    requires Sorted(vm) && forall k :: 0 <= k < |caps| ==> InSome(vm, ParseAddr(caps[k].locAddr))
    ensures SumTotals(vm, caps) == |caps| + CountAtEnds(vm, caps)
  {
    TotalsConserve(vm, caps);
    AllInSome(vm, caps);
  }

  lemma {:induction false} AllInSome(vm: seq<VmRow>, caps: seq<CapRow>)
    requires forall k :: 0 <= k < |caps| ==> InSome(vm, ParseAddr(caps[k].locAddr))
    ensures CountInSome(vm, caps) == |caps|
  {
    hide InSome, ParseAddr;
    if caps != [] {
      assert InSome(vm, ParseAddr(caps[|caps| - 1].locAddr));
      var before := caps[..|caps| - 1];
      assert forall k :: 0 <= k < |before| ==> before[k] == caps[k];
      AllInSome(vm, before);
    }
  }

  // ---- replays ----

  function Replay<T>(rows: seq<T>, k: nat): seq<T> { if k == 0 then [] else Replay(rows, k - 1) + rows }

  lemma {:induction false} CountReplay(g: Range, cls: Class, caps: seq<CapRow>, k: nat)
    ensures Count(g, cls, Replay(caps, k)) == k * Count(g, cls, caps)
    ensures |Replay(caps, k)| == k * |caps|
  {
    hide Count;
    if k == 0 {
      assert Count(g, cls, []) <= 0;
    } else {
      CountReplay(g, cls, caps, k - 1);
      CountConcat(g, cls, Replay(caps, k - 1), caps);
      Distribute(k, Count(g, cls, caps));
      Distribute(k, |caps|);
    }
  }

  lemma Distribute(k: nat, n: nat)
    requires k > 0
    ensures (k - 1) * n + n == k * n
  {
  }

  lemma ScaledRatio(part: nat, whole: nat, k: nat)
    requires whole > 0 && k > 0
    ensures k * whole > 0 && (k * part) as real / (k * whole) as real == part as real / whole as real
  {
    var x, y, z := part as real, whole as real, k as real;
    assert (k * part) as real == z * x && (k * whole) as real == z * y;
    assert (z * x) * y == x * (z * y);
  }

  /** Storing the same capabilities k times leaves every row's density as it was. */
  lemma DensityUnderReplay(g: Range, caps: seq<CapRow>, k: nat)
    requires k > 0 && caps != []
    ensures RowFor(g, Replay(caps, k)).density == RowFor(g, caps).density
    ensures RowFor(g, Replay(caps, k)).total == k * RowFor(g, caps).total
  {
    CountReplay(g, Any, caps, k);
    ScaledRatio(Count(g, Any, caps), |caps|, k);
  }
}
