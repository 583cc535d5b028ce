/** The graphs of what the scans of processes store. */
module ScanGraphs {
  import opened Text
  import opened Hex
  import opened Tables
  import opened ElfSymbols
  import opened MemScan
  import opened SuffixFilter
  import opened Edges
  import opened FullGraph
  import opened HitCounts
  import opened GraphEnds
  import opened Rescan
  import opened EndToEnd
  import CompartGraphs
  import CompartTotals

  // ---- which blocks of a library the filter tells apart ----

  function CoveredSections(b: Block, s: SpecialSections): Sections {
    if Covers(b, s.pltAddr, s.pltSize) then (if Covers(b, s.gotAddr, s.gotSize) then PltGot else Plt)
    else if Covers(b, s.gotAddr, s.gotSize) then Got else Plain
  }

  lemma SuffixOfCovered(b: Block, s: SpecialSections)
    ensures Suffix(b, s) == SuffixOf(CoveredSections(b, s))
  {
    hide Covers;
    assert "(.plt)" + "(.got)" == "(.plt)(.got)" && "" + "(.got)" == "(.got)" && "(.plt)" + "" == "(.plt)";
  }

  /**
   Two blocks that the scan gives to one library pass the filter that is to keep them apart exactly when one
   covers both the .plt and the .got of the binary parsed last before it, and the other does not cover the .plt
   of the one parsed last before it.
   */
  lemma BlocksOfOneLibrary(p: Process, seen: seq<Block>, seen': seq<Block>, b: Block, b': Block)
    requires BasePath(seen, b) == BasePath(seen', b')
    ensures var s, s' := CoveredSections(b, LastSpecial(p, seen)), CoveredSections(b', LastSpecial(p, seen'));
            Accepted(MmapPath(p, seen, b), MmapPath(p, seen', b')) <==>
            (s == PltGot && s' in {Plain, Got}) || (s' == PltGot && s in {Plain, Got})
  {
    hide Accepted, BasePath, LastSpecial, CoveredSections, Suffix, SuffixOf;
    SuffixOfCovered(b, LastSpecial(p, seen));
    SuffixOfCovered(b', LastSpecial(p, seen'));
    OneLibrary(
      BasePath(seen, b), CoveredSections(b, LastSpecial(p, seen)), CoveredSections(b', LastSpecial(p, seen')));
  }

  // ---- the library graph by addresses ----

  /** On addresses of one width the scripts connect a target to the blocks that contain it, ends included. */
  lemma GraphRangeIsNumeric(p: Process, i: nat, addr: nat)
    requires MemoryMap(p.blocks) && i < |p.blocks|
    requires addr < USER_TOP && Width(addr) == Width(p.blocks[i].start) == Width(p.blocks[i].end)
    ensures var vm, b := ScanContents(p, EMPTY).vm, p.blocks[i];
            |vm| == |p.blocks| &&
            (TextInRange(PrintHex(addr), vm[i].start, vm[i].end) <==> b.start <= addr <= b.end)
  {
    hide PrintHex, ScanContents, TextInRange, ViewInRange, Width;
    var b := p.blocks[i];
    StoredText(p, i);
    assert AlignedBlock(b);
    RangeTestsAgree(addr, b.start, b.end);
    ViewRange(addr, b.start, b.end);
  }

  /** The addresses the process maps, and those its recorded capabilities point to, have one width. */
  predicate OneWidth(p: Process, w: nat) {
    && (forall i :: 0 <= i < |p.blocks| ==> Width(p.blocks[i].start) == w && Width(p.blocks[i].end) == w)
    && (forall k :: 0 <= k < |CompartTotals.Recorded(p, p.blocks)| ==>
          Target(p, k) < USER_TOP && Width(Target(p, k)) == w)
  }

  /** What the k-th recorded capability points to. */
  function Target(p: Process, k: nat): nat
    requires k < |CompartTotals.Recorded(p, p.blocks)|
  {
    p.memory.capAt(CompartTotals.Recorded(p, p.blocks)[k]).addr
  }

  /** The capability points into the block, which is found for the path, and the names are told apart by the filter. */
  ghost predicate PointsAt(p: Process, key: Key<string>, path: string, k: nat, i: nat)
    requires k < |CompartTotals.Recorded(p, p.blocks)| && k < |ScanContents(p, EMPTY).caps|
    requires i < |p.blocks| && i < |ScanContents(p, EMPTY).vm|
  {
    var c := ScanContents(p, EMPTY);
    && p.blocks[i].start <= Target(p, k) <= p.blocks[i].end
    && Contains(c.vm[i].path, path)
    && Accepted(c.caps[k].locPath, path)
    && Named(c.vm, path, c.caps[k], key)
  }

  lemma StoredSizes(p: Process)
    requires MemoryMap(p.blocks)
    ensures var c := ScanContents(p, EMPTY);
            && |c.vm| == |p.blocks| && |c.caps| == |CompartTotals.Recorded(p, p.blocks)|
            && forall k :: 0 <= k < |c.caps| ==> c.caps[k].addr == PrintHex(Target(p, k))
  {
    hide ScanContents, PrintHex;
    StoredSorted(p);
    StoredCaps(p);
    CompartTotals.RecordedRows(p, p.blocks);
  }

  ghost function PointersSet(p: Process, key: Key<string>): set<Hit>
    requires MemoryMap(p.blocks)
  {
    StoredSizes(p);
    var vm := ScanContents(p, EMPTY).vm;
    set a, k, i | 0 <= a < |vm| && 0 <= k < |CompartTotals.Recorded(p, p.blocks)| && 0 <= i < |p.blocks|
      && PointsAt(p, key, vm[a].path, k, i) :: Hit(vm[a].path, k, i)
  }

  /**
   One scan, then the library graph, on addresses of one width: an edge weighs 9 plus the number of
   (path, recorded capability, block) of which the capability points into the block.
   */
  lemma ScannedWeight(p: Process, w: nat, edges: seq<Edge<string>>, key: Key<string>)
    requires MemoryMap(p.blocks) && OneWidth(p, w)
    requires Counts(edges, Hits(ScanContents(p, EMPTY).vm, ScanContents(p, EMPTY).caps))
    ensures Weight(edges, key) == if PointersSet(p, key) == {} then 0 else 9 + |PointersSet(p, key)|
  {
    hide ScanContents, Counts, Hits, Named, Distinct, PathsOf, Contains, Accepted, Weight, MemoryMap;
    hide PrintHex, TextInRange, Width;
    var c := ScanContents(p, EMPTY);
    StoredSizes(p);
    forall k, i | 0 <= k < |c.caps| && 0 <= i < |c.vm|
      ensures TextInRange(c.caps[k].addr, c.vm[i].start, c.vm[i].end) <==>
              p.blocks[i].start <= Target(p, k) <= p.blocks[i].end
    {
      GraphRangeIsNumeric(p, i, Target(p, k));
    }
    WeightIsNumberOfHits(c.vm, c.caps, edges, key);
    assert HitSet(c.vm, c.caps, key) == PointersSet(p, key);
  }

  // ---- any number of scans, then a graph ----

  method ScanAll(ps: seq<Process>) returns (db: Database)
    ensures fresh(db) && db.Now() == AfterScans(ps, EMPTY)
  {
    hide ScanContents;
    db := new Database();
    for i := 0 to |ps|
      invariant fresh(db) && db.Now() == AfterScans(ps[..i], EMPTY)
    {
      assert ps[..i + 1][..i] == ps[..i];
      ScanMem(db, ps[i]);
    }
    assert ps[..|ps|] == ps;
  }

  /**
   The library graph is drawn without a failed look-up. Its nodes are the libraries, its edges count the hits, end
   at nodes, and start at nodes but for the special names whose first rows differ.
   */
  method ScansThenGraph(ps: seq<Process>) returns (g: Graph)
    ensures var c := AfterScans(ps, EMPTY);
            && Drawable(c.vm, c.caps) && NodesOf(c.vm, g.nodes) && Counts(g.edges, Hits(c.vm, c.caps))
            && forall i :: 0 <= i < |g.edges| ==> EndsKnown(c.vm, c.caps, g.nodes, g.edges[i].key)
  {
    hide ScanContents, Hits, Counts, NodesOf, Drawable, EndsKnown;
    var db := ScanAll(ps);
    CapPathsOverRuns(ps);
    StoredSourcesDrawable(db.vm, db.caps);
    var drawn := GenFullGraph(db.vm, db.caps);
    g := drawn.value;
    forall i | 0 <= i < |g.edges|
      ensures EndsKnown(db.vm, db.caps, g.nodes, g.edges[i].key)
    {
      EdgeEnds(db.vm, db.caps, g.nodes, g.edges, i);
    }
  }

  /**
   Both compartment graphs are drawn without a failed look-up. Every edge of the first comes from some
   stored capability, and when that one is rooted its pair is in the second.
   */
  method ScansThenCompartGraphs(ps: seq<Process>) returns (first: seq<Edge<int>>, second: seq<Edge<int>>)
    ensures var c := AfterScans(ps, EMPTY);
            && Counts(first, CompartGraphs.CompartHits(c.vm, c.caps)) && CompartGraphs.NoSelfEdge(first)
            && CompartGraphs.Records(second, CompartGraphs.HasCapsHits(c.vm, c.caps))
    ensures var c := AfterScans(ps, EMPTY);
            forall i :: 0 <= i < |first| ==>
              CompartGraphs.ComesFromOne(c.vm, c.caps, first[i].key) &&
              CompartGraphs.RootedRepeat(c.vm, c.caps, first[i].key, second)
  {
    hide ScanContents, Counts, CompartGraphs.Drawable, CompartGraphs.CompartHits, CompartGraphs.HasCapsHits;
    hide CompartGraphs.Records, CompartGraphs.NoSelfEdge, CompartGraphs.ComesFromOne, CompartGraphs.RootedRepeat;
    var db := ScanAll(ps);
    var vm, caps := db.vm, db.caps;
    CapPathsOverRuns(ps);
    CompartGraphs.StoredCapsDrawable(vm, CompartGraphs.CompartTargets(vm), caps);
    CompartGraphs.StoredCapsDrawable(vm, CompartGraphs.BaseTargets(vm), caps);
    var a := CompartGraphs.ShowComparts(vm, caps);
    var b := CompartGraphs.ShowCompartsHasCaps(vm, caps);
    first, second := a.value, b.value;
    forall i | 0 <= i < |first|
      ensures CompartGraphs.ComesFromOne(vm, caps, first[i].key)
      ensures CompartGraphs.RootedRepeat(vm, caps, first[i].key, second)
    {
      CompartGraphs.GraphWithinGraph(vm, caps, first, second, i);
    }
  }
}
