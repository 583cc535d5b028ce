/**
 python/full_graph.py: every capability whose target lies, as text, in a block of a library draws
 an edge from the library the capability is stored in to that library.
 */
module FullGraph {
  import opened Text
  import opened Hex
  import opened Tables
  import opened SuffixFilter
  import opened Edges

  /** A pair of rows of the two paired queries for start_addr and end_addr. */
  datatype Span = Span(start: string, end: string)

  /** SELECT DISTINCT, in order of first appearance. */
  function Distinct<T(==)>(xs: seq<T>): seq<T> {
    if xs == [] then []
    else
      var before, x := Distinct(xs[..|xs| - 1]), xs[|xs| - 1];
      if x in before then before else before + [x]
  }

  function PathsOf(vm: seq<VmRow>): (paths: seq<string>)
    ensures |paths| == |vm| && forall i :: 0 <= i < |vm| ==> paths[i] == vm[i].path
  {
    seq(|vm|, i requires 0 <= i < |vm| => vm[i].path)
  }

  /** SELECT start_addr, end_addr FROM vm WHERE mmap_path LIKE '%path%' */
  function Spans(vm: seq<VmRow>, path: string): seq<Span> {
    if vm == [] then []
    else
      var r := vm[|vm| - 1];
      Spans(vm[..|vm| - 1], path) + if Contains(r.path, path) then [Span(r.start, r.end)] else []
  }

  /** SELECT start_addr FROM vm WHERE mmap_path = path */
  function StartsOf(vm: seq<VmRow>, path: string): seq<string> {
    if vm == [] then []
    else StartsOf(vm[..|vm| - 1], path) + if vm[|vm| - 1].path == path then [vm[|vm| - 1].start] else []
  }

  /** Names that stand for many blocks and are told apart by a start address. */
  predicate Special(path: string) { path == "unknown" || path == "Stack" || path == "Guard" }

  /** The look-up of a special source, by an exact path, finds a row. */
  predicate SourceKnown(vm: seq<VmRow>, path: string) { Special(path) ==> StartsOf(vm, path) != [] }

  /** The look-up of a special library, by LIKE, finds a row. */
  predicate NodeKnown(vm: seq<VmRow>, path: string) { Special(path) ==> Spans(vm, path) != [] }

  function SrcLabel(vm: seq<VmRow>, path: string): string
    requires SourceKnown(vm, path)
  {
    if Special(path) then path + " (" + StartsOf(vm, path)[0] + ")" else path
  }

  function DestLabel(vm: seq<VmRow>, path: string): string
    requires NodeKnown(vm, path)
  {
    if Special(path) then path + " (" + Spans(vm, path)[0].start + ")" else path
  }

  /** The range test on text and the suffix filter. */
  predicate IsHit(path: string, c: CapRow, s: Span) { TextInRange(c.addr, s.start, s.end) && Accepted(c.locPath, path) }

  function KeyOf(vm: seq<VmRow>, path: string, c: CapRow): Key<string>
    requires NodeKnown(vm, path) && SourceKnown(vm, c.locPath)
  {
    Key(SrcLabel(vm, c.locPath), DestLabel(vm, path), c.perms)
  }

  /** Both look-ups that the drawing of an edge needs succeed, or the capability hits no block of the library. */
  predicate CapDrawable(vm: seq<VmRow>, path: string, c: CapRow, spans: seq<Span>) {
    SourceKnown(vm, c.locPath) || forall k :: 0 <= k < |spans| ==> !IsHit(path, c, spans[k])
  }

  predicate CapsDrawable(vm: seq<VmRow>, path: string, caps: seq<CapRow>) {
    forall j :: 0 <= j < |caps| ==> CapDrawable(vm, path, caps[j], Spans(vm, path))
  }

  /** No look-up fails while the graph is drawn. */
  predicate Drawable(vm: seq<VmRow>, caps: seq<CapRow>) {
    forall i :: 0 <= i < |Distinct(PathsOf(vm))| ==> CapsDrawable(vm, Distinct(PathsOf(vm))[i], caps)
  }

  // ---- the hits, counted without an edge list ----

  /** What a hit of a capability on a library counts for: one key, or none when it cannot be named. */
  type Naming = (string, CapRow) -> multiset<Key<string>>

  /** Named by the labels of the graph. */
  ghost function ByLabel(vm: seq<VmRow>): Naming {
    (path: string, c: CapRow) =>
      if NodeKnown(vm, path) && SourceKnown(vm, c.locPath) then multiset{KeyOf(vm, path, c)} else multiset{}
  }

  /** Named by the two paths. */
  ghost function ByPath(): Naming {
    (path: string, c: CapRow) => multiset{Key(c.locPath, path, c.perms)}
  }

  ghost function SpanHits(path: string, c: CapRow, name: multiset<Key<string>>): Span -> multiset<Key<string>> {
    (s: Span) => if IsHit(path, c, s) then name else multiset{}
  }

  ghost function CapHits(vm: seq<VmRow>, path: string, naming: Naming): CapRow -> multiset<Key<string>> {
    (c: CapRow) => Gather(Spans(vm, path), SpanHits(path, c, naming(path, c)))
  }

  ghost function PathHits(vm: seq<VmRow>, caps: seq<CapRow>, naming: Naming): string -> multiset<Key<string>> {
    (path: string) => Gather(caps, CapHits(vm, path, naming))
  }

  /** How often every key is hit over all libraries, capabilities and blocks. */
  ghost function HitsNamed(vm: seq<VmRow>, caps: seq<CapRow>, naming: Naming): multiset<Key<string>> {
    Gather(Distinct(PathsOf(vm)), PathHits(vm, caps, naming))
  }

  /** How often every (source, destination, permissions) of the graph is hit. */
  ghost function Hits(vm: seq<VmRow>, caps: seq<CapRow>): multiset<Key<string>> { HitsNamed(vm, caps, ByLabel(vm)) }

  // ---- the loops ----

  lemma {:induction false} OnlyOneKey(path: string, c: CapRow, key: Key<string>, spans: seq<Span>)
    ensures forall k :: k in Gather(spans, SpanHits(path, c, multiset{key})) ==> k == key
    ensures Gather(spans, SpanHits(path, c, multiset{key})) == multiset{} ||
            key in Gather(spans, SpanHits(path, c, multiset{key}))
  {
    hide IsHit;
    if spans != [] { OnlyOneKey(path, c, key, spans[..|spans| - 1]); }
  }

  lemma {:induction false} NoHits(path: string, c: CapRow, name: multiset<Key<string>>, spans: seq<Span>)
    requires forall k :: 0 <= k < |spans| ==> !IsHit(path, c, spans[k])
    ensures Gather(spans, SpanHits(path, c, name)) == multiset{}
  {
    hide IsHit;
    if spans != [] {
      var before := spans[..|spans| - 1];
      assert forall k :: 0 <= k < |before| ==> before[k] == spans[k];
      NoHits(path, c, name, before);
    }
  }

  lemma KnownName(vm: seq<VmRow>, path: string, c: CapRow)
    requires NodeKnown(vm, path) && SourceKnown(vm, c.locPath)
    ensures ByLabel(vm)(path, c) == multiset{KeyOf(vm, path, c)}
  {
  }

  /** What one turn of the innermost loop adds; without a hit of the key so far there was none in this loop. */
  lemma SpanTurn(path: string, c: CapRow, key: Key<string>, spans: seq<Span>, k: nat, earlier: multiset<Key<string>>)
    requires k < |spans|
    ensures var f := SpanHits(path, c, multiset{key});
            var now, next := Gather(spans[..k], f), Gather(spans[..k + 1], f);
            && earlier + next == (if IsHit(path, c, spans[k]) then earlier + now + multiset{key} else earlier + now)
            && (key !in earlier + now ==> now == multiset{})
            && (!IsHit(path, c, spans[k]) ==> next == now)
            && (IsHit(path, c, spans[k]) ==> next != multiset{})
  {
    hide IsHit;
    GatherSnoc(spans, k, SpanHits(path, c, multiset{key}));
    OnlyOneKey(path, c, key, spans[..k]);
  }

  lemma NoTurns<T(!new)>(f: T -> multiset<Key<string>>)
    ensures Gather([], f) == multiset{}
  {
  }

  /** The innermost loop, for one library and one capability under the given key; earlier are the hits before it. */
  method HitSpans(
    path: string, c: CapRow, key: Key<string>, spans: seq<Span>, edges0: seq<Edge<string>>,
    ghost earlier: multiset<Key<string>>)
    returns (edges: seq<Edge<string>>)
    requires Counts(edges0, earlier)
    ensures Counts(edges, earlier + Gather(spans, SpanHits(path, c, multiset{key})))
  {
    ghost var f := SpanHits(path, c, multiset{key});
    hide Counts, IsHit, Holds, Gather, SpanHits;
    edges := edges0;
    var weight := NEW;
    NoTurns(f);
    assert earlier + Gather(spans[..0], f) == earlier;
    for k := 0 to |spans|
      invariant Counts(edges, earlier + Gather(spans[..k], f))
      invariant Gather(spans[..k], f) == multiset{} ==> weight == NEW
    {
      ghost var hits := earlier + Gather(spans[..k], f);
      SpanTurn(path, c, key, spans, k, earlier);
      if IsHit(path, c, spans[k]) {
        WeightCounts(edges, hits, key);
        var rest;
        rest, weight := TakeOut(edges, key, weight);
        BumpCounts(edges, hits, key, rest, weight);
        edges := rest + [Edge(key, weight)];
      }
    }
    assert spans[..|spans|] == spans;
  }

  /** The innermost loop as it runs: None stands for the IndexError of a look-up, at the first hit, without a row. */
  method HitLibrary(
    vm: seq<VmRow>, path: string, c: CapRow, spans: seq<Span>, edges: seq<Edge<string>>,
    ghost earlier: multiset<Key<string>>)
    returns (r: Option<seq<Edge<string>>>)
    requires NodeKnown(vm, path) && spans == Spans(vm, path) && Counts(edges, earlier)
    ensures r.Some? <==> CapDrawable(vm, path, c, spans)
    ensures r.Some? ==> Counts(r.value, earlier + CapHits(vm, path, ByLabel(vm))(c))
  {
    hide Counts, IsHit, SourceKnown, NodeKnown, KeyOf, ByLabel, Spans;
    if SourceKnown(vm, c.locPath) {
      KnownName(vm, path, c);
      var next := HitSpans(path, c, KeyOf(vm, path, c), spans, edges, earlier);
      return Some(next);
    }
    for k := 0 to |spans|
      invariant forall i :: 0 <= i < k ==> !IsHit(path, c, spans[i])
    {
      if IsHit(path, c, spans[k]) {
        return None;
      }
    }
    NoHits(path, c, ByLabel(vm)(path, c), spans);
    assert earlier + multiset{} == earlier;
    r := Some(edges);
  }

  /** The loop over the capabilities for one library. */
  method HitCaps(
    vm: seq<VmRow>, path: string, caps: seq<CapRow>, edges0: seq<Edge<string>>, ghost earlier: multiset<Key<string>>)
    returns (r: Option<seq<Edge<string>>>)
    requires NodeKnown(vm, path) && Counts(edges0, earlier)
    ensures r.Some? <==> CapsDrawable(vm, path, caps)
    ensures r.Some? ==> Counts(r.value, earlier + PathHits(vm, caps, ByLabel(vm))(path))
  {
    hide Counts, Spans, CapDrawable, NodeKnown, SourceKnown, CapHits, ByLabel;
    var edges := edges0;
    ghost var f := CapHits(vm, path, ByLabel(vm));
    var spans := Spans(vm, path);
    assert earlier + Gather(caps[..0], f) == earlier;
    for j := 0 to |caps|
      invariant Counts(edges, earlier + Gather(caps[..j], f))
      invariant forall i :: 0 <= i < j ==> CapDrawable(vm, path, caps[i], spans)
    {
      GatherSnoc(caps, j, f);
      ghost var before := earlier + Gather(caps[..j], f);
      var next := HitLibrary(vm, path, caps[j], spans, edges, before);
      if next.None? {
        return None;
      }
      edges := next.value;
      assert before + f(caps[j]) == earlier + Gather(caps[..j + 1], f);
    }
    assert caps[..|caps|] == caps;
    r := Some(edges);
  }

  datatype Graph = Graph(nodes: seq<string>, edges: seq<Edge<string>>)

  /** A node for every library, by its label. */
  ghost predicate NodesOf(vm: seq<VmRow>, nodes: seq<string>) {
    var paths := Distinct(PathsOf(vm));
    && |nodes| == |paths|
    && forall i :: 0 <= i < |paths| ==> NodeKnown(vm, paths[i]) && nodes[i] == DestLabel(vm, paths[i])
  }

  /** The whole graph, or None when a look-up fails. */
  method GenFullGraph(vm: seq<VmRow>, caps: seq<CapRow>) returns (g: Option<Graph>)
    ensures g.Some? <==> Drawable(vm, caps)
    ensures g.Some? ==> NodesOf(vm, g.value.nodes) && Counts(g.value.edges, Hits(vm, caps))
  {
    hide Counts, CapsDrawable, DestLabel, NodeKnown, Distinct, PathsOf, PathHits, ByLabel;
    var paths := Distinct(PathsOf(vm));
    ghost var f := PathHits(vm, caps, ByLabel(vm));
    var nodes: seq<string>, edges: seq<Edge<string>> := [], [];
    NoEdges();
    for i := 0 to |paths|
      invariant Counts(edges, Gather(paths[..i], f))
      invariant |nodes| == i
      invariant forall k :: 0 <= k < i ==> NodeKnown(vm, paths[k]) && nodes[k] == DestLabel(vm, paths[k])
      invariant forall k :: 0 <= k < i ==> CapsDrawable(vm, paths[k], caps)
    {
      StoredNodeKnown(vm, i);
      nodes := nodes + [DestLabel(vm, paths[i])];
      GatherSnoc(paths, i, f);
      var next := HitCaps(vm, paths[i], caps, edges, Gather(paths[..i], f));
      if next.None? {
        return None;
      }
      edges := next.value;
    }
    assert paths[..|paths|] == paths;
    g := Some(Graph(nodes, edges));
  }

  lemma NoEdges()
    ensures Counts<string>([], multiset{})
  {
  }

  /** Both look-ups of a stored path are among rows that exist. */
  lemma {:induction false} LookupsSucceed(vm: seq<VmRow>, path: string)
    requires PathIn(vm, path)
    ensures StartsOf(vm, path) != [] && Spans(vm, path) != []
  {
    var n := |vm| - 1;
    if vm[n].path == path {
      ContainsSelf(path);
    } else {
      var i :| 0 <= i < |vm| && vm[i].path == path;
      assert vm[..n][i].path == path;
      LookupsSucceed(vm[..n], path);
    }
  }

  /** A library's own look-up never fails: the library is a stored path. */
  lemma StoredNodeKnown(vm: seq<VmRow>, i: nat)
    requires i < |Distinct(PathsOf(vm))|
    ensures NodeKnown(vm, Distinct(PathsOf(vm))[i])
  {
    var path := Distinct(PathsOf(vm))[i];
    DistinctExact(PathsOf(vm));
    assert path in PathsOf(vm);
    var j :| 0 <= j < |vm| && PathsOf(vm)[j] == path;
    assert vm[j].path == path;
    LookupsSucceed(vm, path);
  }

  /** The graph is drawn when every special source is the path of some row. */
  lemma StoredSourcesDrawable(vm: seq<VmRow>, caps: seq<CapRow>)
    requires forall j :: 0 <= j < |caps| && Special(caps[j].locPath) ==> PathIn(vm, caps[j].locPath)
    ensures Drawable(vm, caps)
  {
    forall j | 0 <= j < |caps|
      ensures SourceKnown(vm, caps[j].locPath)
    {
      if Special(caps[j].locPath) { LookupsSucceed(vm, caps[j].locPath); }
    }
  }

  // ---- independence of the order ----

  lemma {:induction false} DistinctExact<T>(xs: seq<T>)
    ensures forall x :: x in Distinct(xs) <==> x in xs
    ensures forall x :: multiset(Distinct(xs))[x] <= 1
  {
    if xs != [] {
      var before, x := xs[..|xs| - 1], xs[|xs| - 1];
      DistinctExact(before);
      assert xs == before + [x];
      if x in Distinct(before) {
      } else {
        assert multiset(Distinct(before))[x] == 0;
        assert multiset(Distinct(before) + [x]) == multiset(Distinct(before)) + multiset{x};
      }
    }
  }

  lemma DistinctSame<T(!new)>(xs: seq<T>, ys: seq<T>)
    requires forall x :: x in xs <==> x in ys
    ensures multiset(Distinct(xs)) == multiset(Distinct(ys))
  {
    DistinctExact(xs);
    DistinctExact(ys);
    forall x
      ensures multiset(Distinct(xs))[x] == multiset(Distinct(ys))[x]
    {
      assert x in Distinct(xs) <==> x in multiset(Distinct(xs));
      assert x in Distinct(ys) <==> x in multiset(Distinct(ys));
    }
  }

  ghost function RowHits(path: string, c: CapRow, name: multiset<Key<string>>): VmRow -> multiset<Key<string>> {
    (r: VmRow) => if Contains(r.path, path) && IsHit(path, c, Span(r.start, r.end)) then name else multiset{}
  }

  /** The hits for the spans of a library are the hits for the rows the query selects. */
  lemma {:induction false} SpansAreRows(vm: seq<VmRow>, path: string, c: CapRow, name: multiset<Key<string>>)
    ensures Gather(Spans(vm, path), SpanHits(path, c, name)) == Gather(vm, RowHits(path, c, name))
  {
    hide Contains, IsHit;
    if vm != [] {
      var before, r := vm[..|vm| - 1], vm[|vm| - 1];
      SpansAreRows(before, path, c, name);
      if Contains(r.path, path) {
        var spans := Spans(vm, path);
        assert spans[..|spans| - 1] == Spans(before, path);
      } else {
        assert Spans(vm, path) == Spans(before, path);
        assert Gather(before, RowHits(path, c, name)) + multiset{} == Gather(before, RowHits(path, c, name));
      }
    }
  }

  lemma CapHitsPermuted(vm: seq<VmRow>, vm': seq<VmRow>, path: string, c: CapRow, naming: Naming)
    requires multiset(vm) == multiset(vm')
    ensures CapHits(vm, path, naming)(c) == CapHits(vm', path, naming)(c)
  {
    hide Spans, Contains, IsHit;
    SpansAreRows(vm, path, c, naming(path, c));
    SpansAreRows(vm', path, c, naming(path, c));
    GatherPermuted(vm, vm', RowHits(path, c, naming(path, c)));
  }

  lemma PathHitsPermuted(
    vm: seq<VmRow>, vm': seq<VmRow>, caps: seq<CapRow>, caps': seq<CapRow>, path: string, naming: Naming)
    requires multiset(vm) == multiset(vm') && multiset(caps) == multiset(caps')
    ensures PathHits(vm, caps, naming)(path) == PathHits(vm', caps', naming)(path)
  {
    hide CapHits;
    GatherPermuted(caps, caps', CapHits(vm, path, naming));
    forall j | 0 <= j < |caps'|
      ensures CapHits(vm, path, naming)(caps'[j]) == CapHits(vm', path, naming)(caps'[j])
    {
      CapHitsPermuted(vm, vm', path, caps'[j], naming);
    }
    GatherSame(caps', CapHits(vm, path, naming), CapHits(vm', path, naming));
  }

  /** Under any naming, the two paths' for one, no order of libraries, capabilities or blocks changes the hits. */
  lemma HitsIgnoreOrder(vm: seq<VmRow>, vm': seq<VmRow>, caps: seq<CapRow>, caps': seq<CapRow>, naming: Naming)
    requires multiset(vm) == multiset(vm') && multiset(caps) == multiset(caps')
    ensures HitsNamed(vm, caps, naming) == HitsNamed(vm', caps', naming)
  {
    hide Distinct, PathsOf, PathHits;
    var paths, paths' := Distinct(PathsOf(vm)), Distinct(PathsOf(vm'));
    PathsSame(vm, vm');
    PathsSame(vm', vm);
    DistinctSame(PathsOf(vm), PathsOf(vm'));
    GatherPermuted(paths, paths', PathHits(vm, caps, naming));
    forall i | 0 <= i < |paths'|
      ensures PathHits(vm, caps, naming)(paths'[i]) == PathHits(vm', caps', naming)(paths'[i])
    {
      PathHitsPermuted(vm, vm', caps, caps', paths'[i], naming);
    }
    GatherSame(paths', PathHits(vm, caps, naming), PathHits(vm', caps', naming));
  }

  /** In the graph of the paths themselves no condition is left. */
  lemma PathWeightsIgnoreOrder(
    vm: seq<VmRow>, vm': seq<VmRow>, caps: seq<CapRow>, caps': seq<CapRow>,
    edges: seq<Edge<string>>, edges': seq<Edge<string>>, key: Key<string>)
    requires multiset(vm) == multiset(vm') && multiset(caps) == multiset(caps')
    requires Counts(edges, HitsNamed(vm, caps, ByPath())) && Counts(edges', HitsNamed(vm', caps', ByPath()))
    ensures Weight(edges, key) == Weight(edges', key)
  {
    hide HitsNamed, Counts;
    HitsIgnoreOrder(vm, vm', caps, caps', ByPath());
    WeightCounts(edges, HitsNamed(vm, caps, ByPath()), key);
    WeightCounts(edges', HitsNamed(vm', caps', ByPath()), key);
  }

  /** Two orders of rows in which the same rows come first for a name, by LIKE and exactly. */
  predicate SameFirst(vm: seq<VmRow>, vm': seq<VmRow>, name: string) {
    && (StartsOf(vm, name) == [] <==> StartsOf(vm', name) == [])
    && (Spans(vm, name) == [] <==> Spans(vm', name) == [])
    && (StartsOf(vm, name) != [] && StartsOf(vm', name) != [] ==> StartsOf(vm, name)[0] == StartsOf(vm', name)[0])
    && (Spans(vm, name) != [] && Spans(vm', name) != [] ==> Spans(vm, name)[0].start == Spans(vm', name)[0].start)
  }

  predicate SameFirstRows(vm: seq<VmRow>, vm': seq<VmRow>) {
    SameFirst(vm, vm', "unknown") && SameFirst(vm, vm', "Stack") && SameFirst(vm, vm', "Guard")
  }

  lemma SameSource(vm: seq<VmRow>, vm': seq<VmRow>, path: string)
    requires SameFirstRows(vm, vm')
    ensures SourceKnown(vm, path) <==> SourceKnown(vm', path)
    ensures SourceKnown(vm, path) ==> SrcLabel(vm, path) == SrcLabel(vm', path)
  {
    hide StartsOf, Spans;
  }

  lemma SameNode(vm: seq<VmRow>, vm': seq<VmRow>, path: string)
    requires SameFirstRows(vm, vm')
    ensures NodeKnown(vm, path) <==> NodeKnown(vm', path)
    ensures NodeKnown(vm, path) ==> DestLabel(vm, path) == DestLabel(vm', path)
  {
    hide StartsOf, Spans;
  }

  lemma SameNaming(vm: seq<VmRow>, vm': seq<VmRow>, path: string, c: CapRow)
    requires SameFirstRows(vm, vm')
    ensures ByLabel(vm)(path, c) == ByLabel(vm')(path, c)
  {
    hide SameFirstRows, SourceKnown, NodeKnown, SrcLabel, DestLabel;
    SameSource(vm, vm', c.locPath);
    SameNode(vm, vm', path);
  }

  lemma HitsSameNaming(vm: seq<VmRow>, vm': seq<VmRow>, caps: seq<CapRow>)
    requires SameFirstRows(vm, vm')
    ensures HitsNamed(vm, caps, ByLabel(vm)) == HitsNamed(vm, caps, ByLabel(vm'))
  {
    hide SameFirstRows, Distinct, PathsOf, Spans, SpanHits;
    var paths, f, g := Distinct(PathsOf(vm)), ByLabel(vm), ByLabel(vm');
    hide ByLabel;
    forall i | 0 <= i < |paths|
      ensures PathHits(vm, caps, f)(paths[i]) == PathHits(vm, caps, g)(paths[i])
    {
      forall j | 0 <= j < |caps|
        ensures CapHits(vm, paths[i], f)(caps[j]) == CapHits(vm, paths[i], g)(caps[j])
      {
        SameNaming(vm, vm', paths[i], caps[j]);
      }
      GatherSame(caps, CapHits(vm, paths[i], f), CapHits(vm, paths[i], g));
    }
    GatherSame(paths, PathHits(vm, caps, f), PathHits(vm, caps, g));
  }

  /**
   The weights of the final graph do not depend on the order of the libraries, the capabilities or the blocks,
   as long as the first rows of the three special names stay first.
   */
  lemma WeightsIgnoreOrder(
    vm: seq<VmRow>, vm': seq<VmRow>, caps: seq<CapRow>, caps': seq<CapRow>,
    edges: seq<Edge<string>>, edges': seq<Edge<string>>, key: Key<string>)
    requires multiset(vm) == multiset(vm') && multiset(caps) == multiset(caps') && SameFirstRows(vm, vm')
    requires Counts(edges, Hits(vm, caps)) && Counts(edges', Hits(vm', caps'))
    ensures Weight(edges, key) == Weight(edges', key)
  {
    hide SameFirstRows, HitsNamed, Counts;
    HitsSameNaming(vm, vm', caps);
    HitsIgnoreOrder(vm, vm', caps, caps', ByLabel(vm'));
    WeightCounts(edges, Hits(vm, caps), key);
    WeightCounts(edges', Hits(vm', caps'), key);
  }

  lemma PathsSame(vm: seq<VmRow>, vm': seq<VmRow>)
    requires multiset(vm) == multiset(vm')
    ensures forall path :: path in PathsOf(vm) ==> path in PathsOf(vm')
  {
    forall path | path in PathsOf(vm)
      ensures path in PathsOf(vm')
    {
      var i :| 0 <= i < |vm| && PathsOf(vm)[i] == path;
      assert vm[i] in multiset(vm');
      var j :| 0 <= j < |vm'| && vm'[j] == vm[i];
      assert PathsOf(vm')[j] == path;
    }
  }
}
