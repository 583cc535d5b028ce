/**
 python/comparts_graph.py: the graph of compartments with weighted edges, and the graph that only
 says which compartment holds capabilities into which. Compartments are named by str(id); the
 model uses the ids.
 */
module CompartGraphs {
  import opened Text
  import opened Hex
  import opened Tables
  import opened SuffixFilter
  import opened Edges
  import opened FullGraph

  // ---- queries ----

  function IdsOf(vm: seq<VmRow>): (ids: seq<int>)
    ensures |ids| == |vm| && forall i :: 0 <= i < |vm| ==> ids[i] == vm[i].compartId
  {
    seq(|vm|, i requires 0 <= i < |vm| => vm[i].compartId)
  }

  /** SELECT mmap_path FROM vm WHERE compart_id = id */
  function PathsWith(vm: seq<VmRow>, id: int): seq<string> {
    if vm == [] then []
    else PathsWith(vm[..|vm| - 1], id) + if vm[|vm| - 1].compartId == id then [vm[|vm| - 1].path] else []
  }

  /** SELECT DISTINCT compart_id FROM vm WHERE mmap_path LIKE '%path%', its first result. */
  function FirstCompart(vm: seq<VmRow>, path: string): Option<int> {
    if vm == [] then None
    else if FirstCompart(vm[..|vm| - 1], path).Some? then FirstCompart(vm[..|vm| - 1], path)
    else if Contains(vm[|vm| - 1].path, path) then Some(vm[|vm| - 1].compartId)
    else None
  }

  /** The path a compartment or library is searched by, with its compartment. */
  datatype Target = Target(id: int, path: string)

  function Targets(id: int, paths: seq<string>): (ts: seq<Target>)
    ensures |ts| == |paths| && forall i :: 0 <= i < |ts| ==> ts[i] == Target(id, paths[i])
  {
    seq(|paths|, i requires 0 <= i < |paths| => Target(id, paths[i]))
  }

  /** Every path of a compartment, compartment by compartment: the outer loops of show_comparts. */
  function TargetsOf(vm: seq<VmRow>, ids: seq<int>): seq<Target> {
    if ids == [] then []
    else
      var id := ids[|ids| - 1];
      TargetsOf(vm, ids[..|ids| - 1]) + Targets(id, Distinct(PathsWith(vm, id)))
  }

  function CompartTargets(vm: seq<VmRow>): seq<Target> { TargetsOf(vm, Distinct(IdsOf(vm))) }

  function Pairs(vm: seq<VmRow>): (ps: seq<(int, string)>)
    ensures |ps| == |vm| && forall i :: 0 <= i < |ps| ==> ps[i] == (vm[i].compartId, vm[i].path)
  {
    seq(|vm|, i requires 0 <= i < |vm| => (vm[i].compartId, vm[i].path))
  }

  /** SELECT distinct compart_id, mmap_path FROM vm, each path cut to its last component. */
  function BaseTargets(vm: seq<VmRow>): (ts: seq<Target>)
    ensures |ts| == |Distinct(Pairs(vm))|
    ensures forall i :: 0 <= i < |ts| ==> ts[i] == Target(Distinct(Pairs(vm))[i].0, BaseName(Distinct(Pairs(vm))[i].1))
  {
    var ps := Distinct(Pairs(vm));
    seq(|ps|, i requires 0 <= i < |ps| => Target(ps[i].0, BaseName(ps[i].1)))
  }

  // ---- hits ----

  /** The look-up of the compartment a capability is stored in finds a row. */
  predicate SrcKnown(vm: seq<VmRow>, c: CapRow) { FirstCompart(vm, c.locPath).Some? }

  function SrcOf(vm: seq<VmRow>, c: CapRow): int
    requires SrcKnown(vm, c)
  {
    FirstCompart(vm, c.locPath).value
  }

  lemma {:induction false} SrcFound(vm: seq<VmRow>, path: string)
    requires PathIn(vm, path)
    ensures FirstCompart(vm, path).Some?
  {
    var n := |vm| - 1;
    if vm[n].path == path {
      ContainsSelf(path);
    } else {
      var i :| 0 <= i < |vm| && vm[i].path == path;
      assert vm[..n][i].path == path;
      SrcFound(vm[..n], path);
    }
  }

  /** An edge is drawn: the capability hits a block of the target, from another compartment. */
  predicate Draws(vm: seq<VmRow>, t: Target, c: CapRow, s: Span) {
    SrcKnown(vm, c) && SrcOf(vm, c) != t.id && IsHit(t.path, c, s)
  }

  /** The look-up that the drawing of an edge needs succeeds, or the capability hits no block of the target. */
  predicate CapDrawable(vm: seq<VmRow>, t: Target, c: CapRow, spans: seq<Span>) {
    SrcKnown(vm, c) || forall k :: 0 <= k < |spans| ==> !IsHit(t.path, c, spans[k])
  }

  predicate CapsDrawable(vm: seq<VmRow>, t: Target, caps: seq<CapRow>) {
    forall j :: 0 <= j < |caps| ==> CapDrawable(vm, t, caps[j], Spans(vm, t.path))
  }

  /** No look-up fails while the edges to the targets are drawn. */
  predicate Drawable(vm: seq<VmRow>, targets: seq<Target>, caps: seq<CapRow>) {
    forall i :: 0 <= i < |targets| ==> CapsDrawable(vm, targets[i], caps)
  }

  lemma StoredCapsDrawable(vm: seq<VmRow>, targets: seq<Target>, caps: seq<CapRow>)
    requires forall j :: 0 <= j < |caps| ==> PathIn(vm, caps[j].locPath)
    ensures Drawable(vm, targets, caps)
  {
    forall j | 0 <= j < |caps|
      ensures SrcKnown(vm, caps[j])
    {
      SrcFound(vm, caps[j].locPath);
    }
  }

  ghost function CrossHits(path: string, c: CapRow, key: Key<int>): Span -> multiset<Key<int>> {
    (s: Span) => if IsHit(path, c, s) && key.src != key.dest then multiset{key} else multiset{}
  }

  /** labelled says whether the edges carry the permissions, as in show_comparts, or an empty label. */
  function KeyFor(vm: seq<VmRow>, t: Target, c: CapRow, labelled: bool): Key<int>
    requires SrcKnown(vm, c)
  {
    Key(SrcOf(vm, c), t.id, if labelled then c.perms else "")
  }

  ghost function CapDraws(vm: seq<VmRow>, t: Target, labelled: bool): CapRow -> multiset<Key<int>> {
    (c: CapRow) =>
      if SrcKnown(vm, c) then Gather(Spans(vm, t.path), CrossHits(t.path, c, KeyFor(vm, t, c, labelled)))
      else multiset{}
  }

  ghost function TargetDraws(vm: seq<VmRow>, caps: seq<CapRow>, labelled: bool): Target -> multiset<Key<int>> {
    (t: Target) => Gather(caps, CapDraws(vm, t, labelled))
  }

  /** The hits between different compartments that show_comparts counts. */
  ghost function CompartHits(vm: seq<VmRow>, caps: seq<CapRow>): multiset<Key<int>> {
    Gather(CompartTargets(vm), TargetDraws(vm, caps, true))
  }

  /** The hits that show_comparts_has_caps records. */
  ghost function HasCapsHits(vm: seq<VmRow>, caps: seq<CapRow>): multiset<Key<int>> {
    Gather(BaseTargets(vm), TargetDraws(vm, caps, false))
  }

  ghost predicate NoSelfEdge(edges: seq<Edge<int>>) {
    forall i :: 0 <= i < |edges| ==> edges[i].key.src != edges[i].key.dest
  }

  /** Without duplicates, the keys hit. */
  ghost predicate Records(edges: seq<Edge<int>>, hits: multiset<Key<int>>) {
    Unique(edges) && forall k :: Holds(edges, k) <==> k in hits
  }

  /** Between different compartments only. */
  ghost predicate Cross(hits: multiset<Key<int>>) { forall k :: k in hits ==> k.src != k.dest }

  lemma {:induction false} OneKeyOnly(path: string, c: CapRow, key: Key<int>, spans: seq<Span>)
    ensures var g := Gather(spans, CrossHits(path, c, key));
            (forall k :: k in g ==> k == key && key.src != key.dest) && (g == multiset{} || key in g)
  {
    hide IsHit;
    if spans != [] { OneKeyOnly(path, c, key, spans[..|spans| - 1]); }
  }

  /** What one turn of the innermost loop adds; without a hit of the key so far there was none in this loop. */
  lemma SpanTurn(path: string, c: CapRow, key: Key<int>, spans: seq<Span>, k: nat, earlier: multiset<Key<int>>)
    requires k < |spans| && Cross(earlier)
    ensures var f := CrossHits(path, c, key);
            var now, next := Gather(spans[..k], f), Gather(spans[..k + 1], f);
            var hit := IsHit(path, c, spans[k]) && key.src != key.dest;
            && earlier + next == (if hit then earlier + now + multiset{key} else earlier + now)
            && (key !in earlier + now ==> now == multiset{})
            && (if hit then next != multiset{} else next == now)
            && (key.src == key.dest ==> key !in earlier + now)
  {
    hide IsHit;
    GatherSnoc(spans, k, CrossHits(path, c, key));
    OneKeyOnly(path, c, key, spans[..k]);
  }

  lemma NoTurns<T(!new)>(f: T -> multiset<Key<int>>, earlier: multiset<Key<int>>)
    ensures Gather([], f) == multiset{} && earlier + multiset{} == earlier
  {
  }

  lemma CrossSpans(path: string, c: CapRow, key: Key<int>, spans: seq<Span>, earlier: multiset<Key<int>>)
    requires Cross(earlier)
    ensures Cross(earlier + Gather(spans, CrossHits(path, c, key)))
  {
    OneKeyOnly(path, c, key, spans);
  }

  lemma NothingDrawn()
    ensures Counts<int>([], multiset{}) && Cross(multiset{}) && Records([], multiset{})
  {
  }

  // ---- show_comparts ----

  /** The innermost loop, for one target and one capability stored in a known compartment. */
  method DrawSpans(
    path: string, c: CapRow, key: Key<int>, spans: seq<Span>, edges0: seq<Edge<int>>, ghost earlier: multiset<Key<int>>)
    returns (edges: seq<Edge<int>>)
    requires Counts(edges0, earlier) && Cross(earlier)
    ensures Counts(edges, earlier + Gather(spans, CrossHits(path, c, key)))
    ensures Cross(earlier + Gather(spans, CrossHits(path, c, key)))
  {
    ghost var f := CrossHits(path, c, key);
    hide Counts, Cross, IsHit, Holds, Gather, CrossHits;
    edges := edges0;
    var weight := NEW;
    NoTurns(f, earlier);
    for k := 0 to |spans|
      invariant Counts(edges, earlier + Gather(spans[..k], f))
      invariant Gather(spans[..k], f) == multiset{} ==> weight == NEW
    {
      ghost var hits := earlier + Gather(spans[..k], f);
      SpanTurn(path, c, key, spans, k, earlier);
      if IsHit(path, c, spans[k]) {
        WeightCounts(edges, hits, key);
        var rest;
        rest, weight := TakeOut(edges, key, weight);
        if key.src != key.dest {
          BumpCounts(edges, hits, key, rest, weight);
          edges := rest + [Edge(key, weight)];
        } else {
          edges := rest;
        }
      }
    }
    assert spans[..|spans|] == spans;
    CrossSpans(path, c, key, spans, earlier);
  }

  /** The same as it runs: None stands for the IndexError of the compartment look-up, at the first hit. */
  method DrawTarget(
    vm: seq<VmRow>, t: Target, c: CapRow, spans: seq<Span>, edges: seq<Edge<int>>, ghost earlier: multiset<Key<int>>)
    returns (r: Option<seq<Edge<int>>>)
    requires spans == Spans(vm, t.path) && Counts(edges, earlier) && Cross(earlier)
    ensures r.Some? <==> CapDrawable(vm, t, c, spans)
    ensures r.Some? ==> Counts(r.value, earlier + CapDraws(vm, t, true)(c)) && Cross(earlier + CapDraws(vm, t, true)(c))
  {
    hide Counts, Cross, IsHit, SrcKnown, SrcOf, Spans, Gather;
    if SrcKnown(vm, c) {
      var next := DrawSpans(t.path, c, KeyFor(vm, t, c, true), spans, edges, earlier);
      return Some(next);
    }
    var hit := AnyHit(t.path, c, spans);
    if hit {
      return None;
    }
    assert earlier + multiset{} == earlier;
    r := Some(edges);
  }

  /** Whether the loop would come to its look-up. */
  method AnyHit(path: string, c: CapRow, spans: seq<Span>) returns (hit: bool)
    ensures hit <==> exists k :: 0 <= k < |spans| && IsHit(path, c, spans[k])
  {
    for k := 0 to |spans|
      invariant forall i :: 0 <= i < k ==> !IsHit(path, c, spans[i])
    {
      if IsHit(path, c, spans[k]) {
        return true;
      }
    }
    return false;
  }

  method DrawCaps(
    vm: seq<VmRow>, t: Target, caps: seq<CapRow>, edges0: seq<Edge<int>>, ghost earlier: multiset<Key<int>>)
    returns (r: Option<seq<Edge<int>>>)
    requires Counts(edges0, earlier) && Cross(earlier)
    ensures r.Some? <==> CapsDrawable(vm, t, caps)
    ensures r.Some? ==> Counts(r.value, earlier + TargetDraws(vm, caps, true)(t))
    ensures r.Some? ==> Cross(earlier + TargetDraws(vm, caps, true)(t))
  {
    ghost var f := CapDraws(vm, t, true);
    hide Counts, Spans, Cross, CapDrawable, CapDraws;
    var edges := edges0;
    var spans := Spans(vm, t.path);
    NoTurns(f, earlier);
    for j := 0 to |caps|
      invariant Counts(edges, earlier + Gather(caps[..j], f)) && Cross(earlier + Gather(caps[..j], f))
      invariant forall i :: 0 <= i < j ==> CapDrawable(vm, t, caps[i], spans)
    {
      GatherSnoc(caps, j, f);
      ghost var before := earlier + Gather(caps[..j], f);
      var next := DrawTarget(vm, t, caps[j], spans, edges, before);
      if next.None? {
        return None;
      }
      edges := next.value;
      assert before + f(caps[j]) == earlier + Gather(caps[..j + 1], f);
    }
    assert caps[..|caps|] == caps;
    r := Some(edges);
  }

  /**
   show_comparts, None when a look-up fails: the edges count the hits between different compartments, so
   none of them is a self-edge, no key occurs twice, and each weighs 9 plus its hits.
   */
  method ShowComparts(vm: seq<VmRow>, caps: seq<CapRow>) returns (g: Option<seq<Edge<int>>>)
    ensures g.Some? <==> Drawable(vm, CompartTargets(vm), caps)
    ensures g.Some? ==> Counts(g.value, CompartHits(vm, caps)) && NoSelfEdge(g.value)
  {
    var targets := CompartTargets(vm);
    ghost var f := TargetDraws(vm, caps, true);
    hide CompartTargets, CapsDrawable, Counts, Cross, TargetDraws;
    var edges: seq<Edge<int>> := [];
    NothingDrawn();
    for i := 0 to |targets|
      invariant Counts(edges, Gather(targets[..i], f)) && Cross(Gather(targets[..i], f))
      invariant forall k :: 0 <= k < i ==> CapsDrawable(vm, targets[k], caps)
    {
      GatherSnoc(targets, i, f);
      var next := DrawCaps(vm, targets[i], caps, edges, Gather(targets[..i], f));
      if next.None? {
        return None;
      }
      edges := next.value;
    }
    assert targets[..|targets|] == targets;
    CrossEdges(edges, CompartHits(vm, caps));
    g := Some(edges);
  }

  lemma CrossEdges(edges: seq<Edge<int>>, hits: multiset<Key<int>>)
    requires Counts(edges, hits) && Cross(hits)
    ensures NoSelfEdge(edges)
  {
  }

  // ---- show_comparts_has_caps ----

  lemma TakeOutRecords(edges: seq<Edge<int>>, hits: multiset<Key<int>>, key: Key<int>, rest: seq<Edge<int>>)
    requires Records(edges, hits)
    requires !Holds(edges, key) ==> rest == edges
    requires Holds(edges, key) ==> exists i :: 0 <= i < |edges| && edges[i].key == key && rest == Without(edges, i)
    ensures !Holds(rest, key) && Unique(rest)
    ensures forall k :: k != key ==> (Holds(rest, k) <==> k in hits)
  {
    if Holds(edges, key) {
      var i :| 0 <= i < |edges| && edges[i].key == key && rest == Without(edges, i);
      WithoutUnique(edges, i);
      hide Holds, Unique, Without;
      forall k | k != key
        ensures Holds(rest, k) <==> Holds(edges, k)
      {
        if Holds(edges, k) { WithoutHolds(edges, i, k); }
        if Holds(rest, k) { WithoutHeld(edges, i, k); }
      }
    }
  }

  lemma WithoutHeld(edges: seq<Edge<int>>, i: nat, key: Key<int>)
    requires i < |edges| && Holds(Without(edges, i), key)
    ensures Holds(edges, key)
  {
    var j :| 0 <= j < |edges| - 1 && Without(edges, i)[j].key == key;
    WithoutAt(edges, i, j);
  }

  lemma AppendRecords(rest: seq<Edge<int>>, hits: multiset<Key<int>>, key: Key<int>, w: nat)
    requires !Holds(rest, key) && Unique(rest)
    requires forall k :: k != key ==> (Holds(rest, k) <==> k in hits)
    ensures Records(rest + [Edge(key, w)], hits + multiset{key})
  {
    var after := rest + [Edge(key, w)];
    forall k
      ensures Holds(after, k) <==> k in hits + multiset{key}
    {
      HoldsSnoc(rest, Edge(key, w), k);
    }
    assert forall i :: 0 <= i < |rest| ==> rest[i].key != key;
  }

  method RecordSpans(
    path: string, c: CapRow, key: Key<int>, spans: seq<Span>, edges0: seq<Edge<int>>, ghost earlier: multiset<Key<int>>)
    returns (edges: seq<Edge<int>>)
    requires Records(edges0, earlier) && Cross(earlier)
    ensures Records(edges, earlier + Gather(spans, CrossHits(path, c, key)))
    ensures Cross(earlier + Gather(spans, CrossHits(path, c, key)))
  {
    ghost var f := CrossHits(path, c, key);
    hide Cross, IsHit, Holds, Unique, Gather, CrossHits;
    edges := edges0;
    NoTurns(f, earlier);
    for k := 0 to |spans|
      invariant Records(edges, earlier + Gather(spans[..k], f))
    {
      ghost var hits := earlier + Gather(spans[..k], f);
      SpanTurn(path, c, key, spans, k, earlier);
      if IsHit(path, c, spans[k]) {
        var rest, _ := TakeOut(edges, key, NEW);
        if key.src != key.dest {
          TakeOutRecords(edges, hits, key, rest);
          AppendRecords(rest, hits, key, NEW);
          edges := rest + [Edge(key, NEW)];
        } else {
          edges := rest;
        }
      }
    }
    assert spans[..|spans|] == spans;
    CrossSpans(path, c, key, spans, earlier);
  }

  method RecordTarget(
    vm: seq<VmRow>, t: Target, c: CapRow, spans: seq<Span>, edges: seq<Edge<int>>, ghost earlier: multiset<Key<int>>)
    returns (r: Option<seq<Edge<int>>>)
    requires spans == Spans(vm, t.path) && Records(edges, earlier) && Cross(earlier)
    ensures r.Some? <==> CapDrawable(vm, t, c, spans)
    ensures r.Some? ==> Records(r.value, earlier + CapDraws(vm, t, false)(c))
    ensures r.Some? ==> Cross(earlier + CapDraws(vm, t, false)(c))
  {
    hide Records, Cross, IsHit, SrcKnown, SrcOf, Spans, Gather;
    if SrcKnown(vm, c) {
      var next := RecordSpans(t.path, c, KeyFor(vm, t, c, false), spans, edges, earlier);
      return Some(next);
    }
    var hit := AnyHit(t.path, c, spans);
    if hit {
      return None;
    }
    assert earlier + multiset{} == earlier;
    r := Some(edges);
  }

  method RecordCaps(
    vm: seq<VmRow>, t: Target, caps: seq<CapRow>, edges0: seq<Edge<int>>, ghost earlier: multiset<Key<int>>)
    returns (r: Option<seq<Edge<int>>>)
    requires Records(edges0, earlier) && Cross(earlier)
    ensures r.Some? <==> CapsDrawable(vm, t, caps)
    ensures r.Some? ==> Records(r.value, earlier + TargetDraws(vm, caps, false)(t))
    ensures r.Some? ==> Cross(earlier + TargetDraws(vm, caps, false)(t))
  {
    ghost var f := CapDraws(vm, t, false);
    hide Records, Spans, Cross, CapDrawable, CapDraws;
    var edges := edges0;
    var spans := Spans(vm, t.path);
    NoTurns(f, earlier);
    for j := 0 to |caps|
      invariant Records(edges, earlier + Gather(caps[..j], f)) && Cross(earlier + Gather(caps[..j], f))
      invariant forall i :: 0 <= i < j ==> CapDrawable(vm, t, caps[i], spans)
    {
      GatherSnoc(caps, j, f);
      ghost var before := earlier + Gather(caps[..j], f);
      var next := RecordTarget(vm, t, caps[j], spans, edges, before);
      if next.None? {
        return None;
      }
      edges := next.value;
      assert before + f(caps[j]) == earlier + Gather(caps[..j + 1], f);
    }
    assert caps[..|caps|] == caps;
    r := Some(edges);
  }

  /**
   show_comparts_has_caps, None when a look-up fails: an edge for every ordered pair of different compartments
   hit, and each once.
   */
  method ShowCompartsHasCaps(vm: seq<VmRow>, caps: seq<CapRow>) returns (g: Option<seq<Edge<int>>>)
    ensures g.Some? <==> Drawable(vm, BaseTargets(vm), caps)
    ensures g.Some? ==> Records(g.value, HasCapsHits(vm, caps)) && Cross(HasCapsHits(vm, caps))
  {
    var targets := BaseTargets(vm);
    ghost var f := TargetDraws(vm, caps, false);
    var edges: seq<Edge<int>> := [];
    NothingDrawn();
    hide Records, Cross, CapsDrawable, BaseTargets, TargetDraws;
    for i := 0 to |targets|
      invariant Records(edges, Gather(targets[..i], f)) && Cross(Gather(targets[..i], f))
      invariant forall k :: 0 <= k < i ==> CapsDrawable(vm, targets[k], caps)
    {
      GatherSnoc(targets, i, f);
      var next := RecordCaps(vm, targets[i], caps, edges, Gather(targets[..i], f));
      if next.None? {
        return None;
      }
      edges := next.value;
    }
    assert targets[..|targets|] == targets;
    g := Some(edges);
  }

  // ---- how far the first graph is within the second ----

  /** The target as the second graph searches for it. */
  function BaseOf(t: Target): Target { Target(t.id, BaseName(t.path)) }

  /**
   A hit that draws an edge in the first graph is repeated by the second against the file name alone, unless the
   filter takes the two names for one library: both short, or extensions of one string.
   */
  lemma HitRepeatedIff(vm: seq<VmRow>, t: Target, c: CapRow, s: Span)
    requires Draws(vm, t, c, s)
    ensures var name := BaseName(t.path);
            Draws(vm, BaseOf(t), c, s) <==> !((|c.locPath| <= 6 && |name| <= 6) || CommonBase(c.locPath, name))
  {
    hide SrcKnown, SrcOf, BaseName, Accepted;
    RejectedIff(c.locPath, BaseName(t.path));
  }

  /** The capability's path without its last six characters still names a directory. */
  predicate Rooted(c: CapRow) { '/' in Stem(c.locPath) }

  /** A rooted capability is never filtered against a bare file name. */
  lemma RootedAccepted(c: CapRow, name: string)
    requires Rooted(c) && '/' !in name
    ensures Accepted(c.locPath, name)
  {
    assert '/' in c.locPath;
    assert '/' !in Stem(name);
  }

  lemma {:induction false} SpansOfBaseName(vm: seq<VmRow>, path: string, s: Span)
    requires s in Spans(vm, path)
    ensures s in Spans(vm, BaseName(path))
  {
    hide Contains, BaseName;
    var n := |vm| - 1;
    if Contains(vm[n].path, path) { ContainsBaseName(vm[n].path, path); }
    if s in Spans(vm[..n], path) { SpansOfBaseName(vm[..n], path, s); }
  }

  lemma {:induction false} PathsWithExact(vm: seq<VmRow>, id: int, path: string)
    ensures path in PathsWith(vm, id) <==> exists i :: 0 <= i < |vm| && vm[i].compartId == id && vm[i].path == path
  {
    if vm != [] {
      var before := vm[..|vm| - 1];
      PathsWithExact(before, id, path);
      if i :| 0 <= i < |vm| && vm[i].compartId == id && vm[i].path == path {
        if i < |before| { assert before[i].path == path; }
      }
      if i :| 0 <= i < |before| && before[i].compartId == id && before[i].path == path {
        assert vm[i].path == path;
      }
    }
  }

  lemma {:induction false} TargetsInVm(vm: seq<VmRow>, ids: seq<int>, t: Target)
    requires t in TargetsOf(vm, ids)
    ensures exists i :: 0 <= i < |vm| && vm[i].compartId == t.id && vm[i].path == t.path
  {
    var id := ids[|ids| - 1];
    if t in TargetsOf(vm, ids[..|ids| - 1]) {
      TargetsInVm(vm, ids[..|ids| - 1], t);
    } else {
      DistinctExact(PathsWith(vm, id));
      PathsWithExact(vm, id, t.path);
    }
  }

  /** Every target of the first graph is, cut to its last component, one of the second. */
  lemma BaseTargetExists(vm: seq<VmRow>, t: Target)
    requires t in CompartTargets(vm)
    ensures BaseOf(t) in BaseTargets(vm)
  {
    hide BaseName;
    TargetsInVm(vm, Distinct(IdsOf(vm)), t);
    var i :| 0 <= i < |vm| && vm[i].compartId == t.id && vm[i].path == t.path;
    assert Pairs(vm)[i] in Pairs(vm);
    DistinctExact(Pairs(vm));
    var j :| 0 <= j < |Distinct(Pairs(vm))| && Distinct(Pairs(vm))[j] == Pairs(vm)[i];
    assert BaseTargets(vm)[j] == BaseOf(t);
  }

  lemma CrossHitsMember(path: string, c: CapRow, drawn: Key<int>, s: Span, key: Key<int>)
    ensures key in CrossHits(path, c, drawn)(s) <==> IsHit(path, c, s) && drawn.src != drawn.dest && key == drawn
  {
    hide IsHit;
  }

  lemma CapDrawsMember(vm: seq<VmRow>, t: Target, c: CapRow, labelled: bool, key: Key<int>)
    ensures key in CapDraws(vm, t, labelled)(c) <==>
            SrcKnown(vm, c) && key == KeyFor(vm, t, c, labelled) &&
            exists k :: 0 <= k < |Spans(vm, t.path)| && Draws(vm, t, c, Spans(vm, t.path)[k])
  {
    hide Contains, IsHit, SrcKnown, SrcOf, CrossHits;
    if SrcKnown(vm, c) {
      var spans, drawn := Spans(vm, t.path), KeyFor(vm, t, c, labelled);
      GatherMember(spans, CrossHits(t.path, c, drawn), key);
      assert CapDraws(vm, t, labelled)(c) == Gather(spans, CrossHits(t.path, c, drawn));
      forall k | 0 <= k < |spans|
        ensures key in CrossHits(t.path, c, drawn)(spans[k]) <==> key == drawn && Draws(vm, t, c, spans[k])
      {
        CrossHitsMember(t.path, c, drawn, spans[k], key);
      }
      if key in CapDraws(vm, t, labelled)(c) {
        var k :| 0 <= k < |spans| && key in CrossHits(t.path, c, drawn)(spans[k]);
        assert key == drawn && Draws(vm, t, c, Spans(vm, t.path)[k]);
      }
      if k :| 0 <= k < |spans| && Draws(vm, t, c, spans[k]) {
        assert key == drawn ==> key in CrossHits(t.path, c, drawn)(spans[k]);
        assert key == drawn ==> key in CapDraws(vm, t, labelled)(c);
        assert exists k :: 0 <= k < |Spans(vm, t.path)| && Draws(vm, t, c, Spans(vm, t.path)[k]);
      }
    }
  }

  lemma TargetDrawsMember(vm: seq<VmRow>, t: Target, caps: seq<CapRow>, labelled: bool, key: Key<int>)
    ensures key in TargetDraws(vm, caps, labelled)(t) <==>
            exists j :: 0 <= j < |caps| && key in CapDraws(vm, t, labelled)(caps[j])
  {
    hide CapDraws;
    GatherMember(caps, CapDraws(vm, t, labelled), key);
  }

  /** Where a key comes from: a target, a capability and a block. */
  lemma DrawnMember(vm: seq<VmRow>, targets: seq<Target>, caps: seq<CapRow>, labelled: bool, key: Key<int>)
    ensures key in Gather(targets, TargetDraws(vm, caps, labelled)) <==>
            exists i, j, k :: DrawnAt(vm, targets, caps, labelled, key, i, j, k)
  {
    hide Spans, Draws, SrcKnown, KeyFor, CapDraws, TargetDraws, Gather;
    GatherMember(targets, TargetDraws(vm, caps, labelled), key);
    if key in Gather(targets, TargetDraws(vm, caps, labelled)) {
      var i :| 0 <= i < |targets| && key in TargetDraws(vm, caps, labelled)(targets[i]);
      TargetDrawsMember(vm, targets[i], caps, labelled, key);
      var j :| 0 <= j < |caps| && key in CapDraws(vm, targets[i], labelled)(caps[j]);
      CapDrawsMember(vm, targets[i], caps[j], labelled, key);
      var k :| 0 <= k < |Spans(vm, targets[i].path)| && Draws(vm, targets[i], caps[j], Spans(vm, targets[i].path)[k]);
      assert DrawnAt(vm, targets, caps, labelled, key, i, j, k);
    }
    if i, j, k :| DrawnAt(vm, targets, caps, labelled, key, i, j, k) {
      DrawnAtMember(vm, targets, caps, labelled, key, i, j, k);
    }
  }

  ghost predicate DrawnAt(
    vm: seq<VmRow>, targets: seq<Target>, caps: seq<CapRow>, labelled: bool, key: Key<int>, i: int, j: int, k: int)
  {
    && 0 <= i < |targets| && 0 <= j < |caps| && 0 <= k < |Spans(vm, targets[i].path)|
    && SrcKnown(vm, caps[j]) && Draws(vm, targets[i], caps[j], Spans(vm, targets[i].path)[k])
    && key == KeyFor(vm, targets[i], caps[j], labelled)
  }

  lemma DrawnAtMember(
    vm: seq<VmRow>, targets: seq<Target>, caps: seq<CapRow>, labelled: bool, key: Key<int>, i: int, j: int, k: int)
    requires DrawnAt(vm, targets, caps, labelled, key, i, j, k)
    ensures key in Gather(targets, TargetDraws(vm, caps, labelled))
  {
    hide Contains, Draws, SrcKnown, KeyFor, CapDraws, TargetDraws;
    var t, c := targets[i], caps[j];
    CapDrawsMember(vm, t, c, labelled, key);
    assert exists k :: 0 <= k < |Spans(vm, t.path)| && Draws(vm, t, c, Spans(vm, t.path)[k]);
    assert key in CapDraws(vm, t, labelled)(c);
    TargetDrawsMember(vm, t, caps, labelled, key);
    assert key in TargetDraws(vm, caps, labelled)(t);
    GatherMember(targets, TargetDraws(vm, caps, labelled), key);
  }

  /** A hit of the first graph that the second repeats is recorded, whatever other capabilities there are. */
  lemma RepeatedIsRecorded(vm: seq<VmRow>, caps: seq<CapRow>, t: Target, c: CapRow, s: Span)
    requires t in CompartTargets(vm) && c in caps && s in Spans(vm, t.path)
    requires Draws(vm, t, c, s) && Draws(vm, BaseOf(t), c, s)
    ensures Key(SrcOf(vm, c), t.id, "") in HasCapsHits(vm, caps)
  {
    var b := BaseOf(t);
    assert SrcKnown(vm, c);
    hide BaseTargets, CompartTargets, Spans, Draws, SrcKnown, BaseName;
    BaseTargetExists(vm, t);
    SpansOfBaseName(vm, t.path, s);
    var i :| 0 <= i < |BaseTargets(vm)| && BaseTargets(vm)[i] == b;
    var j :| 0 <= j < |caps| && caps[j] == c;
    var k :| 0 <= k < |Spans(vm, b.path)| && Spans(vm, b.path)[k] == s;
    DrawnAtMember(vm, BaseTargets(vm), caps, false, Key(SrcOf(vm, c), t.id, ""), i, j, k);
  }

  /**
   Every pair of compartments that a rooted capability connects in show_comparts is connected in
   show_comparts_has_caps, whatever other capabilities there are.
   */
  lemma FirstWithinSecond(vm: seq<VmRow>, caps: seq<CapRow>, c: CapRow, key: Key<int>)
    requires c in caps && Rooted(c) && key in CompartHits(vm, [c])
    ensures Key(key.src, key.dest, "") in HasCapsHits(vm, caps)
  {
    var targets := CompartTargets(vm);
    DrawnMember(vm, targets, [c], true, key);
    var i, j, k :| DrawnAt(vm, targets, [c], true, key, i, j, k);
    var t := targets[i];
    RootedAccepted(c, BaseName(t.path));
    hide CompartTargets, HasCapsHits, Spans, SrcKnown, SrcOf, Rooted, BaseName, Accepted;
    RepeatedIsRecorded(vm, caps, t, c, Spans(vm, t.path)[k]);
  }

  /** Some capability draws the edge alone. */
  ghost predicate ComesFromOne(vm: seq<VmRow>, caps: seq<CapRow>, key: Key<int>) {
    exists j :: 0 <= j < |caps| && key in CompartHits(vm, [caps[j]])
  }

  /** The hits of a list of capabilities are those of the single capabilities. */
  lemma DrawnByOne(vm: seq<VmRow>, caps: seq<CapRow>, key: Key<int>)
    requires key in CompartHits(vm, caps)
    ensures ComesFromOne(vm, caps, key)
  {
    hide CompartTargets, Spans, SrcKnown, SrcOf, IsHit;
    var targets := CompartTargets(vm);
    DrawnMember(vm, targets, caps, true, key);
    var i, j, k :| DrawnAt(vm, targets, caps, true, key, i, j, k);
    assert DrawnAt(vm, targets, [caps[j]], true, key, i, 0, k);
    DrawnAtMember(vm, targets, [caps[j]], true, key, i, 0, k);
  }

  /** If a rooted capability draws the edge, the second graph connects the two compartments too. */
  ghost predicate RootedRepeat(vm: seq<VmRow>, caps: seq<CapRow>, key: Key<int>, second: seq<Edge<int>>) {
    forall j :: 0 <= j < |caps| && Rooted(caps[j]) ==>
      key in CompartHits(vm, [caps[j]]) ==> Holds(second, Key(key.src, key.dest, ""))
  }

  /**
   On the finished graphs: every edge of the first is drawn by some capability, and if by a rooted one, its pair
   is in the second.
   */
  lemma GraphWithinGraph(vm: seq<VmRow>, caps: seq<CapRow>, first: seq<Edge<int>>, second: seq<Edge<int>>, i: nat)
    requires Counts(first, CompartHits(vm, caps)) && Records(second, HasCapsHits(vm, caps))
    requires i < |first|
    ensures ComesFromOne(vm, caps, first[i].key)
    ensures RootedRepeat(vm, caps, first[i].key, second)
  {
    hide CompartHits, HasCapsHits, Rooted, Holds;
    var key := first[i].key;
    DrawnByOne(vm, caps, key);
    forall j | 0 <= j < |caps| && Rooted(caps[j]) && key in CompartHits(vm, [caps[j]])
      ensures Holds(second, Key(key.src, key.dest, ""))
    {
      FirstWithinSecond(vm, caps, caps[j], key);
    }
  }

  // ---- and how it is not ----

  /** When all names are short, those the capabilities are stored under and those of the files, nothing is hit. */
  lemma ShortNamesUnseen(vm: seq<VmRow>, caps: seq<CapRow>)
    requires forall j :: 0 <= j < |caps| ==> |caps[j].locPath| <= 6
    requires forall i :: 0 <= i < |vm| ==> |BaseName(vm[i].path)| <= 6
    ensures HasCapsHits(vm, caps) == multiset{}
  {
    forall key
      ensures key !in HasCapsHits(vm, caps)
    {
      DrawnMember(vm, BaseTargets(vm), caps, false, key);
      forall i, j, k | DrawnAt(vm, BaseTargets(vm), caps, false, key, i, j, k)
        ensures false
      {
        ShortBaseTarget(vm, i);
        RejectedIff(caps[j].locPath, BaseTargets(vm)[i].path);
      }
    }
  }

  lemma ShortBaseTarget(vm: seq<VmRow>, i: int)
    requires 0 <= i < |BaseTargets(vm)| && forall k :: 0 <= k < |vm| ==> |BaseName(vm[k].path)| <= 6
    ensures |BaseTargets(vm)[i].path| <= 6
  {
    hide BaseName;
    var pair := Distinct(Pairs(vm))[i];
    DistinctExact(Pairs(vm));
    assert pair in Pairs(vm);
    var k :| 0 <= k < |vm| && Pairs(vm)[k] == pair;
    assert |BaseName(vm[k].path)| <= 6;
  }

  /** A capability on the stack that points into /bin/sh: connected by the first graph, absent from the second. */
  lemma SecondMissesFirst(sh: VmRow, stack: VmRow, c: CapRow)
    requires sh.path == "/bin/sh" && stack.path == "Stack" && sh.compartId != stack.compartId
    requires c.locPath == "Stack" && TextInRange(c.addr, sh.start, sh.end)
    ensures var vm := [sh, stack];
            && Key(stack.compartId, sh.compartId, c.perms) in CompartHits(vm, [c])
            && HasCapsHits(vm, [c]) == multiset{}
  {
    hide CompartHits, HasCapsHits, TextInRange, BaseName;
    FirstSeesStack(sh, stack, c);
    ShShort([sh, stack]);
    ShortNamesUnseen([sh, stack], [c]);
  }

  /** Both scripts run through on these tables; the first draws the edge and the second draws nothing. */
  lemma SecondGraphMissesFirst(
    sh: VmRow, stack: VmRow, c: CapRow, first: seq<Edge<int>>, second: seq<Edge<int>>)
    requires sh.path == "/bin/sh" && stack.path == "Stack" && sh.compartId != stack.compartId
    requires c.locPath == "Stack" && TextInRange(c.addr, sh.start, sh.end)
    requires Counts(first, CompartHits([sh, stack], [c])) && Records(second, HasCapsHits([sh, stack], [c]))
    ensures var vm := [sh, stack];
            && Drawable(vm, CompartTargets(vm), [c]) && Drawable(vm, BaseTargets(vm), [c])
            && Holds(first, Key(stack.compartId, sh.compartId, c.perms)) && second == []
  {
    hide CompartHits, HasCapsHits, TextInRange, Drawable, CompartTargets, BaseTargets;
    var vm := [sh, stack];
    SecondMissesFirst(sh, stack, c);
    assert vm[1].path == c.locPath;
    StoredCapsDrawable(vm, CompartTargets(vm), [c]);
    StoredCapsDrawable(vm, BaseTargets(vm), [c]);
    FirstHeld(second);
  }

  lemma FirstHeld(edges: seq<Edge<int>>)
    ensures edges == [] || Holds(edges, edges[0].key)
  {
  }

  lemma FirstSeesStack(sh: VmRow, stack: VmRow, c: CapRow)
    requires sh.path == "/bin/sh" && stack.path == "Stack" && sh.compartId != stack.compartId
    requires c.locPath == "Stack" && TextInRange(c.addr, sh.start, sh.end)
    ensures Key(stack.compartId, sh.compartId, c.perms) in CompartHits([sh, stack], [c])
  {
    var vm, t := [sh, stack], Target(sh.compartId, "/bin/sh");
    StackSource(sh, stack);
    ShTarget(sh, stack);
    ShAccepted();
    ShSpan(sh, stack);
    assert Draws(vm, t, c, Span(sh.start, sh.end)) by { hide FirstCompart, TextInRange, Accepted; }
    hide CompartTargets, Spans, Draws, FirstCompart, TargetDraws;
    var i :| 0 <= i < |CompartTargets(vm)| && CompartTargets(vm)[i] == t;
    var k :| 0 <= k < |Spans(vm, t.path)| && Spans(vm, t.path)[k] == Span(sh.start, sh.end);
    DrawnAtMember(vm, CompartTargets(vm), [c], true, Key(stack.compartId, sh.compartId, c.perms), i, 0, k);
  }

  lemma ShShort(vm: seq<VmRow>)
    requires forall i :: 0 <= i < |vm| ==> vm[i].path in {"/bin/sh", "Stack"}
    ensures forall i :: 0 <= i < |vm| ==> |BaseName(vm[i].path)| <= 6
  {
    assert "/bin/sh"[0] == '/';
    assert |BaseName("/bin/sh")| <= 6 && |BaseName("Stack")| <= 6;
  }

  lemma ShAccepted()
    ensures Accepted("Stack", "/bin/sh")
  {
    assert Stem("/bin/sh") == "/" && Stem("Stack") == "";
  }

  lemma StackSource(sh: VmRow, stack: VmRow)
    requires sh.path == "/bin/sh" && stack.path == "Stack"
    ensures FirstCompart([sh, stack], "Stack") == Some(stack.compartId)
  {
    var vm := [sh, stack];
    assert vm[..1] == [sh] && [sh][..0] == [];
    NoStackInSh();
    assert FirstCompart([sh], "Stack") == None;
    ContainsSelf("Stack");
  }

  lemma NoStackInSh()
    ensures !Contains("/bin/sh", "Stack")
  {
    var s, sub := "/bin/sh", "Stack";
    assert forall i :: 0 <= i < |s| ==> s[i] != sub[0];
    forall i: nat | i + |sub| <= |s|
      ensures !OccursAt(s, sub, i)
    {
      assert s[i..i + |sub|][0] == s[i];
    }
  }

  lemma ShTarget(sh: VmRow, stack: VmRow)
    requires sh.path == "/bin/sh"
    ensures Target(sh.compartId, "/bin/sh") in CompartTargets([sh, stack])
  {
    var vm := [sh, stack];
    DistinctExact(IdsOf(vm));
    assert IdsOf(vm)[0] == sh.compartId;
    PathsWithExact(vm, sh.compartId, "/bin/sh");
    assert vm[0].compartId == sh.compartId && vm[0].path == "/bin/sh";
    DistinctExact(PathsWith(vm, sh.compartId));
    TargetListed(vm, Distinct(IdsOf(vm)), sh.compartId, "/bin/sh");
  }

  lemma {:induction false} TargetListed(vm: seq<VmRow>, ids: seq<int>, id: int, path: string)
    requires id in ids && path in Distinct(PathsWith(vm, id))
    ensures Target(id, path) in TargetsOf(vm, ids)
  {
    var n := |ids| - 1;
    if ids[n] == id {
      var k :| 0 <= k < |Distinct(PathsWith(vm, id))| && Distinct(PathsWith(vm, id))[k] == path;
      assert Targets(id, Distinct(PathsWith(vm, id)))[k] == Target(id, path);
    } else {
      assert id in ids[..n];
      TargetListed(vm, ids[..n], id, path);
    }
  }

  lemma ShSpan(sh: VmRow, stack: VmRow)
    requires sh.path == "/bin/sh"
    ensures Span(sh.start, sh.end) in Spans([sh, stack], "/bin/sh")
  {
    ContainsSelf("/bin/sh");
    assert [sh, stack][..1] == [sh] && [sh][..0] == [];
    assert Spans([sh], "/bin/sh") == [Span(sh.start, sh.end)];
  }
}
