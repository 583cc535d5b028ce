/**
 python/comparts_graph.py: the weights and the pairs of the two compartment graphs without their loops, said on the rows
 of the tables.
 */
module CompartCounts {
  import opened Text
  import opened Hex
  import opened Tables
  import opened SuffixFilter
  import opened Edges
  import opened FullGraph
  import opened Labels
  import opened HitCounts
  import CompartGraphs

  // ---- the targets ----

  lemma TargetsOnce(id: int, paths: seq<string>)
    requires NoRepeats(paths)
    ensures NoRepeats(CompartGraphs.Targets(id, paths))
    ensures forall t :: t in CompartGraphs.Targets(id, paths) <==> t.id == id && t.path in paths
  {
    var ts := CompartGraphs.Targets(id, paths);
    forall t: CompartGraphs.Target | t.id == id && t.path in paths
      ensures t in ts
    {
      var i :| 0 <= i < |paths| && paths[i] == t.path;
      assert ts[i] == t;
    }
  }

  lemma OnceConcat<T(!new)>(xs: seq<T>, ys: seq<T>)
    requires NoRepeats(xs) && NoRepeats(ys) && forall x :: x in xs ==> x !in ys
    ensures NoRepeats(xs + ys)
  {
    var zs := xs + ys;
    forall i, j | 0 <= i < j < |zs|
      ensures zs[i] != zs[j]
    {
      if i < |xs| <= j { assert zs[i] in xs && zs[j] in ys; }
    }
  }

  lemma {:induction false} TargetsOfOnce(vm: seq<VmRow>, ids: seq<int>)
    requires NoRepeats(ids)
    ensures NoRepeats(CompartGraphs.TargetsOf(vm, ids))
    ensures forall t :: t in CompartGraphs.TargetsOf(vm, ids) <==>
              t.id in ids && t.path in CompartGraphs.PathsWith(vm, t.id)
  {
    hide CompartGraphs.PathsWith;
    if ids != [] {
      var before, id := ids[..|ids| - 1], ids[|ids| - 1];
      TargetsOfOnce(vm, before);
      DistinctOnce(CompartGraphs.PathsWith(vm, id));
      TargetsOnce(id, Distinct(CompartGraphs.PathsWith(vm, id)));
      assert ids == before + [id];
      OnceConcat(
        CompartGraphs.TargetsOf(vm, before), CompartGraphs.Targets(id, Distinct(CompartGraphs.PathsWith(vm, id))));
    }
  }

  /** Some row has the compartment and the path. */
  predicate HasTarget(vm: seq<VmRow>, t: CompartGraphs.Target) {
    exists a :: 0 <= a < |vm| && vm[a].compartId == t.id && vm[a].path == t.path
  }

  lemma TargetListed(vm: seq<VmRow>, t: CompartGraphs.Target)
    ensures t in CompartGraphs.CompartTargets(vm) <==> HasTarget(vm, t)
    ensures NoRepeats(CompartGraphs.CompartTargets(vm))
  {
    var ids := CompartGraphs.IdsOf(vm);
    DistinctOnce(ids);
    TargetsOfOnce(vm, Distinct(ids));
    CompartGraphs.PathsWithExact(vm, t.id, t.path);
    if a :| 0 <= a < |vm| && vm[a].compartId == t.id && vm[a].path == t.path { assert ids[a] == t.id; }
  }

  lemma {:induction false} OnceIn<T(!new)>(xs: seq<T>, x: T)
    requires NoRepeats(xs)
    ensures multiset(xs)[x] == if x in xs then 1 else 0
  {
    if xs != [] {
      var before, last := xs[..|xs| - 1], xs[|xs| - 1];
      OnceIn(before, x);
      assert xs == before + [last];
      assert multiset(xs) == multiset(before) + multiset{last};
      assert forall i :: 0 <= i < |before| ==> before[i] == xs[i] != last;
    }
  }

  /** Every path of every compartment is a target, and once however many rows have it; nothing else is one. */
  lemma TargetsExact(vm: seq<VmRow>, t: CompartGraphs.Target)
    ensures multiset(CompartGraphs.CompartTargets(vm))[t] == if HasTarget(vm, t) then 1 else 0
  {
    hide CompartGraphs.CompartTargets;
    TargetListed(vm, t);
    OnceIn(CompartGraphs.CompartTargets(vm), t);
  }

  // ---- the source compartment ----

  /** The compartment of the first row that contains the path. */
  ghost predicate SourceCompart(vm: seq<VmRow>, path: string, id: int) {
    exists s :: FirstFound(vm, path, s) && id == vm[s].compartId
  }

  lemma {:induction false} FirstCompartAt(vm: seq<VmRow>, path: string, s: int)
    requires FirstFound(vm, path, s)
    ensures CompartGraphs.FirstCompart(vm, path) == Some(vm[s].compartId)
  {
    hide Contains;
    var n := |vm| - 1;
    if s < n {
      FirstCompartAt(vm[..n], path, s);
    } else {
      NoCompart(vm[..n], path);
    }
  }

  lemma {:induction false} NoCompart(vm: seq<VmRow>, path: string)
    requires forall j :: 0 <= j < |vm| ==> !Contains(vm[j].path, path)
    ensures CompartGraphs.FirstCompart(vm, path) == None
  {
    hide Contains;
    if vm != [] { NoCompart(vm[..|vm| - 1], path); }
  }

  lemma SourceCompartExact(vm: seq<VmRow>, path: string, id: int)
    ensures SourceCompart(vm, path, id) <==> CompartGraphs.FirstCompart(vm, path) == Some(id)
    ensures CompartGraphs.FirstCompart(vm, path).None? <==> forall j :: 0 <= j < |vm| ==> !Contains(vm[j].path, path)
  {
    hide Contains, CompartGraphs.FirstCompart;
    if s :| FirstFound(vm, path, s) {
      FirstCompartAt(vm, path, s);
      FirstsUnique(vm, path);
    } else {
      NoFirstFound(vm, path);
      NoCompart(vm, path);
    }
  }

  // ---- the hits ----

  /** The edge that the hits of a capability on a compartment go to. */
  ghost predicate Connects(vm: seq<VmRow>, dest: int, c: CapRow, key: Key<int>, text: string) {
    SourceCompart(vm, c.locPath, key.src) && key.dest == dest && key.src != key.dest && key.text == text
  }

  lemma KeyExact(vm: seq<VmRow>, t: CompartGraphs.Target, c: CapRow, key: Key<int>, labelled: bool)
    ensures Connects(vm, t.id, c, key, if labelled then c.perms else "") <==>
            CompartGraphs.SrcKnown(vm, c) && CompartGraphs.SrcOf(vm, c) != t.id &&
            key == CompartGraphs.KeyFor(vm, t, c, labelled)
  {
    hide SourceCompart, CompartGraphs.FirstCompart;
    SourceCompartExact(vm, c.locPath, key.src);
  }

  /** The compartment and path of a target, the index of a capability, the index of a block. */
  datatype Draw = Draw(compart: int, path: string, cap: int, block: int)

  ghost function BlocksDrawn(vm: seq<VmRow>, t: CompartGraphs.Target, c: CapRow, key: Key<int>): set<int> {
    set i | 0 <= i < |vm| && Connects(vm, t.id, c, key, c.perms) && HitsRow(t.path, c, vm[i])
  }

  ghost function CapsDrawn(vm: seq<VmRow>, t: CompartGraphs.Target, caps: seq<CapRow>, key: Key<int>): set<(int, int)> {
    set k, i | 0 <= k < |caps| && 0 <= i < |vm|
      && Connects(vm, t.id, caps[k], key, caps[k].perms) && HitsRow(t.path, caps[k], vm[i]) :: (k, i)
  }

  /** Every compartment with a path of it, capability and block for which show_comparts draws the edge with the key. */
  ghost function DrawSet(vm: seq<VmRow>, caps: seq<CapRow>, key: Key<int>): set<Draw> {
    set a, k, i | 0 <= a < |vm| && 0 <= k < |caps| && 0 <= i < |vm|
      && Connects(vm, vm[a].compartId, caps[k], key, caps[k].perms) && HitsRow(vm[a].path, caps[k], vm[i]) ::
      Draw(vm[a].compartId, vm[a].path, k, i)
  }

  /** What the rows of the table bring that the query for the path finds. */
  ghost function Found<N(!new)>(path: string, f: Span -> multiset<Key<N>>): VmRow -> multiset<Key<N>> {
    (r: VmRow) => if Contains(r.path, path) then f(Span(r.start, r.end)) else multiset{}
  }

  lemma {:induction false} SpansGather<N(!new)>(vm: seq<VmRow>, path: string, f: Span -> multiset<Key<N>>)
    ensures Gather(Spans(vm, path), f) == Gather(vm, Found(path, f))
  {
    hide Contains;
    if vm != [] {
      var before, r := vm[..|vm| - 1], vm[|vm| - 1];
      SpansGather(before, path, f);
      if Contains(r.path, path) {
        var spans := Spans(vm, path);
        assert spans[..|spans| - 1] == Spans(before, path);
      } else {
        assert Spans(vm, path) == Spans(before, path);
        assert Gather(before, Found(path, f)) + multiset{} == Gather(before, Found(path, f));
      }
    }
  }

  lemma CapDrawCount(vm: seq<VmRow>, t: CompartGraphs.Target, c: CapRow, key: Key<int>)
    ensures CompartGraphs.CapDraws(vm, t, true)(c)[key] == |BlocksDrawn(vm, t, c, key)|
  {
    hide Spans, Connects, Contains, TextInRange, Accepted, CompartGraphs.SrcKnown, CompartGraphs.SrcOf;
    KeyExact(vm, t, c, key, true);
    var connects := Connects(vm, t.id, c, key, c.perms);
    var on := (i: int) => 0 <= i < |vm| && connects && HitsRow(t.path, c, vm[i]);
    assert Marked(|vm|, on) == BlocksDrawn(vm, t, c, key);
    if CompartGraphs.SrcKnown(vm, c) {
      var f := CompartGraphs.CrossHits(t.path, c, CompartGraphs.KeyFor(vm, t, c, true));
      SpansGather(vm, t.path, f);
      forall i | 0 <= i < |vm|
        ensures Found(t.path, f)(vm[i])[key] == if on(i) then 1 else 0
      {
        RowCount(vm, t, c, key, vm[i]);
      }
      GatherCountsOnce(vm, Found(t.path, f), key, on);
    } else {
      assert Marked(|vm|, on) == {};
    }
  }

  lemma RowCount(vm: seq<VmRow>, t: CompartGraphs.Target, c: CapRow, key: Key<int>, r: VmRow)
    requires CompartGraphs.SrcKnown(vm, c)
    ensures Found(t.path, CompartGraphs.CrossHits(t.path, c, CompartGraphs.KeyFor(vm, t, c, true)))(r)[key] ==
            if Connects(vm, t.id, c, key, c.perms) && HitsRow(t.path, c, r) then 1 else 0
  {
    hide Connects, Contains, TextInRange, Accepted, CompartGraphs.SrcKnown, CompartGraphs.SrcOf;
    KeyExact(vm, t, c, key, true);
  }

  lemma TargetDrawCount(vm: seq<VmRow>, t: CompartGraphs.Target, caps: seq<CapRow>, key: Key<int>)
    ensures CompartGraphs.TargetDraws(vm, caps, true)(t)[key] == |CapsDrawn(vm, t, caps, key)|
  {
    hide CompartGraphs.CapDraws, Connects, HitsRow;
    ghost var s := (k: int) => if 0 <= k < |caps| then BlocksDrawn(vm, t, caps[k], key) else {};
    var tag := (k: int, i: int) => (k, i);
    forall k | 0 <= k < |caps|
      ensures CompartGraphs.CapDraws(vm, t, true)(caps[k])[key] == |s(k)|
    {
      CapDrawCount(vm, t, caps[k], key);
    }
    GatherCounts(caps, CompartGraphs.CapDraws(vm, t, true), key, s, tag);
    var pairs := Turns(|caps|, s, tag);
    forall h
      ensures h in pairs <==> h in CapsDrawn(vm, t, caps, key)
    {
      if h in CapsDrawn(vm, t, caps, key) { assert h.1 in s(h.0) && h == tag(h.0, h.1); }
    }
    assert pairs == CapsDrawn(vm, t, caps, key);
  }

  /** The hits counted by the loops are the hits. */
  lemma DrawCount(vm: seq<VmRow>, caps: seq<CapRow>, key: Key<int>)
    ensures CompartGraphs.CompartHits(vm, caps)[key] == |DrawSet(vm, caps, key)|
  {
    hide CompartGraphs.TargetDraws, CompartGraphs.CompartTargets, Connects, HitsRow;
    var ts := CompartGraphs.CompartTargets(vm);
    var none := CompartGraphs.Target(0, "");
    ghost var s := (l: int) => if 0 <= l < |ts| then CapsDrawn(vm, ts[l], caps, key) else {};
    var tag := (l: int, x: (int, int)) =>
      var t := if 0 <= l < |ts| then ts[l] else none; Draw(t.id, t.path, x.0, x.1);
    TargetListed(vm, none);
    assert TellsApart(|ts|, tag) by {
      forall i, x, j, y | 0 <= i < |ts| && 0 <= j < |ts| && tag(i, x) == tag(j, y)
        ensures i == j && x == y
      {
        assert ts[i] == ts[j];
      }
    }
    forall l | 0 <= l < |ts|
      ensures CompartGraphs.TargetDraws(vm, caps, true)(ts[l])[key] == |s(l)|
    {
      TargetDrawCount(vm, ts[l], caps, key);
    }
    GatherCounts(ts, CompartGraphs.TargetDraws(vm, caps, true), key, s, tag);
    var draws := Turns(|ts|, s, tag);
    forall h
      ensures h in draws <==> h in DrawSet(vm, caps, key)
    {
      TargetListed(vm, CompartGraphs.Target(h.compart, h.path));
      if h in DrawSet(vm, caps, key) {
        var l :| 0 <= l < |ts| && ts[l] == CompartGraphs.Target(h.compart, h.path);
        assert (h.cap, h.block) in s(l) && h == tag(l, (h.cap, h.block));
      }
    }
    assert draws == DrawSet(vm, caps, key);
  }

  /**
   In the graph of show_comparts an edge weighs 9 plus the number of (compartment, path of it, capability, block)
   for which it is drawn. There is none when there are none.
   */
  lemma WeightIsNumberOfDraws(vm: seq<VmRow>, caps: seq<CapRow>, edges: seq<Edge<int>>, key: Key<int>)
    requires Counts(edges, CompartGraphs.CompartHits(vm, caps))
    ensures Weight(edges, key) == if DrawSet(vm, caps, key) == {} then 0 else 9 + |DrawSet(vm, caps, key)|
  {
    hide Counts, CompartGraphs.CompartHits;
    DrawCount(vm, caps, key);
    WeightCounts(edges, CompartGraphs.CompartHits(vm, caps), key);
  }

  // ---- the pairs of the second graph ----

  /** A capability and a block of a file name draw the pair. */
  ghost predicate RecordedAt(vm: seq<VmRow>, caps: seq<CapRow>, key: Key<int>, a: int, k: int, i: int) {
    && 0 <= a < |vm| && 0 <= k < |caps| && 0 <= i < |vm|
    && Connects(vm, vm[a].compartId, caps[k], key, "") && HitsRow(BaseName(vm[a].path), caps[k], vm[i])
  }

  lemma BaseTargetListed(vm: seq<VmRow>, t: CompartGraphs.Target)
    ensures t in CompartGraphs.BaseTargets(vm) <==>
            exists a :: 0 <= a < |vm| && t == CompartGraphs.Target(vm[a].compartId, BaseName(vm[a].path))
  {
    hide BaseName;
    var ps, ts := CompartGraphs.Pairs(vm), CompartGraphs.BaseTargets(vm);
    DistinctOnce(ps);
    if t in ts {
      var i :| 0 <= i < |ts| && ts[i] == t;
      assert Distinct(ps)[i] in ps;
      var a :| 0 <= a < |ps| && ps[a] == Distinct(ps)[i];
      assert t == CompartGraphs.Target(vm[a].compartId, BaseName(vm[a].path));
    }
    if a :| 0 <= a < |vm| && t == CompartGraphs.Target(vm[a].compartId, BaseName(vm[a].path)) {
      assert ps[a] in Distinct(ps);
      var i :| 0 <= i < |Distinct(ps)| && Distinct(ps)[i] == ps[a];
      assert ts[i] == t;
    }
  }

  lemma DrawnInRow(vm: seq<VmRow>, ts: seq<CompartGraphs.Target>, caps: seq<CapRow>, key: Key<int>, l: int, k: int)
    requires 0 <= l < |ts| && 0 <= k < |caps|
    ensures (exists j :: CompartGraphs.DrawnAt(vm, ts, caps, false, key, l, k, j)) <==>
            (exists i :: 0 <= i < |vm| &&
               Connects(vm, ts[l].id, caps[k], key, "") && HitsRow(ts[l].path, caps[k], vm[i]))
  {
    hide Spans, IsHit, HitsRow, Connects, CompartGraphs.SrcKnown, CompartGraphs.SrcOf, CompartGraphs.KeyFor;
    KeyExact(vm, ts[l], caps[k], key, false);
    AnyRowHit(vm, ts[l].path, caps[k]);
    if j :| CompartGraphs.DrawnAt(vm, ts, caps, false, key, l, k, j) {
      assert IsHit(ts[l].path, caps[k], Spans(vm, ts[l].path)[j]);
    }
    if i :| 0 <= i < |vm| && Connects(vm, ts[l].id, caps[k], key, "") && HitsRow(ts[l].path, caps[k], vm[i]) {
      var j :| 0 <= j < |Spans(vm, ts[l].path)| && IsHit(ts[l].path, caps[k], Spans(vm, ts[l].path)[j]);
      assert CompartGraphs.DrawnAt(vm, ts, caps, false, key, l, k, j);
    }
  }

  /** The second graph records a pair if and only if some capability and some block of a file name draw it. */
  lemma RecordedIff(vm: seq<VmRow>, caps: seq<CapRow>, key: Key<int>)
    ensures key in CompartGraphs.HasCapsHits(vm, caps) <==> exists a, k, i :: RecordedAt(vm, caps, key, a, k, i)
  {
    hide CompartGraphs.BaseTargets, CompartGraphs.DrawnAt, Connects, HitsRow, BaseName;
    var ts := CompartGraphs.BaseTargets(vm);
    CompartGraphs.DrawnMember(vm, ts, caps, false, key);
    if l, k, j :| CompartGraphs.DrawnAt(vm, ts, caps, false, key, l, k, j) {
      assert 0 <= l < |ts| && 0 <= k < |caps| by { InRange(vm, ts, caps, key, l, k, j); }
      DrawnInRow(vm, ts, caps, key, l, k);
      BaseTargetListed(vm, ts[l]);
      var a :| 0 <= a < |vm| && ts[l] == CompartGraphs.Target(vm[a].compartId, BaseName(vm[a].path));
      var i :| 0 <= i < |vm| && Connects(vm, ts[l].id, caps[k], key, "") && HitsRow(ts[l].path, caps[k], vm[i]);
      assert RecordedAt(vm, caps, key, a, k, i);
    }
    if a, k, i :| RecordedAt(vm, caps, key, a, k, i) {
      var t := CompartGraphs.Target(vm[a].compartId, BaseName(vm[a].path));
      BaseTargetListed(vm, t);
      var l :| 0 <= l < |ts| && ts[l] == t;
      DrawnInRow(vm, ts, caps, key, l, k);
      var j :| CompartGraphs.DrawnAt(vm, ts, caps, false, key, l, k, j);
    }
  }

  lemma InRange(vm: seq<VmRow>, ts: seq<CompartGraphs.Target>, caps: seq<CapRow>, key: Key<int>, l: int, k: int, j: int)
    requires CompartGraphs.DrawnAt(vm, ts, caps, false, key, l, k, j)
    ensures 0 <= l < |ts| && 0 <= k < |caps|
  {
  }

  // ---- when they are drawn at all ----

  /** A capability whose path no row contains hits some block found for the name. */
  ghost predicate FailsAt(vm: seq<VmRow>, caps: seq<CapRow>, name: string, k: int, i: int) {
    && 0 <= k < |caps| && 0 <= i < |vm| && HitsRow(name, caps[k], vm[i])
    && forall j :: 0 <= j < |vm| ==> !Contains(vm[j].path, caps[k].locPath)
  }

  lemma TargetDrawableIff(vm: seq<VmRow>, t: CompartGraphs.Target, caps: seq<CapRow>)
    ensures CompartGraphs.CapsDrawable(vm, t, caps) <==> forall k, i :: !FailsAt(vm, caps, t.path, k, i)
  {
    hide Spans, IsHit, HitsRow, Contains, CompartGraphs.FirstCompart;
    forall k | 0 <= k < |caps|
      ensures CompartGraphs.CapDrawable(vm, t, caps[k], Spans(vm, t.path)) <==>
              forall i :: !FailsAt(vm, caps, t.path, k, i)
    {
      SourceCompartExact(vm, caps[k].locPath, 0);
      AnyRowHit(vm, t.path, caps[k]);
      if i :| 0 <= i < |vm| && HitsRow(t.path, caps[k], vm[i]) {
        assert CompartGraphs.SrcKnown(vm, caps[k]) <==> !FailsAt(vm, caps, t.path, k, i);
      }
    }
  }

  /** Targets with the paths of a list are drawn unless a look-up fails for one of these. */
  lemma ListDrawableIff(vm: seq<VmRow>, ts: seq<CompartGraphs.Target>, names: seq<string>, caps: seq<CapRow>)
    requires forall l :: 0 <= l < |ts| ==> ts[l].path in names
    requires forall a :: 0 <= a < |names| ==> exists l :: 0 <= l < |ts| && ts[l].path == names[a]
    ensures CompartGraphs.Drawable(vm, ts, caps) <==>
            forall a, k, i :: 0 <= a < |names| ==> !FailsAt(vm, caps, names[a], k, i)
  {
    hide CompartGraphs.CapsDrawable, FailsAt;
    forall l | 0 <= l < |ts|
      ensures CompartGraphs.CapsDrawable(vm, ts[l], caps) <==> forall k, i :: !FailsAt(vm, caps, ts[l].path, k, i)
    {
      TargetDrawableIff(vm, ts[l], caps);
    }
  }

  /** Each graph is drawn unless a look-up fails like this, for a path or for a file name. */
  lemma DrawableIff(vm: seq<VmRow>, caps: seq<CapRow>)
    ensures CompartGraphs.Drawable(vm, CompartGraphs.CompartTargets(vm), caps) <==>
            forall a, k, i :: 0 <= a < |vm| ==> !FailsAt(vm, caps, vm[a].path, k, i)
  {
    hide CompartGraphs.CompartTargets, CompartGraphs.Drawable, FailsAt;
    var ts, names := CompartGraphs.CompartTargets(vm), PathsOf(vm);
    forall l | 0 <= l < |ts|
      ensures ts[l].path in names
    {
      TargetListed(vm, ts[l]);
      var a :| 0 <= a < |vm| && vm[a].compartId == ts[l].id && vm[a].path == ts[l].path;
      assert names[a] == ts[l].path;
    }
    forall a | 0 <= a < |names|
      ensures exists l :: 0 <= l < |ts| && ts[l].path == names[a]
    {
      var t := CompartGraphs.Target(vm[a].compartId, vm[a].path);
      TargetListed(vm, t);
      var l :| 0 <= l < |ts| && ts[l] == t;
    }
    ListDrawableIff(vm, ts, names, caps);
  }

  function BaseNames(vm: seq<VmRow>): (names: seq<string>)
    ensures |names| == |vm| && forall a :: 0 <= a < |vm| ==> names[a] == BaseName(vm[a].path)
  {
    seq(|vm|, a requires 0 <= a < |vm| => BaseName(vm[a].path))
  }

  lemma BaseDrawableIff(vm: seq<VmRow>, caps: seq<CapRow>)
    ensures CompartGraphs.Drawable(vm, CompartGraphs.BaseTargets(vm), caps) <==>
            forall a, k, i :: 0 <= a < |vm| ==> !FailsAt(vm, caps, BaseName(vm[a].path), k, i)
  {
    hide CompartGraphs.BaseTargets, CompartGraphs.Drawable, FailsAt;
    var ts, names := CompartGraphs.BaseTargets(vm), BaseNames(vm);
    forall l | 0 <= l < |ts|
      ensures ts[l].path in names
    {
      BaseTargetListed(vm, ts[l]);
      assert ts[l] in ts;
      var a :| 0 <= a < |vm| && ts[l] == CompartGraphs.Target(vm[a].compartId, BaseName(vm[a].path));
      assert names[a] == ts[l].path;
    }
    forall a | 0 <= a < |names|
      ensures exists l :: 0 <= l < |ts| && ts[l].path == names[a]
    {
      var t := CompartGraphs.Target(vm[a].compartId, BaseName(vm[a].path));
      BaseTargetListed(vm, t);
      var l :| 0 <= l < |ts| && ts[l] == t;
    }
    ListDrawableIff(vm, ts, names, caps);
    assert forall a :: 0 <= a < |vm| ==> names[a] == BaseName(vm[a].path);
  }
}
