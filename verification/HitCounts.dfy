/**
 python/full_graph.py: the weights of the library graph without its loops, as the number of (path, capability, block)
 for which the script draws, said on the rows of the tables.
 */
module HitCounts {
  import opened Arith
  import opened Text
  import opened Hex
  import opened Tables
  import opened SuffixFilter
  import opened Edges
  import opened FullGraph
  import opened Labels

  // ---- counting the turns of a loop ----

  /** The results of the turns 0 .. n - 1, s(i) being those of turn i. */
  ghost function Turns<X(!new), Y(!new)>(n: nat, s: int -> set<X>, tag: (int, X) -> Y): set<Y> {
    set i, x | 0 <= i < n && x in s(i) :: tag(i, x)
  }

  /** The tags tell the first n turns and their results apart. */
  ghost predicate TellsApart<X(!new), Y(!new)>(n: nat, tag: (int, X) -> Y) {
    forall i, x, j, y :: 0 <= i < n && 0 <= j < n && tag(i, x) == tag(j, y) ==> i == j && x == y
  }

  ghost function Tagged<X(!new), Y(!new)>(i: int, a: set<X>, tag: (int, X) -> Y): set<Y> { set x | x in a :: tag(i, x) }

  lemma {:induction false} TaggedSize<X(!new), Y(!new)>(i: int, a: set<X>, tag: (int, X) -> Y, n: nat)
    requires TellsApart(n, tag) && 0 <= i < n
    ensures |Tagged(i, a, tag)| == |a|
  {
    if a == {} {
      assert Tagged(i, a, tag) == {};
    } else {
      var x := Pick(a);
      TaggedSize(i, a - {x}, tag, n);
      assert Tagged(i, a, tag) == Tagged(i, a - {x}, tag) + {tag(i, x)};
      assert tag(i, x) !in Tagged(i, a - {x}, tag);
    }
  }

  lemma {:induction false} GatherCounts<T(!new), N(!new), X(!new), Y(!new)>(
    xs: seq<T>, f: T -> multiset<Key<N>>, key: Key<N>, s: int -> set<X>, tag: (int, X) -> Y)
    requires TellsApart(|xs|, tag)
    requires forall i :: 0 <= i < |xs| ==> f(xs[i])[key] == |s(i)|
    ensures Gather(xs, f)[key] == |Turns(|xs|, s, tag)|
  {
    if xs == [] {
      assert Turns(0, s, tag) == {};
    } else {
      var n := |xs| - 1;
      var before := xs[..n];
      assert forall i :: 0 <= i < n ==> before[i] == xs[i];
      TurnsSnoc(n, s, tag);
      hide Turns, TellsApart;
      GatherCounts(before, f, key, s, tag);
    }
  }

  lemma TurnsSnoc<X(!new), Y(!new)>(n: nat, s: int -> set<X>, tag: (int, X) -> Y)
    requires TellsApart(n + 1, tag)
    ensures TellsApart(n, tag) && |Turns(n + 1, s, tag)| == |Turns(n, s, tag)| + |s(n)|
  {
    TaggedSize(n, s(n), tag, n + 1);
    assert Turns(n + 1, s, tag) == Turns(n, s, tag) + Tagged(n, s(n), tag);
    assert Turns(n, s, tag) !! Tagged(n, s(n), tag);
  }

  ghost function Marked(n: nat, on: int -> bool): set<int> { set i | 0 <= i < n && on(i) }

  lemma {:induction false} GatherCountsOnce<T(!new), N(!new)>(
    xs: seq<T>, f: T -> multiset<Key<N>>, key: Key<N>, on: int -> bool)
    requires forall i :: 0 <= i < |xs| ==> f(xs[i])[key] == if on(i) then 1 else 0
    ensures Gather(xs, f)[key] == |Marked(|xs|, on)|
  {
    if xs == [] {
      assert Marked(0, on) == {};
    } else {
      var n := |xs| - 1;
      var before := xs[..n];
      assert forall i :: 0 <= i < n ==> before[i] == xs[i];
      GatherCountsOnce(before, f, key, on);
      assert Marked(n + 1, on) == Marked(n, on) + if on(n) then {n} else {};
    }
  }

  // ---- lists without repetitions ----

  predicate NoRepeats<T(==)>(xs: seq<T>) { forall i, j :: 0 <= i < j < |xs| ==> xs[i] != xs[j] }

  lemma {:induction false} DistinctOnce<T(!new)>(xs: seq<T>)
    ensures NoRepeats(Distinct(xs))
    ensures forall x :: x in Distinct(xs) <==> x in xs
  {
    if xs != [] {
      DistinctOnce(xs[..|xs| - 1]);
      assert xs == xs[..|xs| - 1] + [xs[|xs| - 1]];
    }
  }

  lemma PathListed(vm: seq<VmRow>, path: string)
    ensures path in Distinct(PathsOf(vm)) <==> exists a :: 0 <= a < |vm| && vm[a].path == path
    ensures NoRepeats(Distinct(PathsOf(vm)))
  {
    DistinctOnce(PathsOf(vm));
    if a :| 0 <= a < |vm| && vm[a].path == path { assert PathsOf(vm)[a] == path; }
    if path in PathsOf(vm) {
      var a :| 0 <= a < |vm| && PathsOf(vm)[a] == path;
      assert vm[a].path == path;
    }
  }

  // ---- the hits of the library graph ----

  /** The edge a capability's hits on a library go to: the two labels and the permissions. */
  ghost predicate Named(vm: seq<VmRow>, path: string, c: CapRow, key: Key<string>) {
    SourceIs(vm, c.locPath, key.src) && NodeIs(vm, path, key.dest) && key.text == c.perms
  }

  /** The block is found for the path, the target lies in it as text, and the filter lets the two paths through. */
  predicate HitsRow(path: string, c: CapRow, r: VmRow) {
    Contains(r.path, path) && TextInRange(c.addr, r.start, r.end) && Accepted(c.locPath, path)
  }

  /** The path of a library, the index of a capability, the index of a block. */
  datatype Hit = Hit(path: string, cap: int, block: int)

  ghost function BlocksHit(vm: seq<VmRow>, path: string, c: CapRow, key: Key<string>): set<int> {
    set i | 0 <= i < |vm| && Named(vm, path, c, key) && HitsRow(path, c, vm[i])
  }

  ghost function CapsHit(vm: seq<VmRow>, path: string, caps: seq<CapRow>, key: Key<string>): set<(int, int)> {
    set k, i | 0 <= k < |caps| && 0 <= i < |vm|
      && Named(vm, path, caps[k], key) && HitsRow(path, caps[k], vm[i]) :: (k, i)
  }

  /** Every stored path, capability and block for which the edge with the key is drawn. */
  ghost function HitSet(vm: seq<VmRow>, caps: seq<CapRow>, key: Key<string>): set<Hit> {
    set a, k, i | 0 <= a < |vm| && 0 <= k < |caps| && 0 <= i < |vm|
      && Named(vm, vm[a].path, caps[k], key) && HitsRow(vm[a].path, caps[k], vm[i]) :: Hit(vm[a].path, k, i)
  }

  lemma NameCount(vm: seq<VmRow>, path: string, c: CapRow, key: Key<string>)
    ensures ByLabel(vm)(path, c)[key] == if Named(vm, path, c, key) then 1 else 0
  {
    hide SourceIs, NodeIs, NodeKnown, SourceKnown, SrcLabel, DestLabel;
    SourceExact(vm, c.locPath, key.src);
    NodeExact(vm, path, key.dest);
  }

  lemma CapHitCount(vm: seq<VmRow>, path: string, c: CapRow, key: Key<string>)
    ensures CapHits(vm, path, ByLabel(vm))(c)[key] == |BlocksHit(vm, path, c, key)|
  {
    hide Spans, Contains, TextInRange, Accepted, ByLabel, Named;
    var name := ByLabel(vm)(path, c);
    SpansAreRows(vm, path, c, name);
    NameCount(vm, path, c, key);
    var named := Named(vm, path, c, key);
    var on := (i: int) => 0 <= i < |vm| && named && HitsRow(path, c, vm[i]);
    GatherCountsOnce(vm, RowHits(path, c, name), key, on);
    assert Marked(|vm|, on) == BlocksHit(vm, path, c, key);
  }

  lemma PathHitCount(vm: seq<VmRow>, path: string, caps: seq<CapRow>, key: Key<string>)
    ensures PathHits(vm, caps, ByLabel(vm))(path)[key] == |CapsHit(vm, path, caps, key)|
  {
    hide CapHits, ByLabel, Named, HitsRow;
    ghost var s := (k: int) => if 0 <= k < |caps| then BlocksHit(vm, path, caps[k], key) else {};
    var tag := (k: int, i: int) => (k, i);
    forall k | 0 <= k < |caps|
      ensures CapHits(vm, path, ByLabel(vm))(caps[k])[key] == |s(k)|
    {
      CapHitCount(vm, path, caps[k], key);
    }
    GatherCounts(caps, CapHits(vm, path, ByLabel(vm)), key, s, tag);
    var pairs := Turns(|caps|, s, tag);
    forall h
      ensures h in pairs <==> h in CapsHit(vm, path, caps, key)
    {
      if h in CapsHit(vm, path, caps, key) { assert h.1 in s(h.0) && h == tag(h.0, h.1); }
    }
    assert pairs == CapsHit(vm, path, caps, key);
  }

  /** The hits counted by the loops are the hits. */
  lemma HitCount(vm: seq<VmRow>, caps: seq<CapRow>, key: Key<string>)
    ensures Hits(vm, caps)[key] == |HitSet(vm, caps, key)|
  {
    hide PathHits, ByLabel, Named, HitsRow, Distinct, PathsOf;
    var libs := Distinct(PathsOf(vm));
    var s := (l: int) => if 0 <= l < |libs| then CapsHit(vm, libs[l], caps, key) else {};
    var tag := (l: int, x: (int, int)) => Hit(if 0 <= l < |libs| then libs[l] else "", x.0, x.1);
    PathListed(vm, "");
    forall l | 0 <= l < |libs|
      ensures PathHits(vm, caps, ByLabel(vm))(libs[l])[key] == |s(l)|
    {
      PathHitCount(vm, libs[l], caps, key);
    }
    GatherCounts(libs, PathHits(vm, caps, ByLabel(vm)), key, s, tag);
    var triples := Turns(|libs|, s, tag);
    forall h
      ensures h in triples <==> h in HitSet(vm, caps, key)
    {
      PathListed(vm, h.path);
      if h in HitSet(vm, caps, key) {
        var l :| 0 <= l < |libs| && libs[l] == h.path;
        assert (h.cap, h.block) in s(l) && h == tag(l, (h.cap, h.block));
      }
    }
    assert triples == HitSet(vm, caps, key);
  }

  /**
   An edge of the finished graph, told by its two labels and its permissions, weighs 9 plus the number of
   (path, capability, block) for which it is drawn. There is none when there are none.
   */
  lemma WeightIsNumberOfHits(vm: seq<VmRow>, caps: seq<CapRow>, edges: seq<Edge<string>>, key: Key<string>)
    requires Counts(edges, Hits(vm, caps))
    ensures Weight(edges, key) == if HitSet(vm, caps, key) == {} then 0 else 9 + |HitSet(vm, caps, key)|
  {
    hide Counts, Hits;
    HitCount(vm, caps, key);
    WeightCounts(edges, Hits(vm, caps), key);
  }

  // ---- when it is drawn at all ----

  lemma {:induction false} SpanFound(vm: seq<VmRow>, path: string, s: Span)
    ensures s in Spans(vm, path) <==>
            exists i :: 0 <= i < |vm| && Contains(vm[i].path, path) && s == Span(vm[i].start, vm[i].end)
  {
    hide Contains;
    if vm != [] {
      var before := vm[..|vm| - 1];
      SpanFound(before, path, s);
      if i :| 0 <= i < |before| && Contains(before[i].path, path) && s == Span(before[i].start, before[i].end) {
        assert vm[i] == before[i];
      }
      if i :| 0 <= i < |vm| && Contains(vm[i].path, path) && s == Span(vm[i].start, vm[i].end) {
        if i < |before| { assert before[i] == vm[i]; }
      }
    }
  }

  /** Some block of the path is hit. */
  lemma AnyRowHit(vm: seq<VmRow>, path: string, c: CapRow)
    ensures (exists k :: 0 <= k < |Spans(vm, path)| && IsHit(path, c, Spans(vm, path)[k])) <==>
            (exists i :: 0 <= i < |vm| && HitsRow(path, c, vm[i]))
  {
    hide Spans, Contains, TextInRange, Accepted;
    if k :| 0 <= k < |Spans(vm, path)| && IsHit(path, c, Spans(vm, path)[k]) {
      SpanFound(vm, path, Spans(vm, path)[k]);
      var i :| 0 <= i < |vm| && Contains(vm[i].path, path) && Spans(vm, path)[k] == Span(vm[i].start, vm[i].end);
      assert HitsRow(path, c, vm[i]);
    }
    if i :| 0 <= i < |vm| && HitsRow(path, c, vm[i]) {
      var s := Span(vm[i].start, vm[i].end);
      SpanFound(vm, path, s);
      assert s in Spans(vm, path);
      var k :| 0 <= k < |Spans(vm, path)| && Spans(vm, path)[k] == s;
      assert IsHit(path, c, Spans(vm, path)[k]);
    }
  }

  /** A capability stored under a special name that no row has hits some block of a stored path. */
  ghost predicate FailsAt(vm: seq<VmRow>, caps: seq<CapRow>, a: int, k: int, i: int) {
    && 0 <= a < |vm| && 0 <= k < |caps| && 0 <= i < |vm| && HitsRow(vm[a].path, caps[k], vm[i])
    && caps[k].locPath in {"unknown", "Stack", "Guard"}
    && forall j :: 0 <= j < |vm| ==> vm[j].path != caps[k].locPath
  }

  /** The graph is drawn unless a look-up fails like this. */
  lemma DrawableIff(vm: seq<VmRow>, caps: seq<CapRow>)
    ensures Drawable(vm, caps) <==> forall a, k, i :: !FailsAt(vm, caps, a, k, i)
  {
    hide CapDrawable, FailsAt, Distinct, PathsOf, Spans;
    var libs := Distinct(PathsOf(vm));
    if a, k, i :| FailsAt(vm, caps, a, k, i) {
      FailsInside(vm, caps, a, k, i);
      PathListed(vm, vm[a].path);
      var l :| 0 <= l < |libs| && libs[l] == vm[a].path;
      assert !CapsDrawable(vm, libs[l], caps);
    }
    if forall a, k, i :: !FailsAt(vm, caps, a, k, i) {
      forall l, k | 0 <= l < |libs| && 0 <= k < |caps|
        ensures CapDrawable(vm, libs[l], caps[k], Spans(vm, libs[l]))
      {
        PathListed(vm, libs[l]);
        var a :| 0 <= a < |vm| && vm[a].path == libs[l];
        NeverFails(vm, caps, a, k);
      }
    }
  }

  lemma SourceKnownIff(vm: seq<VmRow>, path: string)
    ensures !SourceKnown(vm, path) <==>
            path in {"unknown", "Stack", "Guard"} && forall j :: 0 <= j < |vm| ==> vm[j].path != path
  {
    hide StartsOf;
    if PathIn(vm, path) { LookupsSucceed(vm, path); } else { NothingExact(vm, path); }
  }

  lemma FailsInside(vm: seq<VmRow>, caps: seq<CapRow>, a: int, k: int, i: int)
    requires FailsAt(vm, caps, a, k, i)
    ensures 0 <= a < |vm| && 0 <= k < |caps| && !CapDrawable(vm, vm[a].path, caps[k], Spans(vm, vm[a].path))
  {
    hide Spans, HitsRow, IsHit, SourceKnown;
    SourceKnownIff(vm, caps[k].locPath);
    AnyRowHit(vm, vm[a].path, caps[k]);
  }

  lemma NeverFails(vm: seq<VmRow>, caps: seq<CapRow>, a: int, k: int)
    requires 0 <= a < |vm| && 0 <= k < |caps| && forall i :: !FailsAt(vm, caps, a, k, i)
    ensures CapDrawable(vm, vm[a].path, caps[k], Spans(vm, vm[a].path))
  {
    hide Spans, HitsRow, IsHit, SourceKnown;
    SourceKnownIff(vm, caps[k].locPath);
    AnyRowHit(vm, vm[a].path, caps[k]);
    if !SourceKnown(vm, caps[k].locPath) {
      forall i | 0 <= i < |vm|
        ensures !HitsRow(vm[a].path, caps[k], vm[i])
      {
        assert !FailsAt(vm, caps, a, k, i);
      }
    }
  }
}
