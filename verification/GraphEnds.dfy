/**
 python/full_graph.py: whether the ends of an edge are nodes. The node of a library is named with the start of
 the first row a LIKE query finds, the source of an edge with the start of the first row an exact one finds.
 */
module GraphEnds {
  import Arith
  import opened Text
  import opened Tables
  import opened Edges
  import opened FullGraph
  import opened Labels
  import opened HitCounts

  /** The first row that contains the name starts where the first row that has it starts. */
  ghost predicate SameStart(vm: seq<VmRow>, name: string) {
    exists i, j :: FirstFound(vm, name, i) && FirstExact(vm, name, j) && vm[i].start == vm[j].start
  }

  /**
   An edge from a stored path starts at the node of that path exactly when the name is not special or the first
   row that contains it starts where the first row that has it starts.
   */
  lemma SourceIsNodeIff(vm: seq<VmRow>, path: string)
    requires PathIn(vm, path)
    ensures StartsOf(vm, path) != [] && Spans(vm, path) != []
    ensures SrcLabel(vm, path) == DestLabel(vm, path) <==> !Special(path) || SameStart(vm, path)
  {
    hide Contains, StartsOf, Spans;
    var i, j := FirstRows(vm, path);
    SpansHead(vm, path, i);
    StartsHead(vm, path, j);
    LabelCancels(path, vm[j].start, vm[i].start);
    FirstsUnique(vm, path);
  }

  /** Where no two rows start alike: exactly when no row that contains the name stands before the first that has it. */
  lemma SameStartIff(vm: seq<VmRow>, name: string, j: int)
    requires FirstExact(vm, name, j)
    requires forall i, k :: 0 <= i < k < |vm| ==> vm[i].start != vm[k].start
    ensures SameStart(vm, name) <==> forall i :: 0 <= i < j ==> !Contains(vm[i].path, name)
  {
    hide Contains;
    assert PathIn(vm, name);
    var f, e := FirstRows(vm, name);
    FirstsUnique(vm, name);
    assert Contains(vm[j].path, name) by { ContainsSelf(name); }
    if forall i :: 0 <= i < j ==> !Contains(vm[i].path, name) { assert FirstFound(vm, name, j); }
  }

  /** A suffixed stack block in front of the plain one takes the node's name away from the edges. */
  lemma SourceCanMissItsNode(a: VmRow, b: VmRow)
    requires a.path == "Stack(.got)" && b.path == "Stack" && a.start != b.start
    ensures SourceKnown([a, b], "Stack") && NodeKnown([a, b], "Stack")
    ensures SrcLabel([a, b], "Stack") != DestLabel([a, b], "Stack")
  {
    var vm := [a, b];
    assert vm[1].path == "Stack";
    SourceIsNodeIff(vm, "Stack");
    assert OccursAt("Stack(.got)", "Stack", 0);
    assert "Stack(.got)"[5] == '(' && FirstExact(vm, "Stack", 1);
    assert FirstFound(vm, "Stack", 0);
    FirstsUnique(vm, "Stack");
  }

  // ---- the ends of the edges of a finished graph ----

  lemma NodeListed(vm: seq<VmRow>, nodes: seq<string>, path: string)
    requires PathIn(vm, path) && NodesOf(vm, nodes)
    ensures NodeKnown(vm, path) && DestLabel(vm, path) in nodes
  {
    hide NodeKnown, DestLabel;
    var paths := Distinct(PathsOf(vm));
    var i :| 0 <= i < |vm| && vm[i].path == path;
    assert PathsOf(vm)[i] == path;
    DistinctExact(PathsOf(vm));
    assert path in PathsOf(vm) && path in paths;
    var k :| 0 <= k < |paths| && paths[k] == path;
    assert nodes[k] == DestLabel(vm, path);
  }

  lemma ListedNode(vm: seq<VmRow>, nodes: seq<string>, node: string)
    requires NodesOf(vm, nodes) && node in nodes
    ensures exists path :: PathIn(vm, path) && NodeKnown(vm, path) && node == DestLabel(vm, path)
  {
    hide NodeKnown, DestLabel;
    var paths := Distinct(PathsOf(vm));
    var k :| 0 <= k < |nodes| && nodes[k] == node;
    DistinctExact(PathsOf(vm));
    assert paths[k] in PathsOf(vm);
    var i :| 0 <= i < |vm| && PathsOf(vm)[i] == paths[k];
    assert vm[i].path == paths[k];
  }

  /** A special name with a start is not special itself, and shows which name it was. */
  lemma SpecialLabel(p: string, a: string, q: string, b: string)
    requires Special(p)
    ensures !Special(p + " (" + a + ")")
    ensures Special(q) && p + " (" + a + ")" == q + " (" + b + ")" ==> p == q
  {
    var x := p + " (" + a + ")";
    assert x[|p|] == ' ' && x[0] == p[0];
    if Special(q) && x == q + " (" + b + ")" { assert x[0] == q[0]; }
  }

  /**
   The source of an edge is a node exactly when it is the node of its path, or when some row's whole path reads
   like the source's label.
   */
  lemma SourceInNodesIff(vm: seq<VmRow>, nodes: seq<string>, path: string)
    requires PathIn(vm, path) && NodesOf(vm, nodes)
    ensures StartsOf(vm, path) != []
    ensures SrcLabel(vm, path) in nodes <==>
            !Special(path) || SameStart(vm, path) || PathIn(vm, SrcLabel(vm, path))
  {
    hide NodesOf, SameStart, PathIn, StartsOf, Spans;
    SourceIsNodeIff(vm, path);
    NodeListed(vm, nodes, path);
    var src := SrcLabel(vm, path);
    if Special(path) {
      SpecialLabel(path, StartsOf(vm, path)[0], "", "");
      if PathIn(vm, src) { NodeListed(vm, nodes, src); }
      if src in nodes {
        ListedNode(vm, nodes, src);
        var q :| PathIn(vm, q) && NodeKnown(vm, q) && src == DestLabel(vm, q);
        if Special(q) { SpecialLabel(path, StartsOf(vm, path)[0], q, Spans(vm, q)[0].start); }
      }
    }
  }

  /** The edge leads from a capability's path, by its label, and whether that is a node is settled by the rows. */
  ghost predicate StartsAt(vm: seq<VmRow>, nodes: seq<string>, path: string, src: string) {
    && SourceIs(vm, path, src)
    && (src in nodes <==> !Special(path) || SameStart(vm, path) || PathIn(vm, src))
  }

  ghost predicate EndsKnown(vm: seq<VmRow>, caps: seq<CapRow>, nodes: seq<string>, key: Key<string>) {
    key.dest in nodes &&
    exists k :: 0 <= k < |caps| && StartsAt(vm, nodes, caps[k].locPath, key.src) && key.text == caps[k].perms
  }

  /** Every edge of the finished graph ends at a node, and starts at one exactly under the condition of its source. */
  lemma EdgeEnds(vm: seq<VmRow>, caps: seq<CapRow>, nodes: seq<string>, edges: seq<Edge<string>>, i: nat)
    requires forall k :: 0 <= k < |caps| ==> PathIn(vm, caps[k].locPath)
    requires NodesOf(vm, nodes) && Counts(edges, Hits(vm, caps)) && i < |edges|
    ensures EndsKnown(vm, caps, nodes, edges[i].key)
  {
    hide NodesOf, Counts, Hits, Named, StartsAt, EndsKnown;
    var key := edges[i].key;
    var h := DrawnBy(vm, caps, edges, i);
    NamedEnds(vm, nodes, h.path, caps[h.cap], key);
    KnownBy(vm, caps, nodes, key, h.cap);
  }

  lemma KnownBy(vm: seq<VmRow>, caps: seq<CapRow>, nodes: seq<string>, key: Key<string>, k: int)
    requires 0 <= k < |caps| && key.dest in nodes
    requires StartsAt(vm, nodes, caps[k].locPath, key.src) && key.text == caps[k].perms
    ensures EndsKnown(vm, caps, nodes, key)
  {
    hide StartsAt;
  }

  lemma DrawnBy(vm: seq<VmRow>, caps: seq<CapRow>, edges: seq<Edge<string>>, i: nat) returns (h: Hit)
    requires Counts(edges, Hits(vm, caps)) && i < |edges|
    ensures PathIn(vm, h.path) && 0 <= h.cap < |caps| && Named(vm, h.path, caps[h.cap], edges[i].key)
  {
    hide Hits, HitsRow, Named;
    HitCount(vm, caps, edges[i].key);
    Arith.HasElement(HitSet(vm, caps, edges[i].key));
    h :| h in HitSet(vm, caps, edges[i].key);
  }

  lemma NamedEnds(vm: seq<VmRow>, nodes: seq<string>, path: string, c: CapRow, key: Key<string>)
    requires NodesOf(vm, nodes) && PathIn(vm, c.locPath) && PathIn(vm, path) && Named(vm, path, c, key)
    ensures key.dest in nodes && StartsAt(vm, nodes, c.locPath, key.src) && key.text == c.perms
  {
    hide NodeKnown, SourceKnown, SrcLabel, DestLabel, SameStart, PathIn, NodesOf, SourceIs, NodeIs;
    NodeExact(vm, path, key.dest);
    SourceExact(vm, c.locPath, key.src);
    NodeListed(vm, nodes, path);
    SourceInNodesIff(vm, nodes, c.locPath);
  }

  /** There are as many nodes as paths, and each path has its own. */
  lemma NodesExact(vm: seq<VmRow>, nodes: seq<string>)
    requires NodesOf(vm, nodes)
    ensures |nodes| == |set a | 0 <= a < |vm| :: vm[a].path|
    ensures forall a :: 0 <= a < |vm| ==> exists n :: n in nodes && NodeIs(vm, vm[a].path, n)
  {
    hide Distinct, PathsOf, NodeIs, NodesOf;
    var paths := Distinct(PathsOf(vm));
    assert |nodes| == |paths| by { hide NodeKnown, DestLabel; NodesCount(vm, nodes); }
    PathListed(vm, "");
    OnceSize(paths);
    var stored := set a | 0 <= a < |vm| :: vm[a].path;
    forall path
      ensures path in stored <==> path in paths
    {
      PathListed(vm, path);
    }
    assert stored == (set path | path in paths);
    forall a | 0 <= a < |vm|
      ensures exists n :: n in nodes && NodeIs(vm, vm[a].path, n)
    {
      NodeListed(vm, nodes, vm[a].path);
      NodeExact(vm, vm[a].path, DestLabel(vm, vm[a].path));
    }
  }

  lemma NodesCount(vm: seq<VmRow>, nodes: seq<string>)
    requires NodesOf(vm, nodes)
    ensures |nodes| == |Distinct(PathsOf(vm))|
  {
  }

  lemma {:induction false} OnceSize<T(!new)>(xs: seq<T>)
    requires NoRepeats(xs)
    ensures |set x | x in xs| == |xs|
  {
    if xs != [] {
      var n := |xs| - 1;
      OnceSize(xs[..n]);
      assert (set x | x in xs) == (set x | x in xs[..n]) + {xs[n]} by { assert xs == xs[..n] + [xs[n]]; }
    }
  }
}
