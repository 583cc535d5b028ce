/**
 python/full_graph.py: the names of the nodes and of the sources of edges. A special name is followed by the start of
 a row: the first a LIKE query finds for a node, the first an exact query finds for a source.
 */
module Labels {
  import opened Text
  import opened Tables
  import opened FullGraph

  // ---- the first rows ----

  /** Row i is the first that contains the name. */
  predicate FirstFound(vm: seq<VmRow>, name: string, i: int) {
    0 <= i < |vm| && Contains(vm[i].path, name) && forall j :: 0 <= j < i ==> !Contains(vm[j].path, name)
  }

  /** Row i is the first that has the name. */
  predicate FirstExact(vm: seq<VmRow>, name: string, i: int) {
    0 <= i < |vm| && vm[i].path == name && forall j :: 0 <= j < i ==> vm[j].path != name
  }

  lemma {:induction false} SpansHead(vm: seq<VmRow>, name: string, i: int)
    requires FirstFound(vm, name, i)
    ensures Spans(vm, name) != [] && Spans(vm, name)[0].start == vm[i].start
  {
    hide Contains;
    var n := |vm| - 1;
    if i < n {
      SpansHead(vm[..n], name, i);
    } else {
      NothingFound(vm[..n], name);
    }
  }

  lemma {:induction false} NothingFound(vm: seq<VmRow>, name: string)
    requires forall j :: 0 <= j < |vm| ==> !Contains(vm[j].path, name)
    ensures Spans(vm, name) == []
  {
    hide Contains;
    if vm != [] { NothingFound(vm[..|vm| - 1], name); }
  }

  lemma {:induction false} StartsHead(vm: seq<VmRow>, name: string, i: int)
    requires FirstExact(vm, name, i)
    ensures StartsOf(vm, name) != [] && StartsOf(vm, name)[0] == vm[i].start
  {
    var n := |vm| - 1;
    if i < n {
      StartsHead(vm[..n], name, i);
    } else {
      NothingExact(vm[..n], name);
    }
  }

  lemma {:induction false} NothingExact(vm: seq<VmRow>, name: string)
    requires forall j :: 0 <= j < |vm| ==> vm[j].path != name
    ensures StartsOf(vm, name) == []
  {
    if vm != [] { NothingExact(vm[..|vm| - 1], name); }
  }

  /** A stored name has both first rows, the one found not behind the exact one. */
  lemma FirstRows(vm: seq<VmRow>, name: string) returns (i: int, j: int)
    requires PathIn(vm, name)
    ensures FirstFound(vm, name, i) && FirstExact(vm, name, j) && i <= j
  {
    hide Contains;
    j := 0;
    while vm[j].path != name
      decreases |vm| - j
      invariant 0 <= j < |vm| && forall k :: 0 <= k < j ==> vm[k].path != name
      invariant exists k :: j <= k < |vm| && vm[k].path == name
    {
      j := j + 1;
    }
    assert Contains(vm[j].path, name) by { ContainsSelf(name); }
    i := 0;
    while !Contains(vm[i].path, name)
      decreases j - i
      invariant 0 <= i <= j && forall k :: 0 <= k < i ==> !Contains(vm[k].path, name)
    {
      i := i + 1;
    }
  }

  // ---- labels ----

  lemma LabelCancels(path: string, a: string, b: string)
    ensures path + " (" + a + ")" == path + " (" + b + ")" <==> a == b
  {
    var x, y := path + " (" + a + ")", path + " (" + b + ")";
    assert x[|path| + 2..|x| - 1] == a && y[|path| + 2..|y| - 1] == b;
  }

  lemma FirstsUnique(vm: seq<VmRow>, name: string)
    ensures forall i, i' :: FirstFound(vm, name, i) && FirstFound(vm, name, i') ==> i == i'
    ensures forall j, j' :: FirstExact(vm, name, j) && FirstExact(vm, name, j') ==> j == j'
  {
    hide Contains;
  }

  // ---- the labels, said on the rows ----

  /** The label of an edge's source. */
  ghost predicate SourceIs(vm: seq<VmRow>, path: string, src: string) {
    if path == "unknown" || path == "Stack" || path == "Guard" then
      exists j :: FirstExact(vm, path, j) && src == path + " (" + vm[j].start + ")"
    else src == path
  }

  /** The label of a library's node. */
  ghost predicate NodeIs(vm: seq<VmRow>, path: string, dest: string) {
    if path == "unknown" || path == "Stack" || path == "Guard" then
      exists i :: FirstFound(vm, path, i) && dest == path + " (" + vm[i].start + ")"
    else dest == path
  }

  lemma SourceExact(vm: seq<VmRow>, path: string, src: string)
    ensures SourceIs(vm, path, src) <==> SourceKnown(vm, path) && src == SrcLabel(vm, path)
  {
    hide StartsOf;
    if Special(path) {
      if j :| FirstExact(vm, path, j) {
        StartsHead(vm, path, j);
        FirstsUnique(vm, path);
      } else {
        if PathIn(vm, path) {
          var i, j := FirstRows(vm, path);
        } else {
          NothingExact(vm, path);
        }
      }
    }
  }

  lemma NodeExact(vm: seq<VmRow>, path: string, dest: string)
    ensures NodeIs(vm, path, dest) <==> NodeKnown(vm, path) && dest == DestLabel(vm, path)
  {
    hide Spans, Contains;
    if Special(path) {
      if i :| FirstFound(vm, path, i) {
        SpansHead(vm, path, i);
        FirstsUnique(vm, path);
      } else {
        NoFirstFound(vm, path);
        NothingFound(vm, path);
      }
    }
  }

  lemma NoFirstFound(vm: seq<VmRow>, name: string)
    requires forall i :: !FirstFound(vm, name, i)
    ensures forall j :: 0 <= j < |vm| ==> !Contains(vm[j].path, name)
  {
    hide Contains;
    for n := 0 to |vm|
      invariant forall j :: 0 <= j < n ==> !Contains(vm[j].path, name)
    {
      assert !FirstFound(vm, name, n);
    }
  }
}
