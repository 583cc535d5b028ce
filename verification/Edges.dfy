/**
 The edge list of the graph scripts. A hit on an edge removes it and appends it again, heavier.
 penwidth is kept as the weight W with penwidth = log10(W): a new edge has penwidth 1, so W = 10,
 and log10(10^penwidth + 1) is the penwidth of W + 1.
 */
module Edges {
  datatype Key<N> = Key(src: N, dest: N, text: string)

  datatype Edge<N> = Edge(key: Key<N>, w: nat)

  const NEW: nat := 10

  predicate Holds<N(==)>(edges: seq<Edge<N>>, key: Key<N>) { exists i :: 0 <= i < |edges| && edges[i].key == key }

  predicate Unique<N(==)>(edges: seq<Edge<N>>) { forall i, j :: 0 <= i < j < |edges| ==> edges[i].key != edges[j].key }

  /** The edges are the counted hits: one edge for every key hit, with weight 9 plus the number of hits. */
  ghost predicate Counts<N(!new)>(edges: seq<Edge<N>>, hits: multiset<Key<N>>) {
    && Unique(edges)
    && (forall i :: 0 <= i < |edges| ==> hits[edges[i].key] > 0 && edges[i].w == NEW - 1 + hits[edges[i].key])
    && (forall k :: k in hits ==> Holds(edges, k))
  }

  /** The weight of an edge, 0 when there is none. */
  ghost function Weight<N>(edges: seq<Edge<N>>, key: Key<N>): nat {
    if edges == [] then 0 else if edges[0].key == key then edges[0].w else Weight(edges[1..], key)
  }

  lemma {:induction false} WeightAt<N>(edges: seq<Edge<N>>, i: nat)
    requires Unique(edges) && i < |edges|
    ensures Weight(edges, edges[i].key) == edges[i].w
  {
    if i > 0 {
      assert edges[0].key != edges[i].key;
      WeightAt(edges[1..], i - 1);
    }
  }

  lemma {:induction false} WeightAbsent<N>(edges: seq<Edge<N>>, key: Key<N>)
    requires !Holds(edges, key)
    ensures Weight(edges, key) == 0
  {
    if edges != [] {
      assert edges[0].key != key;
      assert forall i :: 0 <= i < |edges| - 1 ==> edges[1..][i] == edges[i + 1];
      WeightAbsent(edges[1..], key);
    }
  }

  /** Edges exist exactly for the keys hit, and weigh 9 plus the number of hits. */
  lemma WeightCounts<N(!new)>(edges: seq<Edge<N>>, hits: multiset<Key<N>>, key: Key<N>)
    requires Counts(edges, hits)
    ensures Weight(edges, key) == if key in hits then 9 + hits[key] else 0
    ensures Holds(edges, key) <==> key in hits
  {
    if Holds(edges, key) {
      var i :| 0 <= i < |edges| && edges[i].key == key;
      WeightAt(edges, i);
    } else {
      WeightAbsent(edges, key);
    }
  }

  function Without<T>(s: seq<T>, i: nat): (r: seq<T>)
    requires i < |s|
    ensures |r| == |s| - 1
  {
    s[..i] + s[i + 1..]
  }

  /** "for props in edges: if it has the key: weigh, edges.remove(props), break" */
  method TakeOut<N(==)>(edges: seq<Edge<N>>, key: Key<N>, weight: nat) returns (rest: seq<Edge<N>>, w: nat)
    ensures !Holds(edges, key) ==> rest == edges && w == weight
    ensures Holds(edges, key) ==>
              exists i :: 0 <= i < |edges| && edges[i].key == key && rest == Without(edges, i) && w == edges[i].w + 1
  {
    rest, w := edges, weight;
    for i := 0 to |edges|
      invariant rest == edges && w == weight
      invariant forall j :: 0 <= j < i ==> edges[j].key != key
    {
      if edges[i].key == key {
        w := edges[i].w + 1;
        rest := edges[..i] + edges[i + 1..];
        assert rest == Without(edges, i);
        return;
      }
    }
  }

  /** edges counts the hits for every key but one, of which it has no edge. */
  ghost predicate CountsBut<N(!new)>(edges: seq<Edge<N>>, hits: multiset<Key<N>>, key: Key<N>) {
    && Unique(edges) && !Holds(edges, key)
    && (forall i :: 0 <= i < |edges| ==> hits[edges[i].key] > 0 && edges[i].w == NEW - 1 + hits[edges[i].key])
    && (forall k :: k in hits && k != key ==> Holds(edges, k))
  }

  lemma HoldsSnoc<N>(edges: seq<Edge<N>>, e: Edge<N>, key: Key<N>)
    ensures Holds(edges + [e], key) <==> Holds(edges, key) || e.key == key
  {
    assert (edges + [e])[|edges|] == e;
    if Holds(edges, key) {
      var i :| 0 <= i < |edges| && edges[i].key == key;
      assert (edges + [e])[i].key == key;
    }
  }

  function Behind(i: nat, j: nat): nat { if j < i then j else j + 1 }

  lemma WithoutAt<N>(edges: seq<Edge<N>>, i: nat, j: nat)
    requires i < |edges| && j < |edges| - 1
    ensures Without(edges, i)[j] == edges[Behind(i, j)]
  {
  }

  lemma WithoutUnique<N>(edges: seq<Edge<N>>, i: nat)
    requires Unique(edges) && i < |edges|
    ensures Unique(Without(edges, i)) && !Holds(Without(edges, i), edges[i].key)
  {
    var rest := Without(edges, i);
    hide Without;
    forall j | 0 <= j < |rest|
      ensures rest[j] == edges[Behind(i, j)]
    {
      WithoutAt(edges, i, j);
    }
  }

  lemma WithoutHolds<N>(edges: seq<Edge<N>>, i: nat, key: Key<N>)
    requires i < |edges| && edges[i].key != key && Holds(edges, key)
    ensures Holds(Without(edges, i), key)
  {
    var j :| 0 <= j < |edges| && edges[j].key == key;
    assert Without(edges, i)[if j < i then j else j - 1].key == key;
  }

  lemma WithoutCountsBut<N(!new)>(edges: seq<Edge<N>>, hits: multiset<Key<N>>, i: nat)
    requires Counts(edges, hits) && i < |edges|
    ensures CountsBut(Without(edges, i), hits, edges[i].key)
  {
    var rest := Without(edges, i);
    WithoutUnique(edges, i);
    hide Holds, Unique, Without;
    forall j | 0 <= j < |rest|
      ensures hits[rest[j].key] > 0 && rest[j].w == NEW - 1 + hits[rest[j].key]
    {
      WithoutAt(edges, i, j);
    }
    forall k | k in hits && k != edges[i].key
      ensures Holds(rest, k)
    {
      WithoutHolds(edges, i, k);
    }
  }

  lemma AppendCounts<N(!new)>(rest: seq<Edge<N>>, hits: multiset<Key<N>>, key: Key<N>)
    requires CountsBut(rest, hits, key)
    ensures Counts(rest + [Edge(key, NEW + hits[key])], hits + multiset{key})
  {
    var e, more := Edge(key, NEW + hits[key]), hits + multiset{key};
    var after := rest + [e];
    forall k | k in more
      ensures Holds(after, k)
    {
      HoldsSnoc(rest, e, k);
    }
    forall i | 0 <= i < |rest|
      ensures rest[i].key != key
    {
    }
  }

  /** A hit on a key counts it once more, provided the carried weight is the new edge's when there is no edge. */
  lemma BumpCounts<N(!new)>(edges: seq<Edge<N>>, hits: multiset<Key<N>>, key: Key<N>, rest: seq<Edge<N>>, w: nat)
    requires Counts(edges, hits)
    requires !Holds(edges, key) ==> rest == edges && w == NEW
    requires Holds(edges, key) ==>
               exists i :: 0 <= i < |edges| && edges[i].key == key && rest == Without(edges, i) && w == edges[i].w + 1
    ensures Counts(rest + [Edge(key, w)], hits + multiset{key})
    ensures Holds(rest + [Edge(key, w)], key)
  {
    if Holds(edges, key) {
      var i :| 0 <= i < |edges| && edges[i].key == key && rest == Without(edges, i) && w == edges[i].w + 1;
      WithoutCountsBut(edges, hits, i);
    } else {
      assert key !in hits;
      assert CountsBut(edges, hits, key);
    }
    hide Counts, CountsBut, Unique;
    AppendCounts(rest, hits, key);
    HoldsSnoc(rest, Edge(key, w), key);
  }

  // ---- hits of a loop ----

  /** All hits of a loop over xs, f(x) being those of one turn. */
  ghost function Gather<T(!new), N(!new)>(xs: seq<T>, f: T -> multiset<Key<N>>): multiset<Key<N>> {
    if xs == [] then multiset{} else Gather(xs[..|xs| - 1], f) + f(xs[|xs| - 1])
  }

  lemma GatherSnoc<T(!new), N(!new)>(xs: seq<T>, i: nat, f: T -> multiset<Key<N>>)
    requires i < |xs|
    ensures Gather(xs[..i + 1], f) == Gather(xs[..i], f) + f(xs[i])
  {
    assert xs[..i + 1][..i] == xs[..i];
  }

  lemma {:induction false} GatherMember<T(!new), N(!new)>(xs: seq<T>, f: T -> multiset<Key<N>>, k: Key<N>)
    ensures k in Gather(xs, f) <==> exists i :: 0 <= i < |xs| && k in f(xs[i])
  {
    if xs != [] {
      var before := xs[..|xs| - 1];
      GatherMember(before, f, k);
      if i :| 0 <= i < |xs| && k in f(xs[i]) {
        if i < |before| { assert k in f(before[i]); }
      }
      if i :| 0 <= i < |before| && k in f(before[i]) {
        assert k in f(xs[i]);
      }
    }
  }

  lemma {:induction false} GatherSame<T(!new), N(!new)>(xs: seq<T>, f: T -> multiset<Key<N>>, g: T -> multiset<Key<N>>)
    requires forall i :: 0 <= i < |xs| ==> f(xs[i]) == g(xs[i])
    ensures Gather(xs, f) == Gather(xs, g)
  {
    if xs != [] {
      var before := xs[..|xs| - 1];
      assert forall i :: 0 <= i < |before| ==> before[i] == xs[i];
      GatherSame(before, f, g);
    }
  }

  lemma {:induction false} GatherWithout<T(!new), N(!new)>(xs: seq<T>, i: nat, f: T -> multiset<Key<N>>)
    requires i < |xs|
    ensures Gather(xs, f) == Gather(Without(xs, i), f) + f(xs[i])
  {
    var n := |xs| - 1;
    if i == n {
      assert Without(xs, i) == xs[..n];
    } else {
      GatherWithout(xs[..n], i, f);
      assert Without(xs, i)[..n - 1] == Without(xs[..n], i);
      assert Without(xs, i)[n - 1] == xs[n];
    }
  }

  lemma RemoveFromMultiset<T>(s: seq<T>, i: nat)
    requires i < |s|
    ensures multiset(Without(s, i)) == multiset(s) - multiset{s[i]}
  {
    assert s == s[..i] + [s[i]] + s[i + 1..];
  }

  /** The hits do not depend on the order in which a loop runs through its list. */
  lemma {:induction false} GatherPermuted<T(!new), N(!new)>(xs: seq<T>, ys: seq<T>, f: T -> multiset<Key<N>>)
    requires multiset(xs) == multiset(ys)
    ensures Gather(xs, f) == Gather(ys, f)
  {
    if xs == [] {
      assert |multiset(ys)| == 0;
    } else {
      var n := |xs| - 1;
      var x := xs[n];
      assert xs == xs[..n] + [x];
      assert x in multiset(ys);
      var i :| 0 <= i < |ys| && ys[i] == x;
      RemoveFromMultiset(ys, i);
      assert multiset(xs) == multiset(xs[..n]) + multiset{x};
      assert multiset(xs[..n]) == multiset(xs) - multiset{x};
      GatherPermuted(xs[..n], Without(ys, i), f);
      GatherWithout(ys, i, f);
    }
  }
}
