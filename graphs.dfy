/** The graph layer of lib/glymour.rb: an RGL `ImplicitGraph` is a vertex list
    plus an adjacency iterator, modelled here as a vertex list plus a map from a
    vertex to its adjacency list. A vertex with no entry has no neighbours. */
module Graphs {
  import opened Seqs

  datatype Graph<V> = Graph(verts: seq<V>, adj: map<V, seq<V>>)

  /** An edge as RGL yields it: an ordered pair `source`, `target`. */
  datatype Edge<V> = Edge(source: V, target: V)

  /** `adjacent_vertices(x)`. */
  function Adj<V>(g: Graph<V>, x: V): seq<V>
  {
    if x in g.adj then g.adj[x] else []
  }

  /** `vert_set - [v]`: the list without any occurrence of `v`, order kept. */
  function Without<V(==,!new)>(s: seq<V>, v: V): seq<V>
  {
    Filter(s, y => y != v)
  }

  lemma {:induction false} WithoutAppend<V(!new)>(s: seq<V>, t: seq<V>, v: V)
    ensures Without(s + t, v) == Without(s, v) + Without(t, v)
  {
    FilterAppend(s, t, y => y != v);
  }

  /** Removing a value the list does not hold changes nothing; removing it
      from the one-element list leaves nothing. */
  lemma {:induction false} WithoutAbsent<V(!new)>(s: seq<V>, v: V)
    requires v !in s
    ensures Without(s, v) == s
    ensures Without([v], v) == []
  {
    FilterAll(s, y => y != v);
    assert [v][..0] == [];
  }

  /** `complete_graph(vs)`: every vertex is adjacent to every other vertex. */
  function CompleteGraph<V(==,!new)>(vs: seq<V>): (g: Graph<V>)
    ensures g.verts == vs
  {
    Graph(vs, map v | v in vs :: Without(vs, v))
  }

  /** The adjacency list of `v` in the complete graph is the vertex list with
      `v` removed and the order kept: no self-loops, and symmetric. */
  lemma CompleteGraphAdjacency<V(!new)>(vs: seq<V>, v: V)
    requires v in vs
    ensures Adj(CompleteGraph(vs), v) == Without(vs, v)
    ensures IsSubseq(Adj(CompleteGraph(vs), v), vs)
    ensures v !in Adj(CompleteGraph(vs), v)
    ensures forall u :: u in Adj(CompleteGraph(vs), v) <==> u in vs && u != v
    ensures forall u :: u in Adj(CompleteGraph(vs), v) ==> v in Adj(CompleteGraph(vs), u)
  {
    FilterIsSubseq(vs, y => y != v);
  }

  /** `remove_edge(orig, e)`. As written, line 21 rejects BOTH endpoints of `e`
      from EVERY vertex's adjacency list, not only `target` from `source`'s
      list and `source` from `target`'s: afterwards no vertex lists either
      endpoint. */
  function RemoveEdge<V(==,!new)>(g: Graph<V>, e: Edge<V>): (h: Graph<V>)
    ensures h.verts == g.verts
    ensures forall x, u :: u in Adj(h, x) <==> u in Adj(g, x) && u != e.source && u != e.target
    ensures forall x :: |Adj(h, x)| <= |Adj(g, x)|
  {
    Graph(g.verts, map x | x in g.adj :: Filter(g.adj[x], v => v != e.source && v != e.target))
  }

  /** Each new adjacency list is the old one with the two endpoints filtered
      out, order kept; in particular `target` is no longer adjacent to `source`. */
  lemma RemoveEdgeAdjacency<V(!new)>(g: Graph<V>, e: Edge<V>, x: V)
    ensures IsSubseq(Adj(RemoveEdge(g, e), x), Adj(g, x))
    ensures e.target !in Adj(RemoveEdge(g, e), e.source)
    ensures e.source !in Adj(RemoveEdge(g, e), x) && e.target !in Adj(RemoveEdge(g, e), x)
  {
    if x in g.adj {
      FilterIsSubseq(g.adj[x], v => v != e.source && v != e.target);
    }
  }

  /** `make_directed(vertices, directed_edges)`: `x` is adjacent to the
      vertices, in list order, that `directed_edges[x]` holds. With
      `directed_edges.default = []` a vertex without an entry has no targets. */
  function MakeDirected<V(==,!new)>(vs: seq<V>, d: map<V, set<V>>): (g: Graph<V>)
    ensures g.verts == vs
    ensures forall x, y :: y in Adj(g, x) <==> x in vs && y in vs && x in d && y in d[x]
  {
    Graph(vs, map x | x in vs :: Filter(vs, y => x in d && y in d[x]))
  }

  /** Targets of `x` in a directed-edge map, empty when `x` has no entry. */
  function Targets<V>(d: map<V, set<V>>, x: V): set<V>
  {
    if x in d then d[x] else {}
  }

  /** `adjacent_either(a, b)`, "Aab": duplicate-free union of both adjacency
      lists, first occurrences in order. */
  function AdjacentEither<V(==,!new)>(g: Graph<V>, a: V, b: V): (r: seq<V>)
    ensures NoDup(r)
    ensures forall v :: v in r <==> v in Adj(g, a) || v in Adj(g, b)
  {
    Uniq(Adj(g, a) + Adj(g, b))
  }

  /** Number of (vertex, neighbour) entries over the listed vertices. */
  function PairsOver<V>(g: Graph<V>, vs: seq<V>): nat
  {
    if vs == [] then 0 else PairsOver(g, vs[..|vs| - 1]) + |Adj(g, vs[|vs| - 1])|
  }

  /** Total adjacency-pair count of the graph: the measure that shrinks. */
  function PairCount<V>(g: Graph<V>): nat
  {
    PairsOver(g, g.verts)
  }

  lemma {:induction false} PairsOverMonotone<V>(g: Graph<V>, h: Graph<V>, vs: seq<V>, w: V)
    requires forall x :: |Adj(h, x)| <= |Adj(g, x)|
    ensures PairsOver(h, vs) <= PairsOver(g, vs)
    ensures w in vs && |Adj(h, w)| < |Adj(g, w)| ==> PairsOver(h, vs) < PairsOver(g, vs)
  {
    if vs != [] {
      PairsOverMonotone(g, h, vs[..|vs| - 1], w);
      assert w in vs ==> w in vs[..|vs| - 1] || w == vs[|vs| - 1];
    }
  }

  /** `remove_edge` never adds adjacency pairs, and it strictly removes some
      when `target` was listed as a neighbour of a vertex `source`. */
  lemma RemoveEdgeShrinks<V(!new)>(g: Graph<V>, e: Edge<V>)
    ensures PairCount(RemoveEdge(g, e)) <= PairCount(g)
    ensures e.source in g.verts && e.target in Adj(g, e.source) ==>
      PairCount(RemoveEdge(g, e)) < PairCount(g)
  {
    var h := RemoveEdge(g, e);
    if e.source in g.verts && e.target in Adj(g, e.source) {
      FilterDrops(g.adj[e.source], v => v != e.source && v != e.target, e.target);
    }
    PairsOverMonotone(g, h, g.verts, e.source);
  }

  /** The complete graph on distinct vertices has |vs| * (|vs| - 1) adjacency
      pairs (CompleteGraphEdgeCount counts its undirected edges). */
  lemma CompleteGraphPairs<V(!new)>(vs: seq<V>)
    requires NoDup(vs)
    ensures PairCount(CompleteGraph(vs)) == |vs| * (|vs| - 1)
  {
    var g := CompleteGraph(vs);
    if vs != [] {
      forall v | v in vs ensures |Adj(g, v)| == |vs| - 1 {
        WithoutDistinct(vs, v);
      }
      PairsOverConstant(g, vs, |vs| - 1);
    }
  }

  lemma {:induction false} WithoutDistinct<V(!new)>(vs: seq<V>, v: V)
    requires NoDup(vs) && v in vs
    ensures |Without(vs, v)| == |vs| - 1
  {
    var front := vs[..|vs| - 1];
    if vs[|vs| - 1] == v {
      assert v !in front;
      FilterAll(front, y => y != v);
    } else {
      assert v in front;
      WithoutDistinct(front, v);
    }
  }

  lemma {:induction false} PairsOverConstant<V>(g: Graph<V>, vs: seq<V>, k: nat)
    requires forall v :: v in vs ==> |Adj(g, v)| == k
    ensures PairsOver(g, vs) == |vs| * k
  {
    if vs != [] {
      PairsOverConstant(g, vs[..|vs| - 1], k);
      assert vs[|vs| - 1] in vs;
    }
  }

  /** `Edge(u, v)` for every `v` in `l`, in order. */
  function PairsAt<V>(u: V, l: seq<V>): (r: seq<Edge<V>>)
    ensures |r| == |l|
    ensures forall i :: 0 <= i < |l| ==> r[i] == Edge(u, l[i])
  {
    seq(|l|, i requires 0 <= i < |l| => Edge(u, l[i]))
  }

  /** Every (vertex, neighbour) pair, in vertex-then-adjacency order. */
  function AdjPairs<V>(g: Graph<V>, vs: seq<V>): seq<Edge<V>>
  {
    if vs == [] then [] else AdjPairs(g, vs[..|vs| - 1]) + PairsAt(vs[|vs| - 1], Adj(g, vs[|vs| - 1]))
  }

  /** Undirected edge equality, as RGL compares undirected edges. */
  predicate SameEdge<V(==)>(e: Edge<V>, f: Edge<V>)
  {
    (e.source == f.source && e.target == f.target) || (e.source == f.target && e.target == f.source)
  }

  /** Keep the first pair of every unordered adjacency. */
  function DedupEdges<V(==)>(ps: seq<Edge<V>>): seq<Edge<V>>
  {
    if ps == [] then []
    else
      var front := DedupEdges(ps[..|ps| - 1]);
      var p := ps[|ps| - 1];
      if Edge(p.source, p.target) in front || Edge(p.target, p.source) in front then front else front + [p]
  }

  /** `net.edges`. RGL's edge iterator is not part of this model; it is
      assumed to yield one pair per unordered adjacency, the first one met in
      vertex-then-adjacency order. */
  function Edges<V(==)>(g: Graph<V>): seq<Edge<V>>
  {
    DedupEdges(AdjPairs(g, g.verts))
  }

  lemma {:induction false} AdjPairsMembers<V>(g: Graph<V>, vs: seq<V>)
    ensures forall e :: e in AdjPairs(g, vs) <==> e.source in vs && e.target in Adj(g, e.source)
  {
    if vs != [] {
      var u := vs[|vs| - 1];
      AdjPairsMembers(g, vs[..|vs| - 1]);
      forall e ensures e in AdjPairs(g, vs) <==> e.source in vs && e.target in Adj(g, e.source) {
        assert e.source in vs <==> e.source in vs[..|vs| - 1] || e.source == u;
        if e.source == u && e.target in Adj(g, u) {
          var i :| 0 <= i < |Adj(g, u)| && Adj(g, u)[i] == e.target;
          assert PairsAt(u, Adj(g, u))[i] == e;
        }
      }
    }
  }

  lemma {:induction false} DedupEdgesSound<V>(ps: seq<Edge<V>>)
    ensures forall e :: e in DedupEdges(ps) ==> e in ps
  {
    if ps != [] {
      DedupEdgesSound(ps[..|ps| - 1]);
    }
  }

  lemma {:induction false} DedupEdgesCovers<V>(ps: seq<Edge<V>>, e: Edge<V>)
    requires e in ps
    ensures Edge(e.source, e.target) in DedupEdges(ps) || Edge(e.target, e.source) in DedupEdges(ps)
  {
    var front := ps[..|ps| - 1];
    if e in front {
      DedupEdgesCovers(front, e);
    }
  }

  lemma {:induction false} DedupEdgesDistinct<V>(ps: seq<Edge<V>>)
    ensures forall i, j :: 0 <= i < j < |DedupEdges(ps)| ==> !SameEdge(DedupEdges(ps)[i], DedupEdges(ps)[j])
  {
    if ps != [] {
      var front := DedupEdges(ps[..|ps| - 1]);
      var p := ps[|ps| - 1];
      DedupEdgesDistinct(ps[..|ps| - 1]);
      if !(Edge(p.source, p.target) in front || Edge(p.target, p.source) in front) {
        forall i | 0 <= i < |front| ensures !SameEdge(front[i], p) {
          assert front[i] in front;
        }
      }
    }
  }

  /** `net.edges` lists only real adjacencies, covers every adjacency once up
      to direction, and never lists an unordered pair twice. */
  lemma EdgesFacts<V>(g: Graph<V>)
    ensures forall e :: e in Edges(g) ==> e.source in g.verts && e.target in Adj(g, e.source)
    ensures forall u, v :: u in g.verts && v in Adj(g, u) ==>
      Edge(u, v) in Edges(g) || Edge(v, u) in Edges(g)
    ensures forall i, j :: 0 <= i < j < |Edges(g)| ==> !SameEdge(Edges(g)[i], Edges(g)[j])
  {
    assert Edges(g) == DedupEdges(AdjPairs(g, g.verts));
    AdjPairsMembers(g, g.verts);
    DedupEdgesSound(AdjPairs(g, g.verts));
    DedupEdgesDistinct(AdjPairs(g, g.verts));
    forall u, v | u in g.verts && v in Adj(g, u) ensures Edge(u, v) in Edges(g) || Edge(v, u) in Edges(g) {
      DedupEdgesCovers(AdjPairs(g, g.verts), Edge(u, v));
    }
  }

  /** The same adjacency read the other way round. */
  function Rev<V>(e: Edge<V>): Edge<V>
  {
    Edge(e.target, e.source)
  }

  /** The listed pairs whose reverse is not listed. */
  function Unpaired<V(==)>(ps: seq<Edge<V>>): set<Edge<V>>
  {
    set e | e in ps && Rev(e) !in ps
  }

  /** On a pair list without repeats and without self-loops, deduplication
      keeps one pair of every two that are reverses of each other, and every
      pair whose reverse is missing. */
  lemma {:induction false} DedupEdgesCount<V>(ps: seq<Edge<V>>)
    requires NoDup(ps)
    requires forall e :: e in ps ==> e.source != e.target
    ensures 2 * |DedupEdges(ps)| == |ps| + |Unpaired(ps)|
  {
    if ps != [] {
      var front, p := ps[..|ps| - 1], ps[|ps| - 1];
      assert ps == front + [p];
      assert NoDup(front) && p !in front;
      DedupEdgesCount(front);
      DedupEdgesSnoc(front, p);
    }
  }

  /** One step of DedupEdgesCount: appending a pair that is new and no self-loop. */
  lemma DedupEdgesSnoc<V>(front: seq<Edge<V>>, p: Edge<V>)
    requires p !in front && p.source != p.target
    ensures 2 * |DedupEdges(front + [p])| + |Unpaired(front)|
         == 2 * |DedupEdges(front)| + 1 + |Unpaired(front + [p])|
  {
    var ps := front + [p];
    assert ps[..|ps| - 1] == front && ps[|ps| - 1] == p;
    DedupEdgesSound(front);
    var d := DedupEdges(front);
    assert Edge(p.source, p.target) == p && Edge(p.target, p.source) == Rev(p);
    if Rev(p) in front {
      DedupEdgesCovers(front, Rev(p));
      assert DedupEdges(ps) == d;
      UnpairedGainsReverse(front, p);
    } else {
      assert DedupEdges(ps) == d + [p];
      UnpairedGainsPair(front, p);
    }
  }

  lemma UnpairedGainsReverse<V>(front: seq<Edge<V>>, p: Edge<V>)
    requires p !in front && Rev(p) in front
    ensures Unpaired(front + [p]) == Unpaired(front) - {Rev(p)}
    ensures Rev(p) in Unpaired(front)
  {
    assert Rev(Rev(p)) == p;
    forall e ensures e in Unpaired(front + [p]) <==> e in Unpaired(front) - {Rev(p)} {
      assert e in front + [p] <==> e in front || e == p;
      assert Rev(e) in front + [p] <==> Rev(e) in front || Rev(e) == p;
      assert Rev(e) == p <==> e == Rev(p);
    }
  }

  lemma UnpairedGainsPair<V>(front: seq<Edge<V>>, p: Edge<V>)
    requires p !in front && Rev(p) !in front && p.source != p.target
    ensures Unpaired(front + [p]) == Unpaired(front) + {p}
    ensures p !in Unpaired(front)
  {
    forall e ensures e in Unpaired(front + [p]) <==> e in Unpaired(front) + {p} {
      assert e in front + [p] <==> e in front || e == p;
      assert Rev(e) in front + [p] <==> Rev(e) in front || Rev(e) == p;
      assert Rev(e) == p <==> e == Rev(p);
    }
  }

  lemma {:induction false} AdjPairsLength<V>(g: Graph<V>, vs: seq<V>)
    ensures |AdjPairs(g, vs)| == PairsOver(g, vs)
  {
    if vs != [] {
      AdjPairsLength(g, vs[..|vs| - 1]);
    }
  }

  /** Distinct vertices with duplicate-free adjacency lists give distinct
      pairs. */
  lemma {:induction false} AdjPairsNoDup<V>(g: Graph<V>, vs: seq<V>)
    requires NoDup(vs)
    requires forall v :: v in vs ==> NoDup(Adj(g, v))
    ensures NoDup(AdjPairs(g, vs))
  {
    if vs != [] {
      var front, u := vs[..|vs| - 1], vs[|vs| - 1];
      assert NoDup(front) && u !in front;
      AdjPairsNoDup(g, front);
      AdjPairsSources(g, front, u);
      NoDupJoin(AdjPairs(g, front), PairsAt(u, Adj(g, u)), u);
    }
  }

  lemma AdjPairsSources<V>(g: Graph<V>, vs: seq<V>, u: V)
    requires u !in vs
    ensures forall e :: e in AdjPairs(g, vs) ==> e.source != u
  {
    AdjPairsMembers(g, vs);
  }

  lemma NoDupJoin<V>(a: seq<Edge<V>>, b: seq<Edge<V>>, u: V)
    requires NoDup(a) && NoDup(b)
    requires forall e :: e in a ==> e.source != u
    requires forall e :: e in b ==> e.source == u
    ensures NoDup(a + b)
  {
    var c := a + b;
    forall i, j | 0 <= i < j < |c| ensures c[i] != c[j] {
      if i < |a| && j >= |a| {
        assert c[i] == a[i] && c[j] == b[j - |a|];
        assert a[i] in a && b[j - |a|] in b;
      } else if i >= |a| {
        assert c[i] == b[i - |a|] && c[j] == b[j - |a|];
      }
    }
  }

  /** The complete graph on distinct vertices lists each of its
      |vs| * (|vs| - 1) / 2 undirected edges once. */
  lemma CompleteGraphEdgeCount<V(!new)>(vs: seq<V>)
    requires NoDup(vs)
    ensures |Edges(CompleteGraph(vs))| == |vs| * (|vs| - 1) / 2
  {
    var g := CompleteGraph(vs);
    var ps := AdjPairs(g, vs);
    forall v | v in vs ensures NoDup(Adj(g, v)) {
      CompleteGraphAdjacency(vs, v);
      FilterNoDup(vs, y => y != v);
    }
    AdjPairsNoDup(g, vs);
    AdjPairsMembers(g, vs);
    forall e | e in ps ensures e.source != e.target && Rev(e) in ps {
      CompleteGraphAdjacency(vs, e.source);
      CompleteGraphAdjacency(vs, e.target);
    }
    assert Unpaired(ps) == {};
    DedupEdgesCount(ps);
    AdjPairsLength(g, vs);
    CompleteGraphPairs(vs);
  }
}
