/** `@directed_edges` as lib/glymour.rb actually uses it: a Ruby `Hash`
    whose default value is one shared array object (lines 246-247, 316 and
    233). `h[x] << y` on a missing key appends to that shared array and
    stores no key, and `compatible_orientations` works on `@directed_edges`
    itself rather than on a copy (line 315). This module follows those
    semantics literally, for the revision in which `make_directed` (line 231,
    an instance method of module StructureLearning that LearningNet does not
    include) is in reach of `compatible_orientations`; as the code stands the
    first call of `make_directed` raises NoMethodError instead
    (LearningNets.CompatibleAsWrittenRaises). Modules PC and LearningNets model
    the evidently intended per-vertex direction sets. */
module DefaultHashes {
  import opened Seqs
  import opened Graphs
  import opened OpenTriples
  import opened Combinatorics
  import opened Acyclicity
  import opened PC

  /** A hash from vertices to arrays whose missing keys all read the one
      `default` array. */
  datatype DefaultHash<V> = DefaultHash(entries: map<V, seq<V>>, default: seq<V>)

  /** A hash with no key and an empty default. */
  function Empty<V>(): DefaultHash<V>
  {
    DefaultHash(map[], [])
  }

  /** `h[x]`. */
  function Fetch<V>(h: DefaultHash<V>, x: V): seq<V>
  {
    if x in h.entries then h.entries[x] else h.default
  }

  /** `h[x] << y`: appends to the stored array when `x` is a key; otherwise
      appends to the shared default array, which every missing key reads. */
  function Push<V(!new)>(h: DefaultHash<V>, x: V, y: V): (r: DefaultHash<V>)
    ensures r.entries.Keys == h.entries.Keys
    ensures forall z :: (Fetch(r, z) ==
      if z == x || (x !in h.entries && z !in h.entries) then Fetch(h, z) + [y] else Fetch(h, z))
  {
    if x in h.entries then DefaultHash(h.entries[x := h.entries[x] + [y]], h.default)
    else DefaultHash(h.entries, h.default + [y])
  }

  /** `h.default = []`: a fresh, empty default array. */
  function ResetDefault<V>(h: DefaultHash<V>): (r: DefaultHash<V>)
    ensures r.entries == h.entries && r.default == []
  {
    DefaultHash(h.entries, [])
  }

  // ---------------------------------------------------------------------
  // learn_structure's orientation pass (lines 291-301)

  /** The orientation pass of `learn_structure` as written: for each
      listed triple that passes the collider test, `directed_edges[a] << b`
      and `directed_edges[c] << b`. */
  function OrientAsWritten<V(==,!new)>(g: Graph<V>, ts: seq<Triple<V>>, h: DefaultHash<V>, indep: Oracle<V>): DefaultHash<V>
  {
    if ts == [] then h
    else
      var r := OrientAsWritten(g, ts[..|ts| - 1], h, indep);
      var t := ts[|ts| - 1];
      if OrientsCollider(g, t, indep) then Push(Push(r, t.a, t.b), t.c, t.b) else r
  }

  /** Starting from a hash with no key, which is what `initialize` builds,
      the pass stores no key at all: every vertex reads the shared default,
      which collects the middle vertex of every triple that passed. */
  lemma OrientAsWrittenStoresNothing<V(!new)>(g: Graph<V>, ts: seq<Triple<V>>, h: DefaultHash<V>, indep: Oracle<V>)
    requires h.entries == map[]
    ensures OrientAsWritten(g, ts, h, indep).entries == map[]
    ensures forall x :: Fetch(OrientAsWritten(g, ts, h, indep), x) == OrientAsWritten(g, ts, h, indep).default
    ensures forall y :: y in OrientAsWritten(g, ts, h, indep).default <==>
      y in h.default || exists t :: t in ts && OrientsCollider(g, t, indep) && y == t.b
  {
    OrientAsWrittenKeys(g, ts, h, indep);
    OrientAsWrittenDefault(g, ts, h, indep);
  }

  /** Without keys to begin with, the pass stores none. */
  lemma {:induction false} OrientAsWrittenKeys<V(!new)>(g: Graph<V>, ts: seq<Triple<V>>, h: DefaultHash<V>, indep: Oracle<V>)
    requires h.entries == map[]
    ensures OrientAsWritten(g, ts, h, indep).entries == map[]
  {
    if ts != [] {
      OrientAsWrittenKeys(g, ts[..|ts| - 1], h, indep);
    }
  }

  /** Without keys, every push lands in the shared default. */
  lemma {:induction false} OrientAsWrittenDefault<V(!new)>(g: Graph<V>, ts: seq<Triple<V>>, h: DefaultHash<V>, indep: Oracle<V>)
    requires h.entries == map[]
    ensures forall y :: y in OrientAsWritten(g, ts, h, indep).default <==>
      y in h.default || exists t :: t in ts && OrientsCollider(g, t, indep) && y == t.b
  {
    if ts != [] {
      var front := ts[..|ts| - 1];
      var t := ts[|ts| - 1];
      var r := OrientAsWritten(g, front, h, indep);
      OrientAsWrittenDefault(g, front, h, indep);
      OrientAsWrittenKeys(g, front, h, indep);
      if OrientsCollider(g, t, indep) {
        PushWithoutKeys(r, t.a, t.b);
        PushWithoutKeys(Push(r, t.a, t.b), t.c, t.b);
      }
      assert forall u :: u in ts <==> u in front || u == t;
    }
  }

  /** On a hash without keys, a push appends to the default. */
  lemma PushWithoutKeys<V(!new)>(h: DefaultHash<V>, x: V, y: V)
    requires h.entries == map[]
    ensures Push(h, x, y) == DefaultHash(map[], h.default + [y])
  {
  }

  /** So after the pass every vertex, the collider `b` itself included,
      reads as pointing to `b`: the directions are neither kept per vertex
      nor free of self-loops. */
  lemma ColliderReadsEverywhere<V(!new)>(g: Graph<V>, ts: seq<Triple<V>>, indep: Oracle<V>, t: Triple<V>, x: V)
    requires t in ts && OrientsCollider(g, t, indep)
    ensures OrientAsWritten(g, ts, DefaultHash(map[], []), indep).entries == map[]
    ensures t.b in Fetch(OrientAsWritten(g, ts, DefaultHash(map[], []), indep), x)
  {
    OrientAsWrittenStoresNothing(g, ts, DefaultHash(map[], []), indep);
  }

  // ---------------------------------------------------------------------
  // compatible_orientations (lines 308-333)

  /** The edge loop of lines 318-326 on the hash itself. The test
      `directed_edges.include? e` asks whether an edge is a key of a
      vertex-keyed hash and never holds. */
  function PushAll<V(!new)>(h: DefaultHash<V>, es: seq<Edge<V>>, subset: seq<Edge<V>>): DefaultHash<V>
  {
    if es == [] then h
    else
      var r := PushAll(h, es[..|es| - 1], subset);
      var e := es[|es| - 1];
      if e in subset then Push(r, e.source, e.target) else Push(r, e.target, e.source)
  }

  /** Pushing never stores a key. */
  lemma {:induction false} PushAllKeys<V(!new)>(h: DefaultHash<V>, es: seq<Edge<V>>, subset: seq<Edge<V>>)
    ensures PushAll(h, es, subset).entries.Keys == h.entries.Keys
  {
    if es != [] {
      PushAllKeys(h, es[..|es| - 1], subset);
    }
  }

  /** `make_directed(vertices, h)` (lines 231-239) seen through the hash:
      `y` follows `x` when `y` is in `h[x]`, read whenever the graph is
      walked, not when it is built. */
  function View<V(!new)>(vs: seq<V>, h: DefaultHash<V>): (g: Graph<V>)
    ensures g.verts == vs
    ensures forall x, y :: y in Adj(g, x) <==> x in vs && y in vs && y in Fetch(h, x)
  {
    Graph(vs, map x | x in vs :: Filter(vs, y => y in Fetch(h, x)))
  }

  /** One subset: `current_orientation.default = []` (line 316), the edge
      loop, then `make_directed`, whose block runs at once and sets the
      default to a fresh `[]` again (line 233). */
  function SubsetPass<V(!new)>(h: DefaultHash<V>, es: seq<Edge<V>>, subset: seq<Edge<V>>): DefaultHash<V>
  {
    ResetDefault(PushAll(ResetDefault(h), es, subset))
  }

  /** The loop over the listed subsets: the hash after it, and how many
      graphs were appended. Each graph is judged by `acyclic?` right after
      its own pass, on the hash as it then stands. */
  function CompatRun<V(!new)>(vs: seq<V>, es: seq<Edge<V>>, subsets: seq<seq<Edge<V>>>, h: DefaultHash<V>): (DefaultHash<V>, nat)
  {
    if subsets == [] then (h, 0)
    else
      var run := CompatRun(vs, es, subsets[..|subsets| - 1], h);
      var h2 := SubsetPass(run.0, es, subsets[|subsets| - 1]);
      (h2, if Acyclic(View(vs, h2)) then run.1 + 1 else run.1)
  }

  /** `compatible_orientations` with its hash semantics as written and
      `make_directed` in reach: the list it returns, whose
      graphs all read the hash as the loop leaves it, and that hash, which
      is `@directed_edges` itself. */
  function CompatibleAsWritten<V(!new)>(g: Graph<V>, h: DefaultHash<V>): (seq<Graph<V>>, DefaultHash<V>)
  {
    var es := Edges(g);
    var run := CompatRun(g.verts, es, PowerSet(es), h);
    (Copies(run.1, View(g.verts, run.0)), run.0)
  }

  /** `k` references to the one graph object `g`. */
  function Copies<V>(k: nat, g: Graph<V>): (r: seq<Graph<V>>)
    ensures |r| == k
    ensures forall h :: h in r ==> h == g
  {
    seq(k, i => g)
  }

  /** A graph with no adjacency at all passes the peeling check. */
  lemma {:induction false} EdgelessAcyclic<V>(g: Graph<V>, vs: seq<V>)
    requires forall x, y :: y !in Adj(g, x)
    ensures AcyclicOn(g, vs)
    decreases |vs|
  {
    if vs != [] {
      assert IsSource(g, vs, vs[0]);
      assert FirstSource(g, vs, 0) == 0;
      EdgelessAcyclic(g, RemoveAt(vs, 0));
    }
  }

  /** With `make_directed` in reach: from a hash with no key, every pass
      leaves a hash with no key and an empty default, whose view has no adjacency and is therefore kept:
      one graph per subset. */
  lemma {:induction false} CompatRunEdgeless<V(!new)>(vs: seq<V>, es: seq<Edge<V>>, subsets: seq<seq<Edge<V>>>, h: DefaultHash<V>)
    requires h.entries == map[]
    ensures CompatRun(vs, es, subsets, h).0.entries == map[]
    ensures subsets != [] ==> CompatRun(vs, es, subsets, h).0.default == []
    ensures CompatRun(vs, es, subsets, h).1 == |subsets|
  {
    if subsets != [] {
      var run := CompatRun(vs, es, subsets[..|subsets| - 1], h);
      CompatRunEdgeless(vs, es, subsets[..|subsets| - 1], h);
      var h2 := SubsetPass(run.0, es, subsets[|subsets| - 1]);
      PushAllKeys(ResetDefault(run.0), es, subsets[|subsets| - 1]);
      assert h2.entries == map[] && h2.default == [];
      EdgelessAcyclic(View(vs, h2), vs);
    }
  }

  /** With `make_directed` in reach, on a direction hash with no key (always
      the case, since `learn_structure` stores none) `compatible_orientations` returns one
      graph per subset of the edges, 2^|edges| of them, and every one of
      them has no edge at all; the hash is left with no key and an empty
      default. */
  lemma CompatibleAsWrittenEdgeless<V(!new)>(g: Graph<V>, h: DefaultHash<V>)
    requires h.entries == map[]
    ensures |CompatibleAsWritten(g, h).0| == Pow2(|Edges(g)|)
    ensures forall r, x, y :: r in CompatibleAsWritten(g, h).0 ==> r.verts == g.verts && y !in Adj(r, x)
    ensures CompatibleAsWritten(g, h).1 == Empty()
  {
    var es := Edges(g);
    PowerSetSize(es);
    CompatRunEdgeless(g.verts, es, PowerSet(es), h);
    EmptyViewEdgeless<V>(g.verts);
  }

  /** The view of a hash with no key and an empty default has no adjacency. */
  lemma EmptyViewEdgeless<V(!new)>(vs: seq<V>)
    ensures forall x, y :: y !in Adj(View(vs, Empty<V>()), x)
  {
    assert forall x: V :: Fetch(Empty<V>(), x) == [];
  }
}
