/** `GraphAlgorithms#non_transitive` (lib/glymour.rb:214-227): ordered triples
    `(u, v, w)` with `v` adjacent to `u` and `w` adjacent to `v` but `w` not
    adjacent to `u`. */
module OpenTriples {
  import opened Seqs
  import opened Graphs

  datatype Triple<V> = Triple(a: V, b: V, c: V)

  /** `[u, v, w]` for every `w` in `ws`, in order. */
  function TriplesAt<V>(u: V, v: V, ws: seq<V>): (r: seq<Triple<V>>)
    ensures |r| == |ws|
    ensures forall i :: 0 <= i < |ws| ==> r[i] == Triple(u, v, ws[i])
  {
    seq(|ws|, i requires 0 <= i < |ws| => Triple(u, v, ws[i]))
  }

  /** The triples pushed for vertex `u` while its neighbours `vs` are walked. */
  function TriplesFrom<V>(g: Graph<V>, u: V, vs: seq<V>): seq<Triple<V>>
  {
    if vs == [] then [] else TriplesFrom(g, u, vs[..|vs| - 1]) + TriplesAt(u, vs[|vs| - 1], Adj(g, vs[|vs| - 1]))
  }

  /** Every two-step walk `u, v, w` starting from the listed vertices, in
      vertex/adjacency order (the nested `each` loops). */
  function AllTriples<V>(g: Graph<V>, us: seq<V>): seq<Triple<V>>
  {
    if us == [] then [] else AllTriples(g, us[..|us| - 1]) + TriplesFrom(g, us[|us| - 1], Adj(g, us[|us| - 1]))
  }

  /** The `reject` test: the triple is open when `w` is not adjacent to `u`. */
  predicate IsOpen<V(==)>(g: Graph<V>, t: Triple<V>)
  {
    t.c !in Adj(g, t.a)
  }

  /** The list `non_transitive` returns. */
  function NonTransitiveOf<V(==,!new)>(g: Graph<V>): seq<Triple<V>>
  {
    Filter(AllTriples(g, g.verts), t => IsOpen(g, t))
  }

  lemma {:induction false} TriplesFromMembers<V>(g: Graph<V>, u: V, vs: seq<V>)
    ensures forall t :: t in TriplesFrom(g, u, vs) <==> t.a == u && t.b in vs && t.c in Adj(g, t.b)
  {
    if vs != [] {
      var v := vs[|vs| - 1];
      TriplesFromMembers(g, u, vs[..|vs| - 1]);
      forall t ensures t in TriplesFrom(g, u, vs) <==> t.a == u && t.b in vs && t.c in Adj(g, t.b) {
        assert t.b in vs <==> t.b in vs[..|vs| - 1] || t.b == v;
        if t.a == u && t.b == v && t.c in Adj(g, v) {
          var i :| 0 <= i < |Adj(g, v)| && Adj(g, v)[i] == t.c;
          assert TriplesAt(u, v, Adj(g, v))[i] == t;
        }
      }
    }
  }

  lemma {:induction false} AllTriplesMembers<V>(g: Graph<V>, us: seq<V>)
    ensures forall t :: t in AllTriples(g, us) <==> t.a in us && t.b in Adj(g, t.a) && t.c in Adj(g, t.b)
  {
    if us != [] {
      var u := us[|us| - 1];
      AllTriplesMembers(g, us[..|us| - 1]);
      TriplesFromMembers(g, u, Adj(g, u));
      forall t ensures t in AllTriples(g, us) <==> t.a in us && t.b in Adj(g, t.a) && t.c in Adj(g, t.b) {
        assert t.a in us <==> t.a in us[..|us| - 1] || t.a == u;
      }
    }
  }

  /** The result holds exactly the triples `(u, v, w)` with `u` a vertex,
      `v` in adj(u), `w` in adj(v) and `w` not in adj(u). Nothing excludes
      `w == u`: a vertex that is not its own neighbour yields `(u, v, u)`
      for every two-way adjacency `u`-`v`. */
  lemma NonTransitiveMembers<V(!new)>(g: Graph<V>)
    ensures forall t :: t in NonTransitiveOf(g) <==>
      t.a in g.verts && t.b in Adj(g, t.a) && t.c in Adj(g, t.b) && t.c !in Adj(g, t.a)
    ensures forall u, v :: u in g.verts && v in Adj(g, u) && u in Adj(g, v) && u !in Adj(g, u) ==>
      Triple(u, v, u) in NonTransitiveOf(g)
  {
    AllTriplesMembers(g, g.verts);
  }

  /** `non_transitive`: the nested loops pushing every triple, then `reject`. */
  method NonTransitive<V(==,!new)>(g: Graph<V>) returns (r: seq<Triple<V>>)
    ensures r == NonTransitiveOf(g)
  {
    var acc := PushAllTriples(g);
    r := RejectClosed(g, acc);
  }

  /** The outer loop of `non_transitive` (lines 217-223): pushes every
      two-step walk, vertex by vertex. */
  method PushAllTriples<V(==,!new)>(g: Graph<V>) returns (acc: seq<Triple<V>>)
    ensures acc == AllTriples(g, g.verts)
  {
    acc := [];
    for i := 0 to |g.verts|
      invariant acc == AllTriples(g, g.verts[..i])
    {
      acc := PushTriplesFrom(g, g.verts[i], acc);
      assert g.verts[..i + 1][..i] == g.verts[..i];
    }
    assert g.verts[..|g.verts|] == g.verts;
  }

  /** The body of the outer loop of `non_transitive` for one vertex `u`:
      pushes `[u, v, w]` for every `v` adjacent to `u` and `w` adjacent to `v`. */
  method PushTriplesFrom<V(==,!new)>(g: Graph<V>, u: V, acc0: seq<Triple<V>>) returns (acc: seq<Triple<V>>)
    ensures acc == acc0 + TriplesFrom(g, u, Adj(g, u))
  {
    acc := acc0;
    var vs := Adj(g, u);
    for j := 0 to |vs|
      invariant acc == acc0 + TriplesFrom(g, u, vs[..j])
    {
      TriplesFromPrefix(g, u, vs, j);
      acc := PushTriplesAt(u, vs[j], Adj(g, vs[j]), acc);
    }
    assert vs[..|vs|] == vs;
  }

  /** One more neighbour walked, in terms of the neighbours before it. */
  lemma TriplesFromPrefix<V>(g: Graph<V>, u: V, vs: seq<V>, j: nat)
    requires j < |vs|
    ensures TriplesFrom(g, u, vs[..j + 1]) == TriplesFrom(g, u, vs[..j]) + TriplesAt(u, vs[j], Adj(g, vs[j]))
  {
    assert vs[..j + 1][..j] == vs[..j];
  }

  /** The innermost loop of `non_transitive`: pushes `[u, v, w]` for every
      `w` in `ws`, in order. */
  method PushTriplesAt<V>(u: V, v: V, ws: seq<V>, acc0: seq<Triple<V>>) returns (acc: seq<Triple<V>>)
    ensures acc == acc0 + TriplesAt(u, v, ws)
  {
    acc := acc0;
    for k := 0 to |ws|
      invariant acc == acc0 + TriplesAt(u, v, ws[..k])
    {
      assert TriplesAt(u, v, ws[..k + 1]) == TriplesAt(u, v, ws[..k]) + [Triple(u, v, ws[k])];
      acc := acc + [Triple(u, v, ws[k])];
    }
    assert ws[..|ws|] == ws;
  }

  /** The `reject` pass of `non_transitive`: drops the triples whose ends are adjacent. */
  method RejectClosed<V(==,!new)>(g: Graph<V>, acc: seq<Triple<V>>) returns (r: seq<Triple<V>>)
    ensures r == Filter(acc, t => IsOpen(g, t))
  {
    r := [];
    for i := 0 to |acc|
      invariant r == Filter(acc[..i], t => IsOpen(g, t))
    {
      assert acc[..i + 1][..i] == acc[..i];
      if acc[i].c !in Adj(g, acc[i].a) {
        r := r + [acc[i]];
      }
    }
    assert acc[..|acc|] == acc;
  }
}
