/** The PC round, the collider orientation and the orientation enumerator of
    `LearningNet` (lib/glymour.rb:252-333), as functions of the graph, the
    edge list, the counter `n` and an independence oracle. The class in
    learning_net.dfy runs them step by step and is proved to compute them. */
module PC {
  import opened Seqs
  import opened Graphs
  import opened SimplePaths
  import opened OpenTriples
  import opened Combinatorics
  import opened Acyclicity

  /** The independence test `coindependent?(a, b, *cond)`: deterministic, and
      otherwise unknown (a chi-square test run in R in the source). */
  type Oracle<!V> = (V, V, seq<V>) -> bool

  /** `Aab & Uab`: the candidate conditioning vertices for `a`, `b`. */
  function Candidates<V(==,!new)>(g: Graph<V>, a: V, b: V): (r: seq<V>)
    ensures NoDup(r)
  {
    Intersect(AdjacentEither(g, a, b), VertsOnPathsOf(g, a, b))
  }

  /** A candidate is a neighbour of `a` or `b` that lies on a simple path
      from `a` to `b`. */
  lemma CandidatesMeaning<V(!new)>(g: Graph<V>, a: V, b: V)
    ensures forall v :: v in Candidates(g, a, b) <==>
      (v in Adj(g, a) || v in Adj(g, b)) && exists p :: SimplePath(g, p, a, b) && v in p
  {
    VertsOnPathsMembers(g, a, b);
  }

  /** `select` the subsets of size `n + 1`, then `reject` those holding an
      endpoint. */
  function SelectValid<V(==,!new)>(subsets: seq<seq<V>>, n: int, a: V, b: V): seq<seq<V>>
  {
    Filter(Filter(subsets, s => |s| == n + 1), s => a !in s && b !in s)
  }

  /** `valid_intersects`: the subsets of the candidates of size `n + 1`
      containing neither endpoint. */
  function ValidSubsets<V(==,!new)>(cands: seq<V>, n: int, a: V, b: V): seq<seq<V>>
  {
    SelectValid(PowerSet(cands), n, a, b)
  }

  /** The valid subsets are exactly the order-preserving sub-lists of the
      candidates with `n + 1` elements and neither endpoint. */
  lemma ValidSubsetsMeaning<V(!new)>(cands: seq<V>, n: int, a: V, b: V, s: seq<V>)
    ensures s in ValidSubsets(cands, n, a, b) <==> IsSubseq(s, cands) && |s| == n + 1 && a !in s && b !in s
  {
    PowerSetExactly(cands, s);
  }

  /** The test of one edge in `step`: more than `n` candidates, and the oracle
      reports independence given one of the valid subsets. */
  predicate Removable<V(==,!new)>(g: Graph<V>, e: Edge<V>, n: int, indep: Oracle<V>)
  {
    var cands := Candidates(g, e.source, e.target);
    |cands| > n && IndependentGiven(cands, n, e.source, e.target, indep)
  }

  /** The `any?` of `step`: the oracle reports `a` and `b` independent given
      one of the valid subsets of `cands`. */
  predicate IndependentGiven<V(==,!new)>(cands: seq<V>, n: int, a: V, b: V, indep: Oracle<V>)
  {
    exists s :: s in ValidSubsets(cands, n, a, b) && indep(a, b, s)
  }

  /** One PC round over the edge list `es` captured before the round: each
      edge is tested against the graph AS UPDATED by the earlier removals of
      the same round (`@net` is reassigned while the captured list is walked).
      Returns the new graph and whether any edge was removed. */
  function Round<V(==,!new)>(g: Graph<V>, es: seq<Edge<V>>, n: int, indep: Oracle<V>): (Graph<V>, bool)
  {
    if es == [] then (g, false)
    else
      var (h, any) := Round(g, es[..|es| - 1], n, indep);
      var e := es[|es| - 1];
      if Removable(h, e, n, indep) then (RemoveEdge(h, e), true) else (h, any)
  }

  /** Extending the edge prefix by one edge processes that edge. */
  lemma RoundPrefix<V(!new)>(g: Graph<V>, es: seq<Edge<V>>, i: nat, n: int, indep: Oracle<V>)
    requires i < |es|
    ensures var (h, any) := Round(g, es[..i], n, indep);
      Round(g, es[..i + 1], n, indep) == if Removable(h, es[i], n, indep) then (RemoveEdge(h, es[i]), true) else (h, any)
  {
    assert es[..i + 1][..i] == es[..i];
  }

  /** The stopping condition of `learn_structure`, seen after `step` has
      raised the counter to `n`: the round it ran at level `n - 1` removed
      nothing. */
  predicate Settled<V(==,!new)>(g: Graph<V>, n: int, indep: Oracle<V>)
  {
    !Round(g, Edges(g), n - 1, indep).1
  }

  /** A round keeps the vertex list, never adds an adjacency (monotone
      shrinkage), and changes nothing when it reports no removal. */
  lemma {:induction false} RoundShrinks<V(!new)>(g: Graph<V>, es: seq<Edge<V>>, n: int, indep: Oracle<V>)
    ensures Round(g, es, n, indep).0.verts == g.verts
    ensures forall x, u :: u in Adj(Round(g, es, n, indep).0, x) ==> u in Adj(g, x)
    ensures PairCount(Round(g, es, n, indep).0) <= PairCount(g)
    ensures !Round(g, es, n, indep).1 ==> Round(g, es, n, indep).0 == g
  {
    if es != [] {
      var (h, any) := Round(g, es[..|es| - 1], n, indep);
      RoundShrinks(g, es[..|es| - 1], n, indep);
      RemoveEdgeShrinks(h, es[|es| - 1]);
    }
  }

  /** A round that reports a removal strictly lowers the adjacency-pair count,
      provided its edges were real adjacencies of the graph it started from:
      the first removal of the round still finds its edge present. */
  lemma {:induction false} RoundProgress<V(!new)>(g: Graph<V>, es: seq<Edge<V>>, n: int, indep: Oracle<V>)
    requires forall e :: e in es ==> e.source in g.verts && e.target in Adj(g, e.source)
    ensures Round(g, es, n, indep).1 ==> PairCount(Round(g, es, n, indep).0) < PairCount(g)
  {
    if es != [] {
      var front := es[..|es| - 1];
      var e := es[|es| - 1];
      var (h, any) := Round(g, front, n, indep);
      assert forall f :: f in front ==> f in es;
      RoundProgress(g, front, n, indep);
      RoundShrinks(g, front, n, indep);
      RemoveEdgeShrinks(h, e);
    }
  }

  /** The facts `learn_structure` relies on about the round over the edge
      list of the graph itself. */
  lemma RoundOverEdges<V(!new)>(g: Graph<V>, n: int, indep: Oracle<V>)
    ensures Round(g, Edges(g), n, indep).0.verts == g.verts
    ensures forall x, u :: u in Adj(Round(g, Edges(g), n, indep).0, x) ==> u in Adj(g, x)
    ensures PairCount(Round(g, Edges(g), n, indep).0) <= PairCount(g)
    ensures Round(g, Edges(g), n, indep).1 ==> PairCount(Round(g, Edges(g), n, indep).0) < PairCount(g)
    ensures !Round(g, Edges(g), n, indep).1 ==> Round(g, Edges(g), n, indep).0 == g
  {
    RoundShrinks(g, Edges(g), n, indep);
    EdgesFacts(g);
    RoundProgress(g, Edges(g), n, indep);
  }

  /** The skeleton loop of `learn_structure` (`begin ... end while step`):
      rounds at levels `n`, `n + 1`, ... until one removes nothing. The result
      is the net in effect when `step` first returns false, with the level
      `step` has then raised `n` to. It terminates because every round that
      removes something lowers the adjacency-pair count. */
  function SkeletonOf<V(==,!new)>(g: Graph<V>, n: int, indep: Oracle<V>): (Graph<V>, int)
    decreases PairCount(g)
  {
    RoundOverEdges(g, n, indep);
    var (h, any) := Round(g, Edges(g), n, indep);
    if any then SkeletonOf(h, n + 1, indep) else (g, n + 1)
  }

  /** The skeleton is settled at the level it ends on, which is above the
      starting one, and it only lost adjacencies of the starting net. */
  lemma {:induction false} SkeletonFacts<V(!new)>(g: Graph<V>, n: int, indep: Oracle<V>)
    ensures Settled(SkeletonOf(g, n, indep).0, SkeletonOf(g, n, indep).1, indep)
    ensures SkeletonOf(g, n, indep).1 > n
    ensures SkeletonOf(g, n, indep).0.verts == g.verts
    ensures forall x, u :: u in Adj(SkeletonOf(g, n, indep).0, x) ==> u in Adj(g, x)
    ensures PairCount(SkeletonOf(g, n, indep).0) <= PairCount(g)
    decreases PairCount(g)
  {
    RoundOverEdges(g, n, indep);
    var (h, any) := Round(g, Edges(g), n, indep);
    if any {
      SkeletonContinues(g, n, indep);
      SkeletonFacts(h, n + 1, indep);
    } else {
      SkeletonStops(g, n, indep);
    }
  }

  /** The skeleton loop stops after a round that removes nothing. */
  lemma SkeletonStops<V(!new)>(g: Graph<V>, n: int, indep: Oracle<V>)
    requires !Round(g, Edges(g), n, indep).1
    ensures SkeletonOf(g, n, indep) == (g, n + 1)
  {
  }

  /** After a round that removes something, the loop goes on from its result. */
  lemma SkeletonContinues<V(!new)>(g: Graph<V>, n: int, indep: Oracle<V>)
    requires Round(g, Edges(g), n, indep).1
    ensures SkeletonOf(g, n, indep) == SkeletonOf(Round(g, Edges(g), n, indep).0, n + 1, indep)
  {
  }

  /** A round in which the oracle never reports independence removes nothing. */
  lemma {:induction false} RoundWithoutIndependence<V(!new)>(g: Graph<V>, es: seq<Edge<V>>, n: int, indep: Oracle<V>)
    requires forall a, b, s :: !indep(a, b, s)
    ensures Round(g, es, n, indep) == (g, false)
  {
    if es != [] {
      RoundWithoutIndependence(g, es[..|es| - 1], n, indep);
      assert !Removable(g, es[|es| - 1], n, indep);
    }
  }

  /** With an oracle that never reports independence the skeleton is the
      net it starts from, one level up: `learn_structure` returns the net
      unchanged. */
  lemma SkeletonWithoutIndependence<V(!new)>(g: Graph<V>, n: int, indep: Oracle<V>)
    requires forall a, b, s :: !indep(a, b, s)
    ensures SkeletonOf(g, n, indep) == (g, n + 1)
  {
    RoundWithoutIndependence(g, Edges(g), n, indep);
  }

  /** An adjacency disappears in a round only through an edge of the round
      sharing that endpoint, tested on the graph current at its turn, with
      more than `n` candidates and an oracle answer "independent" for a
      valid subset. */
  lemma {:induction false} RoundRemovesOnlyTested<V(!new)>(g: Graph<V>, es: seq<Edge<V>>, n: int, indep: Oracle<V>, x: V, u: V)
    requires u in Adj(g, x) && u !in Adj(Round(g, es, n, indep).0, x)
    ensures exists i :: (0 <= i < |es| && (u == es[i].source || u == es[i].target) &&
                         Removable(Round(g, es[..i], n, indep).0, es[i], n, indep))
  {
    var k := |es| - 1;
    var front := es[..k];
    var h := Round(g, front, n, indep).0;
    RoundLast(g, es, n, indep);
    if u in Adj(h, x) {
      assert Removable(h, es[k], n, indep);
      assert u == es[k].source || u == es[k].target;
      assert es[..k] == front;
    } else {
      RoundRemovesOnlyTested(g, front, n, indep, x, u);
      PrefixOfPrefix(es, k);
      var i :| 0 <= i < |front| && (u == front[i].source || u == front[i].target) &&
        Removable(Round(g, front[..i], n, indep).0, front[i], n, indep);
    }
  }

  lemma PrefixOfPrefix<T>(s: seq<T>, k: nat)
    requires k <= |s|
    ensures forall i :: 0 <= i < k ==> s[..k][..i] == s[..i] && s[..k][i] == s[i]
  {
  }

  /** The last edge of a round acts on the graph left by the others. */
  lemma RoundLast<V(!new)>(g: Graph<V>, es: seq<Edge<V>>, n: int, indep: Oracle<V>)
    requires es != []
    ensures var h := Round(g, es[..|es| - 1], n, indep).0;
      Round(g, es, n, indep).0 == if Removable(h, es[|es| - 1], n, indep) then RemoveEdge(h, es[|es| - 1]) else h
  {
  }

  /** `directed_edges[x] << y` with set-union semantics. */
  function AddDirection<V(!new)>(d: map<V, set<V>>, x: V, y: V): (r: map<V, set<V>>)
    ensures forall z :: Targets(r, z) == if z == x then Targets(d, x) + {y} else Targets(d, z)
  {
    d[x := Targets(d, x) + {y}]
  }

  /** The orientation test at lib/glymour.rb:295-297, with the code's
      polarity: orient `a -> b <- c` when the oracle says "independent" for
      EVERY candidate subset that contains `b`. The classical collider rule
      asks the opposite (that `b` is in no separating set). */
  predicate OrientsCollider<V(==,!new)>(g: Graph<V>, t: Triple<V>, indep: Oracle<V>)
  {
    forall s :: s in WithMember(PowerSet(Candidates(g, t.a, t.c)), t.b) ==> indep(t.a, t.c, s)
  }

  /** `select { |s| s.include? b }`. */
  function WithMember<V(==,!new)>(subsets: seq<seq<V>>, b: V): seq<seq<V>>
  {
    Filter(subsets, s => b in s)
  }

  /** The orientation pass of `learn_structure` over the triples `ts`. */
  function Orient<V(==,!new)>(g: Graph<V>, ts: seq<Triple<V>>, d: map<V, set<V>>, indep: Oracle<V>): map<V, set<V>>
  {
    if ts == [] then d
    else
      var d1 := Orient(g, ts[..|ts| - 1], d, indep);
      var t := ts[|ts| - 1];
      if OrientsCollider(g, t, indep) then AddDirection(AddDirection(d1, t.a, t.b), t.c, t.b) else d1
  }

  /** Extending the triple prefix by one triple processes that triple. */
  lemma OrientPrefix<V(!new)>(g: Graph<V>, ts: seq<Triple<V>>, i: nat, d: map<V, set<V>>, indep: Oracle<V>)
    requires i < |ts|
    ensures var d1 := Orient(g, ts[..i], d, indep);
      Orient(g, ts[..i + 1], d, indep) ==
        if OrientsCollider(g, ts[i], indep) then AddDirection(AddDirection(d1, ts[i].a, ts[i].b), ts[i].c, ts[i].b) else d1
  {
    assert ts[..i + 1][..i] == ts[..i];
  }

  /** Orientation only adds directions. */
  lemma {:induction false} OrientGrows<V(!new)>(g: Graph<V>, ts: seq<Triple<V>>, d: map<V, set<V>>, indep: Oracle<V>)
    ensures forall x :: Targets(d, x) <= Targets(Orient(g, ts, d, indep), x)
  {
    if ts != [] {
      OrientGrows(g, ts[..|ts| - 1], d, indep);
      OrientLastStep(g, ts, d, indep);
    }
  }

  /** Every direction the orientation pass adds points into the middle
      vertex of a triple from one of its ends, for a triple that passed the
      test. */
  lemma {:induction false} OrientMonotone<V(!new)>(g: Graph<V>, ts: seq<Triple<V>>, d: map<V, set<V>>, indep: Oracle<V>)
    ensures forall x :: Targets(d, x) <= Targets(Orient(g, ts, d, indep), x)
    ensures forall x, y :: y in Targets(Orient(g, ts, d, indep), x) && y !in Targets(d, x) ==>
      exists t :: t in ts && OrientsCollider(g, t, indep) && y == t.b && (x == t.a || x == t.c)
  {
    OrientGrows(g, ts, d, indep);
    if ts != [] {
      var front := ts[..|ts| - 1];
      var last := ts[|ts| - 1];
      var d1 := Orient(g, front, d, indep);
      OrientMonotone(g, front, d, indep);
      OrientLastStep(g, ts, d, indep);
      forall x, y | y in Targets(Orient(g, ts, d, indep), x) && y !in Targets(d, x)
        ensures exists t :: t in ts && OrientsCollider(g, t, indep) && y == t.b && (x == t.a || x == t.c)
      {
        if y in Targets(d1, x) {
          var t' :| t' in front && OrientsCollider(g, t', indep) && y == t'.b && (x == t'.a || x == t'.c);
          assert t' in ts;
        } else {
          assert last in ts;
        }
      }
    }
  }

  /** Re-running the orientation pass adds nothing: directions accumulate
      with set-union semantics. */
  lemma {:induction false} OrientIdempotent<V(!new)>(g: Graph<V>, ts: seq<Triple<V>>, d: map<V, set<V>>, indep: Oracle<V>)
    ensures forall x :: Targets(Orient(g, ts, Orient(g, ts, d, indep), indep), x) == Targets(Orient(g, ts, d, indep), x)
  {
    var once := Orient(g, ts, d, indep);
    OrientMonotone(g, ts, once, indep);
    forall x ensures Targets(Orient(g, ts, once, indep), x) == Targets(once, x) {
      forall y | y in Targets(Orient(g, ts, once, indep), x) ensures y in Targets(once, x) {
        if y !in Targets(once, x) {
          var t :| t in ts && OrientsCollider(g, t, indep) && y == t.b && (x == t.a || x == t.c);
          OrientCovers(g, ts, d, indep, t);
        }
      }
    }
  }

  /** Every triple that passes the test has both its directions recorded. */
  lemma {:induction false} OrientCovers<V(!new)>(g: Graph<V>, ts: seq<Triple<V>>, d: map<V, set<V>>, indep: Oracle<V>, t: Triple<V>)
    requires t in ts && OrientsCollider(g, t, indep)
    ensures t.b in Targets(Orient(g, ts, d, indep), t.a) && t.b in Targets(Orient(g, ts, d, indep), t.c)
  {
    var front := ts[..|ts| - 1];
    OrientMonotone(g, ts[|ts| - 1..], Orient(g, front, d, indep), indep);
    if t != ts[|ts| - 1] {
      assert t in front;
      OrientCovers(g, front, d, indep, t);
      OrientLastStep(g, ts, d, indep);
    }
  }

  /** The last triple of the pass only adds its own two directions. */
  lemma OrientLastStep<V(!new)>(g: Graph<V>, ts: seq<Triple<V>>, d: map<V, set<V>>, indep: Oracle<V>)
    requires ts != []
    ensures forall x :: Targets(Orient(g, ts[..|ts| - 1], d, indep), x) <= Targets(Orient(g, ts, d, indep), x)
    ensures forall x, y :: y in Targets(Orient(g, ts, d, indep), x) && y !in Targets(Orient(g, ts[..|ts| - 1], d, indep), x) ==>
      OrientsCollider(g, ts[|ts| - 1], indep) && y == ts[|ts| - 1].b && (x == ts[|ts| - 1].a || x == ts[|ts| - 1].c)
  {
  }

  /** The test is vacuously passed when `b` is not a candidate for `a`, `c`:
      there is then no subset containing `b` to ask the oracle about. */
  lemma OrientsWithoutCandidate<V(!new)>(g: Graph<V>, t: Triple<V>, indep: Oracle<V>)
    requires t.b !in Candidates(g, t.a, t.c)
    ensures OrientsCollider(g, t, indep)
  {
    forall s | s in WithMember(PowerSet(Candidates(g, t.a, t.c)), t.b) ensures false {
      PowerSetBounds(Candidates(g, t.a, t.c));
    }
  }

  /** A triple `(u, v, u)`, which `non_transitive` lets through, is always
      oriented when `u` is not its own neighbour: "Uuu" is `[u]`, `u` is no
      candidate, and no subset is ever tested. */
  lemma DegenerateTripleOriented<V(!new)>(g: Graph<V>, u: V, v: V, indep: Oracle<V>)
    requires u !in Adj(g, u)
    ensures OrientsCollider(g, Triple(u, v, u), indep)
  {
    VertsOnPathsSelf(g, u);
    assert forall x :: x !in Candidates(g, u, u);
    OrientsWithoutCandidate(g, Triple(u, v, u), indep);
  }

  /** The direction map built for one subset of the edges: every edge not
      fixed is oriented `source -> target` when it is in `subset`, and
      `target -> source` otherwise, on top of the directions in `d`. */
  function Orientation<V(==,!new)>(d: map<V, set<V>>, es: seq<Edge<V>>, subset: seq<Edge<V>>): map<V, set<V>>
  {
    if es == [] then d
    else
      var o := Orientation(d, es[..|es| - 1], subset);
      var e := es[|es| - 1];
      if e in subset then AddDirection(o, e.source, e.target) else AddDirection(o, e.target, e.source)
  }

  /** The orientation keeps every direction of `d`, orients every edge as
      its membership in `subset` says, and adds nothing else. */
  lemma OrientationMeaning<V(!new)>(d: map<V, set<V>>, es: seq<Edge<V>>, subset: seq<Edge<V>>)
    ensures forall x :: Targets(d, x) <= Targets(Orientation(d, es, subset), x)
    ensures forall e :: e in es && e in subset ==> e.target in Targets(Orientation(d, es, subset), e.source)
    ensures forall e :: e in es && e !in subset ==> e.source in Targets(Orientation(d, es, subset), e.target)
    ensures forall x, y :: y in Targets(Orientation(d, es, subset), x) ==>
      y in Targets(d, x) ||
      exists e :: (e in es &&
                   ((e in subset && x == e.source && y == e.target) || (e !in subset && x == e.target && y == e.source)))
  {
    OrientationGrows(d, es, subset);
    OrientationCovers(d, es, subset);
    OrientationSound(d, es, subset);
  }

  lemma {:induction false} OrientationGrows<V(!new)>(d: map<V, set<V>>, es: seq<Edge<V>>, subset: seq<Edge<V>>)
    ensures forall x :: Targets(d, x) <= Targets(Orientation(d, es, subset), x)
  {
    if es != [] {
      OrientationGrows(d, es[..|es| - 1], subset);
    }
  }

  lemma {:induction false} OrientationCovers<V(!new)>(d: map<V, set<V>>, es: seq<Edge<V>>, subset: seq<Edge<V>>)
    ensures forall e :: e in es && e in subset ==> e.target in Targets(Orientation(d, es, subset), e.source)
    ensures forall e :: e in es && e !in subset ==> e.source in Targets(Orientation(d, es, subset), e.target)
  {
    if es != [] {
      var front := es[..|es| - 1];
      OrientationCovers(d, front, subset);
      OrientationGrows(Orientation(d, front, subset), [es[|es| - 1]], subset);
      assert forall f :: f in es <==> f in front || f == es[|es| - 1];
    }
  }

  lemma {:induction false} OrientationSound<V(!new)>(d: map<V, set<V>>, es: seq<Edge<V>>, subset: seq<Edge<V>>)
    ensures forall x, y :: y in Targets(Orientation(d, es, subset), x) ==>
      y in Targets(d, x) ||
      exists e :: (e in es &&
                   ((e in subset && x == e.source && y == e.target) || (e !in subset && x == e.target && y == e.source)))
  {
    if es != [] {
      var front := es[..|es| - 1];
      var e := es[|es| - 1];
      OrientationSound(d, front, subset);
      forall x, y | y in Targets(Orientation(d, es, subset), x)
        ensures y in Targets(d, x) ||
                exists f :: (f in es &&
                             ((f in subset && x == f.source && y == f.target) || (f !in subset && x == f.target && y == f.source)))
      {
        if y in Targets(Orientation(d, front, subset), x) && y !in Targets(d, x) {
          var f :| f in front &&
            ((f in subset && x == f.source && y == f.target) || (f !in subset && x == f.target && y == f.source));
          assert f in es;
        } else if y !in Targets(d, x) {
          assert e in es;
        }
      }
    }
  }

  /** The graphs `compatible_orientations` keeps for the listed subsets. */
  function CompatFrom<V(==,!new)>(g: Graph<V>, d: map<V, set<V>>, es: seq<Edge<V>>, subsets: seq<seq<Edge<V>>>): seq<Graph<V>>
  {
    if subsets == [] then []
    else
      var h := MakeDirected(g.verts, Orientation(d, es, subsets[|subsets| - 1]));
      CompatFrom(g, d, es, subsets[..|subsets| - 1]) + if Acyclic(h) then [h] else []
  }

  /** Extending the subset prefix by one subset considers that subset. */
  lemma CompatPrefix<V(!new)>(g: Graph<V>, d: map<V, set<V>>, es: seq<Edge<V>>, subsets: seq<seq<Edge<V>>>, i: nat)
    requires i < |subsets|
    ensures var h := MakeDirected(g.verts, Orientation(d, es, subsets[i]));
      CompatFrom(g, d, es, subsets[..i + 1]) == CompatFrom(g, d, es, subsets[..i]) + if Acyclic(h) then [h] else []
  {
    assert subsets[..i + 1][..i] == subsets[..i];
  }

  /** `compatible_orientations` on the graph `g` with fixed directions `d`. */
  function CompatibleOf<V(==,!new)>(g: Graph<V>, d: map<V, set<V>>): seq<Graph<V>>
  {
    CompatFrom(g, d, Edges(g), PowerSet(Edges(g)))
  }

  lemma {:induction false} CompatFromMeaning<V(!new)>(g: Graph<V>, d: map<V, set<V>>, es: seq<Edge<V>>, subsets: seq<seq<Edge<V>>>)
    ensures |CompatFrom(g, d, es, subsets)| <= |subsets|
    ensures forall h :: h in CompatFrom(g, d, es, subsets) ==>
      Acyclic(h) && exists s :: s in subsets && h == MakeDirected(g.verts, Orientation(d, es, s))
  {
    if subsets != [] {
      var front := subsets[..|subsets| - 1];
      CompatFromMeaning(g, d, es, front);
      forall h | h in CompatFrom(g, d, es, subsets)
        ensures Acyclic(h) && exists s :: s in subsets && h == MakeDirected(g.verts, Orientation(d, es, s))
      {
        if h in CompatFrom(g, d, es, front) {
          var s :| s in front && h == MakeDirected(g.verts, Orientation(d, es, s));
          assert s in subsets;
        } else {
          assert subsets[|subsets| - 1] in subsets;
        }
      }
    }
  }

  /** Every listed subset whose directed graph is acyclic has that graph
      kept. */
  lemma {:induction false} CompatFromComplete<V(!new)>(g: Graph<V>, d: map<V, set<V>>, es: seq<Edge<V>>, subsets: seq<seq<Edge<V>>>, s: seq<Edge<V>>)
    requires s in subsets && Acyclic(MakeDirected(g.verts, Orientation(d, es, s)))
    ensures MakeDirected(g.verts, Orientation(d, es, s)) in CompatFrom(g, d, es, subsets)
  {
    var front := subsets[..|subsets| - 1];
    var last := MakeDirected(g.verts, Orientation(d, es, subsets[|subsets| - 1]));
    assert CompatFrom(g, d, es, subsets) == CompatFrom(g, d, es, front) + if Acyclic(last) then [last] else [];
    if s != subsets[|subsets| - 1] {
      assert s in front by {
        assert subsets == front + [subsets[|subsets| - 1]];
      }
      CompatFromComplete(g, d, es, front, s);
    }
  }

  /** Conversely, every orientation of a subset of the edges that has no
      directed cycle is among the returned graphs. */
  lemma CompatibleComplete<V(!new)>(g: Graph<V>, d: map<V, set<V>>, s: seq<Edge<V>>)
    requires IsSubseq(s, Edges(g))
    requires forall w :: !IsCycle(MakeDirected(g.verts, Orientation(d, Edges(g), s)), g.verts, w)
    ensures MakeDirected(g.verts, Orientation(d, Edges(g), s)) in CompatibleOf(g, d)
  {
    var h := MakeDirected(g.verts, Orientation(d, Edges(g), s));
    PowerSetExactly(Edges(g), s);
    NoCycleIsAcyclic(h, h.verts);
    CompatFromComplete(g, d, Edges(g), PowerSet(Edges(g)), s);
  }

  /** Every returned graph is acyclic, there are at most 2^|edges| of them,
      and each one orients every skeleton edge one way or the other while
      keeping the fixed directions of `d`. */
  lemma CompatibleMeaning<V(!new)>(g: Graph<V>, d: map<V, set<V>>)
    ensures |CompatibleOf(g, d)| <= Pow2(|Edges(g)|)
    ensures forall h, w :: h in CompatibleOf(g, d) ==> !IsCycle(h, h.verts, w)
    ensures forall h :: h in CompatibleOf(g, d) ==>
      (h.verts == g.verts && exists s :: s in PowerSet(Edges(g)) && h == MakeDirected(g.verts, Orientation(d, Edges(g), s)))
    ensures forall s :: IsSubseq(s, Edges(g)) && (forall w :: !IsCycle(MakeDirected(g.verts, Orientation(d, Edges(g), s)), g.verts, w)) ==>
      MakeDirected(g.verts, Orientation(d, Edges(g), s)) in CompatibleOf(g, d)
  {
    forall s | IsSubseq(s, Edges(g)) && (forall w :: !IsCycle(MakeDirected(g.verts, Orientation(d, Edges(g), s)), g.verts, w))
      ensures MakeDirected(g.verts, Orientation(d, Edges(g), s)) in CompatibleOf(g, d)
    {
      CompatibleComplete(g, d, s);
    }
    CompatFromMeaning(g, d, Edges(g), PowerSet(Edges(g)));
    PowerSetSize(Edges(g));
    forall h, w | h in CompatibleOf(g, d) ensures !IsCycle(h, h.verts, w) {
      AcyclicHasNoCycle(h, h.verts, w);
    }
  }

  /** In every returned graph each skeleton edge whose ends are both
      vertices points one way or the other: no returned graph loses an edge
      of the net. */
  lemma CompatibleOrientsEveryEdge<V(!new)>(g: Graph<V>, d: map<V, set<V>>, h: Graph<V>, e: Edge<V>)
    requires h in CompatibleOf(g, d) && e in Edges(g) && e.target in g.verts
    ensures e.target in Adj(h, e.source) || e.source in Adj(h, e.target)
  {
    CompatFromMeaning(g, d, Edges(g), PowerSet(Edges(g)));
    var s :| s in PowerSet(Edges(g)) && h == MakeDirected(g.verts, Orientation(d, Edges(g), s));
    var o := Orientation(d, Edges(g), s);
    assert e.source in g.verts by {
      EdgesFacts(g);
    }
    OrientsEdge(d, Edges(g), s, e);
    if e in s {
      DirectedAdj(g.verts, o, e.source, e.target);
    } else {
      DirectedAdj(g.verts, o, e.target, e.source);
    }
  }

  /** A direction between two vertices is an adjacency of the directed graph. */
  lemma DirectedAdj<V(!new)>(vs: seq<V>, d: map<V, set<V>>, x: V, y: V)
    requires x in vs && y in vs && y in Targets(d, x)
    ensures y in Adj(MakeDirected(vs, d), x)
  {
  }

  /** The orientation for `subset` points the listed edge `e` one way. */
  lemma OrientsEdge<V(!new)>(d: map<V, set<V>>, es: seq<Edge<V>>, subset: seq<Edge<V>>, e: Edge<V>)
    requires e in es
    ensures e in subset ==> e.target in Targets(Orientation(d, es, subset), e.source)
    ensures e !in subset ==> e.source in Targets(Orientation(d, es, subset), e.target)
  {
    OrientationMeaning(d, es, subset);
  }
}
