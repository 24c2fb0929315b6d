/** Acyclicity of a directed graph. RGL's `acyclic?` is not part of this
    model; it is restated as peeling: repeatedly drop a vertex that no
    remaining vertex points to, and the graph is acyclic when every vertex
    can be dropped. */
module Acyclicity {
  import opened Graphs

  /** A closed directed walk of at least one step through the listed vertices. */
  predicate IsCycle<V(==)>(g: Graph<V>, vs: seq<V>, w: seq<V>)
  {
    |w| >= 2 && w[0] == w[|w| - 1] &&
    (forall i :: 0 <= i < |w| ==> w[i] in vs) &&
    (forall i :: 0 <= i < |w| - 1 ==> w[i + 1] in Adj(g, w[i]))
  }

  /** No listed vertex points to `v`. */
  predicate IsSource<V(==)>(g: Graph<V>, vs: seq<V>, v: V)
  {
    forall u :: u in vs ==> v !in Adj(g, u)
  }

  /** Index of the first source at or after `i`, or -1 when there is none. */
  function FirstSource<V(==)>(g: Graph<V>, vs: seq<V>, i: nat): (k: int)
    requires i <= |vs|
    ensures k == -1 || (i <= k < |vs| && IsSource(g, vs, vs[k]))
    ensures k == -1 ==> forall j :: i <= j < |vs| ==> !IsSource(g, vs, vs[j])
    decreases |vs| - i
  {
    if i == |vs| then -1
    else if IsSource(g, vs, vs[i]) then i
    else
      var k := FirstSource(g, vs, i + 1);
      assert k == -1 ==> forall j :: i <= j < |vs| ==> j == i || !IsSource(g, vs, vs[j]);
      k
  }

  function RemoveAt<V>(vs: seq<V>, k: nat): (r: seq<V>)
    requires k < |vs|
    ensures |r| == |vs| - 1
  {
    vs[..k] + vs[k + 1..]
  }

  /** Peeling succeeds on the listed vertices. */
  predicate AcyclicOn<V(==)>(g: Graph<V>, vs: seq<V>)
    decreases |vs|
  {
    if vs == [] then true
    else
      var k := FirstSource(g, vs, 0);
      k >= 0 && AcyclicOn(g, RemoveAt(vs, k))
  }

  predicate Acyclic<V(==)>(g: Graph<V>)
  {
    AcyclicOn(g, g.verts)
  }

  lemma RemoveAtKeeps<V>(vs: seq<V>, k: nat, x: V)
    requires k < |vs| && x in vs && x != vs[k]
    ensures x in RemoveAt(vs, k)
  {
    var m :| 0 <= m < |vs| && vs[m] == x;
    if m < k {
      assert RemoveAt(vs, k)[m] == x;
    } else {
      assert RemoveAt(vs, k)[m - 1] == x;
    }
  }

  /** A graph that passes the peeling check has no directed cycle. */
  lemma {:induction false} AcyclicHasNoCycle<V>(g: Graph<V>, vs: seq<V>, w: seq<V>)
    requires AcyclicOn(g, vs)
    ensures !IsCycle(g, vs, w)
    decreases |vs|
  {
    if IsCycle(g, vs, w) {
      assert w[0] in vs;
      var k := FirstSource(g, vs, 0);
      var v := vs[k];
      forall j | 0 <= j < |w| ensures w[j] != v {
        var p := if j > 0 then j - 1 else |w| - 2;
        assert w[p + 1] == w[j];
        assert w[p] in vs;
      }
      forall j | 0 <= j < |w| ensures w[j] in RemoveAt(vs, k) {
        RemoveAtKeeps(vs, k, w[j]);
      }
      AcyclicHasNoCycle(g, RemoveAt(vs, k), w);
    }
  }

  /** A walk that keeps to the listed vertices. */
  predicate IsWalk<V(==)>(g: Graph<V>, vs: seq<V>, w: seq<V>)
  {
    (forall i :: 0 <= i < |w| ==> w[i] in vs) &&
    (forall i :: 0 <= i < |w| - 1 ==> w[i + 1] in Adj(g, w[i]))
  }

  /** No listed vertex is a source. */
  predicate Sourceless<V(==)>(g: Graph<V>, vs: seq<V>)
  {
    forall x {:trigger IsSource(g, vs, x)} :: x in vs ==> !IsSource(g, vs, x)
  }

  /** When no listed vertex is a source, every walk can be extended
      backwards until it closes into a cycle. */
  lemma {:induction false} WalkBack<V>(g: Graph<V>, vs: seq<V>, w: seq<V>) returns (c: seq<V>)
    requires Sourceless(g, vs)
    requires w != [] && IsWalk(g, vs, w)
    ensures IsCycle(g, vs, c)
    decreases (set x | x in vs) - (set x | x in w)
  {
    assert w[0] in vs && !IsSource(g, vs, w[0]);
    var p :| p in vs && w[0] in Adj(g, p);
    var ext := [p] + w;
    assert IsWalk(g, vs, ext) by {
      forall i | 0 <= i < |ext| - 1 ensures ext[i + 1] in Adj(g, ext[i]) {
        if i > 0 {
          assert ext[i + 1] == w[i] && ext[i] == w[i - 1];
        }
      }
    }
    if j :| 0 <= j < |w| && w[j] == p {
      c := ext[..j + 2];
      assert c[|c| - 1] == w[j];
    } else {
      assert (set x | x in vs) - (set x | x in ext) < (set x | x in vs) - (set x | x in w) by {
        assert p !in (set x | x in vs) - (set x | x in ext);
        assert p in (set x | x in vs) - (set x | x in w);
      }
      c := WalkBack(g, vs, ext);
    }
  }

  /** A cycle through the vertices left after a removal is a cycle through
      all of them. */
  lemma CycleAfterRemoval<V>(g: Graph<V>, vs: seq<V>, k: nat, w: seq<V>)
    requires k < |vs| && IsCycle(g, RemoveAt(vs, k), w)
    ensures IsCycle(g, vs, w)
  {
    forall i | 0 <= i < |w| ensures w[i] in vs {
      assert w[i] in vs[..k] + vs[k + 1..];
    }
  }

  /** Listed vertices none of which is a source carry a cycle. */
  lemma SourcelessCycle<V>(g: Graph<V>, vs: seq<V>) returns (c: seq<V>)
    requires vs != [] && Sourceless(g, vs)
    ensures IsCycle(g, vs, c)
  {
    c := WalkBack(g, vs, [vs[0]]);
  }

  lemma NoFirstSource<V>(g: Graph<V>, vs: seq<V>)
    requires FirstSource(g, vs, 0) < 0
    ensures Sourceless(g, vs)
  {
    forall x {:trigger IsSource(g, vs, x)} | x in vs ensures !IsSource(g, vs, x) {
      var j :| 0 <= j < |vs| && vs[j] == x;
    }
  }

  /** Removing a vertex creates no cycle. */
  lemma NoCycleAfterRemoval<V>(g: Graph<V>, vs: seq<V>, k: nat)
    requires k < |vs| && forall w :: !IsCycle(g, vs, w)
    ensures forall w :: !IsCycle(g, RemoveAt(vs, k), w)
  {
    forall w ensures !IsCycle(g, RemoveAt(vs, k), w) {
      if IsCycle(g, RemoveAt(vs, k), w) {
        CycleAfterRemoval(g, vs, k, w);
      }
    }
  }

  /** A graph without a directed cycle passes the peeling check. */
  lemma {:induction false} NoCycleIsAcyclic<V>(g: Graph<V>, vs: seq<V>)
    requires forall w :: !IsCycle(g, vs, w)
    ensures AcyclicOn(g, vs)
    decreases |vs|
  {
    if vs != [] {
      var k := FirstSource(g, vs, 0);
      if k < 0 {
        NoFirstSource(g, vs);
        var c := SourcelessCycle(g, vs);
        assert false;
      }
      NoCycleAfterRemoval(g, vs, k);
      NoCycleIsAcyclic(g, RemoveAt(vs, k));
    }
  }

  /** Peeling succeeds exactly when the listed vertices carry no directed
      cycle. */
  lemma AcyclicMeaning<V>(g: Graph<V>, vs: seq<V>)
    ensures AcyclicOn(g, vs) <==> forall w :: !IsCycle(g, vs, w)
  {
    if AcyclicOn(g, vs) {
      forall w ensures !IsCycle(g, vs, w) {
        AcyclicHasNoCycle(g, vs, w);
      }
    } else if forall w :: !IsCycle(g, vs, w) {
      NoCycleIsAcyclic(g, vs);
    }
  }
}
