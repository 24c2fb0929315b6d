/** `GraphAlgorithms#verts_on_paths` ("Uab", lib/glymour.rb:199-210): a
    depth-first enumeration of simple paths that follows the stored adjacency
    lists and appends every path that reaches the target to a shared
    accumulator `paths`. */
module SimplePaths {
  import opened Seqs
  import opened Graphs

  function Elems<V>(s: seq<V>): set<V>
  {
    set x | x in s
  }

  /** The paths the search records from `c`, having walked `pre` so far:
      the target ends a path; a vertex already on the path is not expanded;
      otherwise every neighbour is explored in adjacency order. Expansion only
      happens at a vertex with an adjacency entry that is not yet on the path,
      so the entries not yet on the path shrink: the search terminates on
      cyclic graphs. */
  function Paths<V(!new)>(g: Graph<V>, c: V, t: V, pre: seq<V>): seq<seq<V>>
    decreases g.adj.Keys - Elems(pre), 0
  {
    if c == t then [pre + [c]]
    else if c in pre || c !in g.adj then []
    else
      assert Elems(pre + [c]) == Elems(pre) + {c};
      PathsVia(g, g.adj[c], t, pre + [c])
  }

  /** The paths recorded while exploring the neighbours `vs`, in order. */
  function PathsVia<V(!new)>(g: Graph<V>, vs: seq<V>, t: V, pre: seq<V>): seq<seq<V>>
    decreases g.adj.Keys - Elems(pre), |vs| + 1
  {
    if vs == [] then [] else PathsVia(g, vs[..|vs| - 1], t, pre) + Paths(g, vs[|vs| - 1], t, pre)
  }

  /** Consecutive vertices are adjacent (following the stored lists). */
  predicate IsWalk<V(==)>(g: Graph<V>, w: seq<V>)
  {
    forall i :: 0 <= i < |w| - 1 ==> w[i + 1] in Adj(g, w[i])
  }

  /** A simple path from `s` to `t` along adjacency lists. */
  predicate SimplePath<V(==)>(g: Graph<V>, p: seq<V>, s: V, t: V)
  {
    |p| >= 1 && p[0] == s && p[|p| - 1] == t && NoDup(p) && IsWalk(g, p)
  }

  /** `verts_on_paths(s, t)`: `paths.flatten.uniq`. */
  function VertsOnPathsOf<V(!new)>(g: Graph<V>, s: V, t: V): seq<V>
  {
    Uniq(Flatten(Paths(g, s, t, [])))
  }

  lemma {:induction false} PathsViaMembers<V(!new)>(g: Graph<V>, vs: seq<V>, t: V, pre: seq<V>, q: seq<V>)
    ensures q in PathsVia(g, vs, t, pre) <==> exists i :: 0 <= i < |vs| && q in Paths(g, vs[i], t, pre)
  {
    if vs != [] {
      var front := vs[..|vs| - 1];
      PathsViaMembers(g, front, t, pre, q);
      if exists i :: 0 <= i < |vs| && q in Paths(g, vs[i], t, pre) {
        var i :| 0 <= i < |vs| && q in Paths(g, vs[i], t, pre);
        if i < |front| {
          assert front[i] == vs[i];
        }
      }
      if exists i :: 0 <= i < |front| && q in Paths(g, front[i], t, pre) {
        var i :| 0 <= i < |front| && q in Paths(g, front[i], t, pre);
        assert vs[i] == front[i];
      }
    }
  }

  /** Every recorded path extends `pre` by a walk from `c` that ends at `t`,
      and repeats no vertex. */
  lemma {:induction false} PathsSound<V(!new)>(g: Graph<V>, c: V, t: V, pre: seq<V>, q: seq<V>)
    requires NoDup(pre) && t !in pre
    requires q in Paths(g, c, t, pre)
    ensures |q| > |pre| && q[..|pre|] == pre && q[|pre|] == c && q[|q| - 1] == t
    ensures NoDup(q) && IsWalk(g, q[|pre|..])
    decreases g.adj.Keys - Elems(pre)
  {
    if c == t {
      assert q == pre + [c];
    } else {
      var pre' := pre + [c];
      PathsViaMembers(g, g.adj[c], t, pre', q);
      var i :| 0 <= i < |g.adj[c]| && q in Paths(g, g.adj[c][i], t, pre');
      var v := g.adj[c][i];
      assert c in g.adj.Keys - Elems(pre);
      assert Elems(pre') == Elems(pre) + {c};
      PathsSound(g, v, t, pre', q);
      assert q[..|pre|] == q[..|pre'|][..|pre|];
      assert q[|pre|..] == [c] + q[|pre'|..];
      forall j | 0 <= j < |q[|pre|..]| - 1 ensures q[|pre|..][j + 1] in Adj(g, q[|pre|..][j]) {
        if j > 0 {
          assert q[|pre|..][j] == q[|pre'|..][j - 1];
          assert q[|pre|..][j + 1] == q[|pre'|..][j];
        }
      }
    }
  }

  /** Conversely, every such extension is recorded. */
  lemma {:induction false} PathsComplete<V(!new)>(g: Graph<V>, c: V, t: V, pre: seq<V>, q: seq<V>)
    requires NoDup(pre) && t !in pre
    requires |q| > |pre| && q[..|pre|] == pre && q[|pre|] == c && q[|q| - 1] == t
    requires NoDup(q) && IsWalk(g, q[|pre|..])
    ensures q in Paths(g, c, t, pre)
    decreases g.adj.Keys - Elems(pre)
  {
    if c == t {
      assert |q| == |pre| + 1;
      assert q == pre + [c];
    } else {
      assert q[|pre|..][0] == c;
      assert c !in pre;
      assert |q| > |pre| + 1;
      var v := q[|pre| + 1];
      assert q[|pre|..][1] == v;
      assert v in Adj(g, c);
      var pre' := pre + [c];
      assert q[..|pre'|] == pre';
      assert q[|pre'|..] == q[|pre|..][1..];
      assert c in g.adj.Keys - Elems(pre);
      assert Elems(pre') == Elems(pre) + {c};
      PathsComplete(g, v, t, pre', q);
      var i :| 0 <= i < |g.adj[c]| && g.adj[c][i] == v;
      PathsViaMembers(g, g.adj[c], t, pre', q);
    }
  }

  /** The recorded paths are exactly the simple paths from `s` to `t`. */
  lemma PathsAreSimplePaths<V(!new)>(g: Graph<V>, s: V, t: V, p: seq<V>)
    ensures p in Paths(g, s, t, []) <==> SimplePath(g, p, s, t)
  {
    if p in Paths(g, s, t, []) {
      PathsSound(g, s, t, [], p);
      assert p[0..] == p;
    }
    if SimplePath(g, p, s, t) {
      assert p[0..] == p;
      PathsComplete(g, s, t, [], p);
    }
  }

  /** "Uab": the result repeats no vertex and holds exactly the vertices that
      lie on some simple path from `s` to `t`. */
  lemma VertsOnPathsMembers<V(!new)>(g: Graph<V>, s: V, t: V)
    ensures NoDup(VertsOnPathsOf(g, s, t))
    ensures forall v :: v in VertsOnPathsOf(g, s, t) <==> exists p :: SimplePath(g, p, s, t) && v in p
  {
    var ps := Paths(g, s, t, []);
    forall v ensures v in VertsOnPathsOf(g, s, t) <==> exists p :: SimplePath(g, p, s, t) && v in p {
      if v in VertsOnPathsOf(g, s, t) {
        var i :| 0 <= i < |ps| && v in ps[i];
        PathsAreSimplePaths(g, s, t, ps[i]);
      }
      if exists p :: SimplePath(g, p, s, t) && v in p {
        var p :| SimplePath(g, p, s, t) && v in p;
        PathsAreSimplePaths(g, s, t, p);
        var i :| 0 <= i < |ps| && ps[i] == p;
      }
    }
  }

  /** From a vertex to itself the search records just `[t]`. */
  lemma VertsOnPathsSelf<V(!new)>(g: Graph<V>, t: V)
    ensures VertsOnPathsOf(g, t, t) == [t]
  {
    var ps := Paths(g, t, t, []);
    assert [] + [t] == [t];
    assert ps == [[t]];
    assert Flatten(ps) == [t];
    UniqOfNoDup([t]);
  }

  /** The result is empty exactly when `t` cannot be reached from `s` by a
      simple path. */
  lemma VertsOnPathsEmpty<V(!new)>(g: Graph<V>, s: V, t: V)
    ensures VertsOnPathsOf(g, s, t) == [] <==> forall p :: !SimplePath(g, p, s, t)
  {
    VertsOnPathsMembers(g, s, t);
    var r := VertsOnPathsOf(g, s, t);
    if exists p :: SimplePath(g, p, s, t) {
      var p :| SimplePath(g, p, s, t);
      assert p[0] in p;
      assert p[0] in r;
    }
    if r != [] {
      assert r[0] in r;
    }
  }

  /** The shared accumulator `paths` of the Ruby search. */
  class PathCollector<V(==,!new)> {
    var paths: seq<seq<V>>

    constructor ()
      ensures paths == []
    {
      paths := [];
    }

    /** One call of `verts_on_paths(c, t, pre, paths)`: appends the paths found
        below `c` to the accumulator. A vertex already on the path makes every
        iteration of the neighbour loop skip its recursive call, so nothing
        is appended; the model then leaves the loop out. */
    method Visit(g: Graph<V>, c: V, t: V, pre: seq<V>)
      modifies this
      ensures paths == old(paths) + Paths(g, c, t, pre)
      decreases g.adj.Keys - Elems(pre), 0
    {
      if c == t {
        paths := paths + [pre + [c]];
      } else if c !in pre && c in g.adj {
        assert Elems(pre + [c]) == Elems(pre) + {c};
        VisitAll(g, g.adj[c], t, pre + [c]);
      }
    }

    /** The neighbour loop of `verts_on_paths`: one recursive call per
        neighbour in `vs`, in order, each appending to the accumulator. */
    method VisitAll(g: Graph<V>, vs: seq<V>, t: V, pre: seq<V>)
      modifies this
      ensures paths == old(paths) + PathsVia(g, vs, t, pre)
      decreases g.adj.Keys - Elems(pre), 1
    {
      for i := 0 to |vs|
        invariant paths == old(paths) + PathsVia(g, vs[..i], t, pre)
      {
        Visit(g, vs[i], t, pre);
        assert vs[..i + 1][..i] == vs[..i];
      }
      assert vs[..|vs|] == vs;
    }
  }

  /** `verts_on_paths(s, t)` with a fresh accumulator. */
  method VertsOnPaths<V(==,!new)>(g: Graph<V>, s: V, t: V) returns (r: seq<V>)
    ensures r == VertsOnPathsOf(g, s, t)
    ensures NoDup(r)
    ensures forall v :: v in r <==> exists p :: SimplePath(g, p, s, t) && v in p
    ensures s == t ==> r == [t]
    ensures r == [] <==> forall p :: !SimplePath(g, p, s, t)
  {
    var collector := new PathCollector();
    collector.Visit(g, s, t, []);
    assert collector.paths == Paths(g, s, t, []);
    r := Uniq(Flatten(collector.paths));
    VertsOnPathsMembers(g, s, t);
    VertsOnPathsEmpty(g, s, t);
    if s == t {
      VertsOnPathsSelf(g, t);
    }
  }
}
