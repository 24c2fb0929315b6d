/** Sequence helpers shared by the graph model: Ruby's `uniq`, `&`, `select`,
    `flatten` and the "order-preserving sub-list" relation. */
module Seqs {

  /** No element occurs twice. */
  predicate NoDup<T(==)>(s: seq<T>) {
    forall i, j :: 0 <= i < j < |s| ==> s[i] != s[j]
  }

  /** Ruby's `Array#uniq`: keeps the first occurrence of every element. */
  function Uniq<T(==,!new)>(s: seq<T>): (r: seq<T>)
    ensures NoDup(r)
    ensures forall x :: x in r <==> x in s
    ensures |r| <= |s|
  {
    if s == [] then []
    else
      var front := Uniq(s[..|s| - 1]);
      assert forall x :: x in s <==> x in s[..|s| - 1] || x == s[|s| - 1];
      if s[|s| - 1] in front then front else front + [s[|s| - 1]]
  }

  /** `uniq` lists the elements in the order of their first occurrences:
      wherever an element of the result occurs in the input, every element
      listed before it in the result has already occurred. */
  lemma {:induction false} UniqFirstOccurrences<T(!new)>(s: seq<T>)
    ensures forall i, j, k :: 0 <= i < j < |Uniq(s)| && 0 <= k < |s| && s[k] == Uniq(s)[j] ==> Uniq(s)[i] in s[..k]
  {
    if s != [] {
      var front := s[..|s| - 1];
      var x := s[|s| - 1];
      UniqFirstOccurrences(front);
      var r := Uniq(s);
      forall i, j, k | 0 <= i < j < |r| && 0 <= k < |s| && s[k] == r[j]
        ensures r[i] in s[..k]
      {
        if k < |front| {
          assert s[..k] == front[..k];
          assert front[k] == r[j];
          if x !in Uniq(front) {
            assert r == Uniq(front) + [x];
            assert j < |Uniq(front)|;
          }
          assert Uniq(front)[i] == r[i] && Uniq(front)[j] == r[j];
        } else {
          assert s[..k] == front;
          if x in Uniq(front) {
            assert r[i] in Uniq(front);
          } else {
            assert r == Uniq(front) + [x];
            assert r[i] in Uniq(front);
          }
        }
      }
    }
  }

  lemma {:induction false} UniqOfNoDup<T(!new)>(s: seq<T>)
    requires NoDup(s)
    ensures Uniq(s) == s
  {
    if s != [] {
      UniqOfNoDup(s[..|s| - 1]);
    }
  }

  /** Ruby's `select`: the elements satisfying `f`, in order. */
  function Filter<T(!new)>(s: seq<T>, f: T -> bool): (r: seq<T>)
    ensures |r| <= |s|
    ensures forall x :: x in r <==> x in s && f(x)
  {
    if s == [] then []
    else
      var front := Filter(s[..|s| - 1], f);
      assert forall x :: x in s <==> x in s[..|s| - 1] || x == s[|s| - 1];
      if f(s[|s| - 1]) then front + [s[|s| - 1]] else front
  }

  lemma {:induction false} FilterAppend<T(!new)>(s: seq<T>, t: seq<T>, f: T -> bool)
    ensures Filter(s + t, f) == Filter(s, f) + Filter(t, f)
  {
    if t != [] {
      assert (s + t)[..|s + t| - 1] == s + t[..|t| - 1];
      FilterAppend(s, t[..|t| - 1], f);
    } else {
      assert s + t == s;
    }
  }

  /** Ruby's `a & b`: elements of `a` that occur in `b`, first occurrences, in `a`'s order. */
  function Intersect<T(==,!new)>(a: seq<T>, b: seq<T>): (r: seq<T>)
    ensures NoDup(r)
    ensures forall x :: x in r <==> x in a && x in b
  {
    Uniq(Filter(a, x => x in b))
  }

  /** Ruby's `flatten` on a list of lists. */
  function Flatten<T(!new)>(ss: seq<seq<T>>): (r: seq<T>)
    ensures forall x :: x in r <==> exists i :: 0 <= i < |ss| && x in ss[i]
  {
    if ss == [] then []
    else
      var front := Flatten(ss[..|ss| - 1]);
      assert forall i :: 0 <= i < |ss| - 1 ==> ss[..|ss| - 1][i] == ss[i];
      front + ss[|ss| - 1]
  }

  /** `x` is an order-preserving sub-list of `s` (elements chosen by position). */
  predicate IsSubseq<T(==)>(x: seq<T>, s: seq<T>)
    decreases |s|
  {
    if x == [] then true
    else if s == [] then false
    else (x[0] == s[0] && IsSubseq(x[1..], s[1..])) || IsSubseq(x, s[1..])
  }

  lemma {:induction false} SubseqElements<T>(x: seq<T>, s: seq<T>)
    requires IsSubseq(x, s)
    ensures |x| <= |s|
    ensures forall v :: v in x ==> v in s
    decreases |s|
  {
    if x != [] {
      if x[0] == s[0] && IsSubseq(x[1..], s[1..]) {
        SubseqElements(x[1..], s[1..]);
        assert forall v :: v in x ==> v == x[0] || v in x[1..];
      } else {
        SubseqElements(x, s[1..]);
      }
    }
  }

  lemma {:induction false} SubseqRefl<T>(s: seq<T>)
    ensures IsSubseq(s, s)
  {
    if s != [] {
      SubseqRefl(s[1..]);
    }
  }

  function Pow2(k: nat): (r: nat)
    ensures r >= 1
  {
    if k == 0 then 1 else 2 * Pow2(k - 1)
  }

  lemma {:induction false} SubseqExtendRight<T>(x: seq<T>, s: seq<T>, e: T)
    requires IsSubseq(x, s)
    ensures IsSubseq(x, s + [e])
    decreases |s|
  {
    if x != [] {
      assert (s + [e])[1..] == s[1..] + [e];
      if x[0] == s[0] && IsSubseq(x[1..], s[1..]) {
        SubseqExtendRight(x[1..], s[1..], e);
      } else {
        SubseqExtendRight(x, s[1..], e);
      }
    }
  }

  lemma {:induction false} SubseqExtendBoth<T>(x: seq<T>, s: seq<T>, e: T)
    requires IsSubseq(x, s)
    ensures IsSubseq(x + [e], s + [e])
    decreases |s|
  {
    if x == [] {
      if s == [] {
        assert IsSubseq(([] + [e])[1..], ([] + [e])[1..]);
      } else {
        SubseqExtendBoth(x, s[1..], e);
        assert (s + [e])[1..] == s[1..] + [e];
      }
    } else {
      assert (s + [e])[1..] == s[1..] + [e];
      assert (x + [e])[1..] == x[1..] + [e];
      if x[0] == s[0] && IsSubseq(x[1..], s[1..]) {
        SubseqExtendBoth(x[1..], s[1..], e);
      } else {
        SubseqExtendBoth(x, s[1..], e);
      }
    }
  }

  /** `select` keeps the order of the list it filters. */
  lemma {:induction false} FilterIsSubseq<T(!new)>(s: seq<T>, f: T -> bool)
    ensures IsSubseq(Filter(s, f), s)
  {
    if s != [] {
      var front := s[..|s| - 1];
      FilterIsSubseq(front, f);
      assert s == front + [s[|s| - 1]];
      if f(s[|s| - 1]) {
        SubseqExtendBoth(Filter(front, f), front, s[|s| - 1]);
      } else {
        SubseqExtendRight(Filter(front, f), front, s[|s| - 1]);
      }
    }
  }

  /** Filtering out an element that occurs makes the list strictly shorter. */
  lemma {:induction false} FilterDrops<T(!new)>(s: seq<T>, f: T -> bool, x: T)
    requires x in s && !f(x)
    ensures |Filter(s, f)| < |s|
  {
    var front := s[..|s| - 1];
    if s[|s| - 1] != x {
      assert x in front;
      FilterDrops(front, f, x);
    }
  }

  /** Filtering with a predicate that holds everywhere on `s` changes nothing. */
  lemma {:induction false} FilterAll<T(!new)>(s: seq<T>, f: T -> bool)
    requires forall x :: x in s ==> f(x)
    ensures Filter(s, f) == s
  {
    if s != [] {
      FilterAll(s[..|s| - 1], f);
    }
  }

  lemma HeadIsMember<T>(r: seq<T>)
    requires r != []
    ensures r[0] in r
  {
  }

  /** A list with no members is empty. */
  lemma NoMembersEmpty<T>(r: seq<T>)
    requires forall x :: x !in r
    ensures r == []
  {
    if r != [] {
      HeadIsMember(r);
      assert false;
    }
  }

  lemma {:induction false} SubseqTrans<T>(x: seq<T>, y: seq<T>, z: seq<T>)
    requires IsSubseq(x, y) && IsSubseq(y, z)
    ensures IsSubseq(x, z)
    decreases |z|
  {
    if x != [] {
      if y[0] == z[0] && IsSubseq(y[1..], z[1..]) {
        if x[0] == y[0] && IsSubseq(x[1..], y[1..]) {
          SubseqTrans(x[1..], y[1..], z[1..]);
        } else {
          SubseqTrans(x, y[1..], z[1..]);
        }
      } else {
        SubseqTrans(x, y, z[1..]);
      }
    }
  }

  /** `uniq` keeps the order of the list: its result is a sub-list. */
  lemma {:induction false} UniqIsSubseq<T(!new)>(s: seq<T>)
    ensures IsSubseq(Uniq(s), s)
  {
    if s != [] {
      var front := s[..|s| - 1];
      UniqIsSubseq(front);
      assert s == front + [s[|s| - 1]];
      if s[|s| - 1] in Uniq(front) {
        SubseqExtendRight(Uniq(front), front, s[|s| - 1]);
      } else {
        SubseqExtendBoth(Uniq(front), front, s[|s| - 1]);
      }
    }
  }

  /** `a & b` lists its elements in `a`'s order. */
  lemma IntersectIsSubseq<T(!new)>(a: seq<T>, b: seq<T>)
    ensures IsSubseq(Intersect(a, b), a)
  {
    var f := Filter(a, x => x in b);
    UniqIsSubseq(f);
    FilterIsSubseq(a, x => x in b);
    SubseqTrans(Uniq(f), f, a);
  }

  /** Appending an element the list lacks keeps it duplicate-free. */
  lemma NoDupSnoc<T>(s: seq<T>, x: T)
    requires NoDup(s) && x !in s
    ensures NoDup(s + [x])
  {
    forall i, j | 0 <= i < j < |s + [x]| ensures (s + [x])[i] != (s + [x])[j] {
      if j == |s| {
        assert (s + [x])[i] == s[i];
      }
    }
  }

  /** `select` on a duplicate-free list is duplicate-free. */
  lemma {:induction false} FilterNoDup<T(!new)>(s: seq<T>, f: T -> bool)
    requires NoDup(s)
    ensures NoDup(Filter(s, f))
  {
    if s != [] {
      var front := s[..|s| - 1];
      assert NoDup(front) && s[|s| - 1] !in front;
      FilterNoDup(front, f);
      if f(s[|s| - 1]) {
        NoDupSnoc(Filter(front, f), s[|s| - 1]);
      }
    }
  }
}
