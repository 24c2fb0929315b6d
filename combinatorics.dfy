/** The power set by recursive doubling (`PowerSet#power_set`, lib/glymour.rb)
    and the Cartesian product (`cartprod`, lib/glymour.rb). The older revision's
    `power_set` (structure_learning_module.rb) is the same code and is modelled
    by the same members. */
module Combinatorics {
  import opened Seqs

  /** `[x] + subset` for every subset of `r`, in order (the `map` in `power_set!`). */
  function Prepend<T>(x: T, r: seq<seq<T>>): (p: seq<seq<T>>)
    ensures |p| == |r|
    ensures forall i :: 0 <= i < |r| ==> p[i] == [x] + r[i]
  {
    seq(|r|, i requires 0 <= i < |r| => [x] + r[i])
  }

  /** The list `power_set!` returns: subsets of the tail, then the same with
      the head in front. */
  function PowerSet<T>(s: seq<T>): seq<seq<T>>
  {
    if s == [] then [[]]
    else
      var rest := PowerSet(s[1..]);
      rest + Prepend(s[0], rest)
  }

  /** The power list has 2^|s| entries. */
  lemma {:induction false} PowerSetSize<T>(s: seq<T>)
    ensures |PowerSet(s)| == Pow2(|s|)
  {
    if s != [] {
      PowerSetSize(s[1..]);
    }
  }

  /** The entries are exactly the order-preserving sub-lists of `s`. */
  lemma PowerSetExactly<T>(s: seq<T>, x: seq<T>)
    ensures x in PowerSet(s) <==> IsSubseq(x, s)
  {
    if x in PowerSet(s) {
      PowerSetSound(s, x);
    }
    if IsSubseq(x, s) {
      PowerSetComplete(s, x);
    }
  }

  /** Every entry is an order-preserving sub-list of `s`. */
  lemma {:induction false} PowerSetSound<T>(s: seq<T>, x: seq<T>)
    requires x in PowerSet(s)
    ensures IsSubseq(x, s)
  {
    if s != [] {
      var rest := PowerSet(s[1..]);
      if x in rest {
        PowerSetSound(s[1..], x);
      } else {
        var i :| 0 <= i < |rest| && x == Prepend(s[0], rest)[i];
        PowerSetSound(s[1..], rest[i]);
        assert x[1..] == rest[i];
      }
    }
  }

  /** Every order-preserving sub-list of `s` is an entry. */
  lemma {:induction false} PowerSetComplete<T>(s: seq<T>, x: seq<T>)
    requires IsSubseq(x, s)
    ensures x in PowerSet(s)
  {
    if s == [] {
      assert x == [];
    } else if x != [] && x[0] == s[0] && IsSubseq(x[1..], s[1..]) {
      PowerSetComplete(s[1..], x[1..]);
      WithHead(s, x);
    } else {
      PowerSetComplete(s[1..], x);
    }
  }

  /** An entry for the tail, with the head put in front, is an entry. */
  lemma WithHead<T>(s: seq<T>, x: seq<T>)
    requires s != [] && x != [] && x[0] == s[0] && x[1..] in PowerSet(s[1..])
    ensures x in PowerSet(s)
  {
    var rest := PowerSet(s[1..]);
    var i :| 0 <= i < |rest| && rest[i] == x[1..];
    assert Prepend(s[0], rest)[i] == x;
  }

  /** The empty list and `s` itself are both among the subsets, and every
      subset draws its elements from `s`. */
  lemma PowerSetBounds<T>(s: seq<T>)
    ensures [] in PowerSet(s) && s in PowerSet(s)
    ensures forall x :: x in PowerSet(s) ==> |x| <= |s| && forall v :: v in x ==> v in s
  {
    PowerSetExactly(s, []);
    SubseqRefl(s);
    PowerSetExactly(s, s);
    forall x | x in PowerSet(s)
      ensures |x| <= |s| && forall v :: v in x ==> v in s
    {
      PowerSetExactly(s, x);
      SubseqElements(x, s);
    }
  }

  /** A Ruby array extended with `PowerSet`. */
  class ArrayList<T> {
    var items: seq<T>

    constructor (s: seq<T>)
      ensures items == s
    {
      items := s;
    }

    /** `power_set!`: consumes the receiver with `shift`, one element per level. */
    method PowerSetBang() returns (r: seq<seq<T>>)
      modifies this
      ensures r == PowerSet(old(items))
      ensures items == []
      decreases |items|
    {
      if items == [] {
        return [[]];
      }
      var first := items[0];
      items := items[1..];
      var rest := PowerSetBang();
      r := rest + Prepend(first, rest);
    }

    /** `power_set`: runs `power_set!` on a clone, so the receiver keeps its elements. */
    method PowerSetCopy() returns (r: seq<seq<T>>)
      ensures r == PowerSet(items)
      ensures |r| == Pow2(|items|)
    {
      var copy := new ArrayList(items);
      r := copy.PowerSetBang();
      PowerSetSize(items);
    }
  }

  /** The tuples `a + [n]` for `n` in `b`, in order. */
  function Row<T>(a: seq<T>, b: seq<T>): (r: seq<seq<T>>)
  {
    if b == [] then [] else Row(a, b[..|b| - 1]) + [a + [b[|b| - 1]]]
  }

  /** One pass of the `while` in `cartprod`: every tuple of `t` extended by every element of `b`. */
  function Extend<T>(t: seq<seq<T>>, b: seq<T>): (r: seq<seq<T>>)
  {
    if t == [] then [] else Extend(t[..|t| - 1], b) + Row(t[|t| - 1], b)
  }

  /** The Cartesian product of the argument lists, taken left to right. */
  function CartProd<T>(args: seq<seq<T>>): (r: seq<seq<T>>)
  {
    if args == [] then [[]] else Extend(CartProd(args[..|args| - 1]), args[|args| - 1])
  }

  /** Product of the lengths of the argument lists. */
  function LengthProduct<T>(args: seq<seq<T>>): nat
  {
    if args == [] then 1 else LengthProduct(args[..|args| - 1]) * |args[|args| - 1]|
  }

  lemma {:induction false} RowSize<T>(a: seq<T>, b: seq<T>)
    ensures |Row(a, b)| == |b|
  {
    if b != [] {
      RowSize(a, b[..|b| - 1]);
    }
  }

  lemma {:induction false} RowMembers<T>(a: seq<T>, b: seq<T>)
    ensures forall y :: y in Row(a, b) <==> |y| == |a| + 1 && y[..|a|] == a && y[|a|] in b
  {
    if b != [] {
      RowMembers(a, b[..|b| - 1]);
      forall y ensures y in Row(a, b) <==> |y| == |a| + 1 && y[..|a|] == a && y[|a|] in b {
        if |y| == |a| + 1 && y[..|a|] == a && y[|a|] == b[|b| - 1] {
          assert y == a + [b[|b| - 1]];
        }
      }
    }
  }

  lemma {:induction false} ExtendSize<T>(t: seq<seq<T>>, b: seq<T>)
    ensures |Extend(t, b)| == |t| * |b|
  {
    if t != [] {
      var front := t[..|t| - 1];
      ExtendSize(front, b);
      RowSize(t[|t| - 1], b);
      assert (|front| + 1) * |b| == |front| * |b| + |b|;
    }
  }

  lemma {:induction false} ExtendMembers<T>(t: seq<seq<T>>, b: seq<T>, k: nat)
    requires forall a :: a in t ==> |a| == k
    ensures forall y :: y in Extend(t, b) <==> |y| == k + 1 && y[..k] in t && y[k] in b
  {
    if t != [] {
      var last, front := t[|t| - 1], t[..|t| - 1];
      ExtendMembers(front, b, k);
      RowMembers(last, b);
      assert forall a :: a in t <==> a in front || a == last;
    }
  }

  /** `cartprod` returns one tuple per combination: the product of the lengths. */
  lemma {:induction false} CartProdSize<T>(args: seq<seq<T>>)
    ensures |CartProd(args)| == LengthProduct(args)
  {
    if args != [] {
      var k := |args| - 1;
      CartProdSize(args[..k]);
      ExtendSize(CartProd(args[..k]), args[k]);
    }
  }

  lemma {:induction false} RowWidth<T>(a: seq<T>, b: seq<T>)
    ensures forall j :: 0 <= j < |Row(a, b)| ==> |Row(a, b)[j]| == |a| + 1
  {
    if b != [] {
      RowWidth(a, b[..|b| - 1]);
    }
  }

  lemma {:induction false} ExtendWidth<T>(t: seq<seq<T>>, b: seq<T>, k: nat)
    requires forall i :: 0 <= i < |t| ==> |t[i]| == k
    ensures forall j :: 0 <= j < |Extend(t, b)| ==> |Extend(t, b)[j]| == k + 1
  {
    if t != [] {
      ExtendWidth(t[..|t| - 1], b, k);
      RowWidth(t[|t| - 1], b);
    }
  }

  lemma {:induction false} CartProdWidth<T>(args: seq<seq<T>>)
    ensures forall j :: 0 <= j < |CartProd(args)| ==> |CartProd(args)[j]| == |args|
  {
    if args != [] {
      var k := |args| - 1;
      CartProdWidth(args[..k]);
      ExtendWidth(CartProd(args[..k]), args[k], k);
    }
  }

  /** The tuples of `cartprod` are exactly the choices of one element from
      each argument list, in argument order. */
  lemma {:induction false} CartProdMembers<T>(args: seq<seq<T>>)
    ensures forall x :: x in CartProd(args) <==>
      |x| == |args| && forall i :: 0 <= i < |args| ==> x[i] in args[i]
  {
    if args != [] {
      var k := |args| - 1;
      var front := args[..k];
      CartProdMembers(front);
      CartProdWidth(front);
      forall a | a in CartProd(front) ensures |a| == k {
        var j :| 0 <= j < |CartProd(front)| && CartProd(front)[j] == a;
      }
      ExtendMembers(CartProd(front), args[k], k);
      forall x ensures x in CartProd(args) <==>
        |x| == |args| && forall i :: 0 <= i < |args| ==> x[i] in args[i]
      {
        if |x| == |args| {
          CartProdLastColumn(args, x, front, x[..k]);
        }
      }
    }
  }

  /** A tuple of the right width draws from every argument exactly when its
      prefix draws from the leading arguments and its last entry from the
      last one. */
  lemma CartProdLastColumn<T>(args: seq<seq<T>>, x: seq<T>, front: seq<seq<T>>, prefix: seq<T>)
    requires args != [] && |x| == |args|
    requires front == args[..|args| - 1] && prefix == x[..|args| - 1]
    ensures (forall i :: 0 <= i < |args| ==> x[i] in args[i]) <==>
      (forall i :: 0 <= i < |front| ==> prefix[i] in front[i]) && x[|args| - 1] in args[|args| - 1]
  {
  }

  /** `cartprod(*args)`: the `while` loop reassigning `result` and `args`. */
  method Cartprod<T>(args: seq<seq<T>>) returns (result: seq<seq<T>>)
    ensures result == CartProd(args)
    ensures |result| == LengthProduct(args)
  {
    result := [[]];
    var rest := args;
    ghost var done := 0;
    while rest != []
      invariant 0 <= done <= |args| && rest == args[done..]
      invariant result == CartProd(args[..done])
      decreases |rest|
    {
      var t := result;
      var b := rest[0];
      rest := rest[1..];
      result := ExtendAll(t, b);
      assert args[..done + 1][..done] == args[..done];
      done := done + 1;
    }
    assert args[..done] == args;
    CartProdSize(args);
  }

  /** The nested `each` loops of one `cartprod` round: `a + [n]` for every
      tuple `a` built so far and every `n` of the next argument. */
  method ExtendAll<T>(t: seq<seq<T>>, b: seq<T>) returns (result: seq<seq<T>>)
    ensures result == Extend(t, b)
  {
    result := [];
    for i := 0 to |t|
      invariant result == Extend(t[..i], b)
    {
      for j := 0 to |b|
        invariant result == Extend(t[..i], b) + Row(t[i], b[..j])
      {
        assert b[..j + 1][..j] == b[..j];
        result := result + [t[i] + [b[j]]];
      }
      assert t[..i + 1][..i] == t[..i];
      assert b[..|b|] == b;
    }
    assert t[..|t|] == t;
  }
}
