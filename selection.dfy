/**
 * Order-preserving selection from a sequence of identifiers: the shape of
 * both filters in the handler of api/buses.mjs (roster ids not seen live, and
 * of those the ones the store has a row for).
 */
module Selection {

  /** The elements of xs that satisfy keep, in their order in xs. */
  function Select(xs: seq<string>, keep: string -> bool): seq<string>
  {
    if xs == [] then []
    else Select(xs[..|xs| - 1], keep) + (if keep(xs[|xs| - 1]) then [xs[|xs| - 1]] else [])
  }

  /** The positions in xs of the elements that satisfy keep, in increasing order. */
  function Positions(xs: seq<string>, keep: string -> bool): seq<nat>
  {
    if xs == [] then []
    else Positions(xs[..|xs| - 1], keep) + (if keep(xs[|xs| - 1]) then [|xs| - 1] else [])
  }

  predicate Distinct(xs: seq<string>)
  {
    forall i, j :: 0 <= i < j < |xs| ==> xs[i] != xs[j]
  }

  /**
   * Select picks exactly the positions whose element satisfies keep, in
   * increasing order: its k-th element is the element at the k-th such position.
   */
  lemma {:induction false} SelectIsOrdered(xs: seq<string>, keep: string -> bool)
    ensures |Positions(xs, keep)| == |Select(xs, keep)|
    ensures forall k :: 0 <= k < |Positions(xs, keep)| ==>
      Positions(xs, keep)[k] < |xs| && Select(xs, keep)[k] == xs[Positions(xs, keep)[k]]
    ensures forall k, l :: 0 <= k < l < |Positions(xs, keep)| ==> Positions(xs, keep)[k] < Positions(xs, keep)[l]
    ensures forall i :: 0 <= i < |xs| ==> (i in Positions(xs, keep) <==> keep(xs[i]))
  {
    if xs != [] {
      var init := xs[..|xs| - 1];
      SelectIsOrdered(init, keep);
      var p, s := Positions(init, keep), Select(init, keep);
      assert forall i :: 0 <= i < |init| ==> init[i] == xs[i];
      if keep(xs[|xs| - 1]) {
        assert Positions(xs, keep) == p + [|xs| - 1];
        assert Select(xs, keep) == s + [xs[|xs| - 1]];
      } else {
        assert Positions(xs, keep) == p;
        assert Select(xs, keep) == s;
      }
    }
  }

  /** Every element is selected as often as it occurs in xs if it satisfies keep, and never otherwise. */
  lemma {:induction false} SelectCount(xs: seq<string>, keep: string -> bool, x: string)
    ensures multiset(Select(xs, keep))[x] == if keep(x) then multiset(xs)[x] else 0
    ensures x in Select(xs, keep) <==> x in xs && keep(x)
  {
    if xs != [] {
      var init := xs[..|xs| - 1];
      SelectCount(init, keep, x);
      assert xs == init + [xs[|xs| - 1]];
    }
  }

  /** Selecting from distinct elements gives distinct elements. */
  lemma SelectDistinct(xs: seq<string>, keep: string -> bool)
    requires Distinct(xs)
    ensures Distinct(Select(xs, keep))
  {
    SelectIsOrdered(xs, keep);
  }

  /** From distinct elements, as many are selected as there are elements satisfying keep. */
  lemma {:induction false} SelectSize(xs: seq<string>, keep: string -> bool)
    requires Distinct(xs)
    ensures |Select(xs, keep)| == |set x | x in xs && keep(x)|
  {
    if xs == [] {
      assert (set x | x in xs && keep(x)) == {};
    } else {
      var init, last := xs[..|xs| - 1], xs[|xs| - 1];
      assert Distinct(init);
      SelectSize(init, keep);
      var before := set x | x in init && keep(x);
      assert last !in init;
      if keep(last) {
        assert (set x | x in xs && keep(x)) == before + {last};
      } else {
        assert (set x | x in xs && keep(x)) == before;
      }
    }
  }

  /** In a sequence without repetitions every element occurs once. */
  lemma {:induction false} DistinctCount(xs: seq<string>, x: string)
    requires Distinct(xs)
    ensures multiset(xs)[x] == if x in xs then 1 else 0
  {
    if xs != [] {
      var init, last := xs[..|xs| - 1], xs[|xs| - 1];
      assert xs == init + [last];
      assert Distinct(init);
      assert last !in init;
      DistinctCount(init, x);
    }
  }

  /** Both conditions at once. */
  function Both(p: string -> bool, q: string -> bool): string -> bool
  {
    x => p(x) && q(x)
  }

  lemma {:induction false} SelectAppend(a: seq<string>, b: seq<string>, keep: string -> bool)
    ensures Select(a + b, keep) == Select(a, keep) + Select(b, keep)
    decreases |b|
  {
    if b == [] {
      assert a + b == a;
    } else {
      var init := b[..|b| - 1];
      assert (a + b)[..|a + b| - 1] == a + init;
      SelectAppend(a, init, keep);
    }
  }

  /** Selecting by p and then by q is selecting by both. */
  lemma {:induction false} SelectTwice(xs: seq<string>, p: string -> bool, q: string -> bool)
    ensures Select(Select(xs, p), q) == Select(xs, Both(p, q))
  {
    if xs != [] {
      var init, last := xs[..|xs| - 1], xs[|xs| - 1];
      SelectTwice(init, p, q);
      var tail := if p(last) then [last] else [];
      SelectAppend(Select(init, p), tail, q);
      if p(last) {
        assert tail[..0] == [];
      }
    }
  }

  /** When every element satisfies keep, everything is selected. */
  lemma {:induction false} SelectAll(xs: seq<string>, keep: string -> bool)
    requires forall i :: 0 <= i < |xs| ==> keep(xs[i])
    ensures Select(xs, keep) == xs
  {
    if xs != [] {
      var init := xs[..|xs| - 1];
      SelectAll(init, keep);
      assert init + [xs[|xs| - 1]] == xs;
    }
  }
}
