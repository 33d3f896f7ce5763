/** Sums of a weight over a sequence, used to count the processes that are at a
    given kind of program point. */
module WeightedSum {

  ghost function Sum<T>(w: T -> int, xs: seq<T>): (r: int)
  {
    if xs == [] then 0 else w(xs[0]) + Sum(w, xs[1..])
  }

  ghost predicate NonNegative<T>(w: T -> int, xs: seq<T>) {
    forall i :: 0 <= i < |xs| ==> 0 <= w(xs[i])
  }

  ghost predicate Dominates<T>(v: T -> int, w: T -> int, xs: seq<T>) {
    forall i :: 0 <= i < |xs| ==> w(xs[i]) <= v(xs[i])
  }

  /** Replacing one element changes the sum by the difference of the two weights. */
  lemma {:induction false} SumUpdate<T>(w: T -> int, xs: seq<T>, i: nat, x: T)
    requires i < |xs|
    ensures Sum(w, xs[i := x]) == Sum(w, xs) - w(xs[i]) + w(x)
  {
    if i == 0 {
      assert xs[0 := x][1..] == xs[1..];
    } else {
      assert xs[i := x][1..] == xs[1..][i - 1 := x];
      SumUpdate(w, xs[1..], i - 1, x);
    }
  }

  lemma {:induction false} SumMonotone<T>(v: T -> int, w: T -> int, xs: seq<T>)
    requires Dominates(v, w, xs)
    ensures Sum(w, xs) <= Sum(v, xs)
  {
    if xs != [] {
      assert w(xs[0]) <= v(xs[0]);
      assert Dominates(v, w, xs[1..]) by {
        forall i | 0 <= i < |xs[1..]| ensures w(xs[1..][i]) <= v(xs[1..][i]) {
          assert xs[1..][i] == xs[i + 1];
        }
      }
      SumMonotone(v, w, xs[1..]);
    }
  }

  lemma {:induction false} SumNonNegative<T>(w: T -> int, xs: seq<T>)
    requires NonNegative(w, xs)
    ensures 0 <= Sum(w, xs)
  {
    if xs != [] {
      assert 0 <= w(xs[0]);
      assert NonNegative(w, xs[1..]) by {
        forall i | 0 <= i < |xs[1..]| ensures 0 <= w(xs[1..][i]) {
          assert xs[1..][i] == xs[i + 1];
        }
      }
      SumNonNegative(w, xs[1..]);
    }
  }

  /** One element never weighs more than the whole. */
  lemma SumAtLeastOne<T>(w: T -> int, xs: seq<T>, i: nat, zero: T)
    requires i < |xs| && NonNegative(w, xs) && w(zero) == 0
    ensures w(xs[i]) <= Sum(w, xs)
  {
    SumUpdate(w, xs, i, zero);
    SumNonNegative(w, xs[i := zero]);
  }

  lemma SumAtLeastTwo<T>(w: T -> int, xs: seq<T>, i: nat, j: nat, zero: T)
    requires i < |xs| && j < |xs| && i != j && NonNegative(w, xs) && w(zero) == 0
    ensures w(xs[i]) + w(xs[j]) <= Sum(w, xs)
  {
    SumUpdate(w, xs, i, zero);
    SumAtLeastOne(w, xs[i := zero], j, zero);
  }

  /** A positive sum has a positive element. */
  lemma {:induction false} PositiveElement<T>(w: T -> int, xs: seq<T>) returns (i: nat)
    requires 0 < Sum(w, xs)
    ensures i < |xs| && 0 < w(xs[i])
  {
    if 0 < w(xs[0]) {
      i := 0;
    } else {
      var j := PositiveElement(w, xs[1..]);
      i := j + 1;
    }
  }

  /** If the only element that v counts is at i, then w, which v dominates, is
      concentrated at i as well. */
  lemma SumConcentrated<T>(v: T -> int, w: T -> int, xs: seq<T>, i: nat, zero: T)
    requires i < |xs| && NonNegative(w, xs) && Dominates(v, w, xs)
    requires Sum(v, xs) == v(xs[i])
    requires v(zero) == 0 && w(zero) == 0
    ensures Sum(w, xs) == w(xs[i])
  {
    var ys := xs[i := zero];
    SumUpdate(v, xs, i, zero);
    SumUpdate(w, xs, i, zero);
    SumMonotone(v, w, ys);
    SumNonNegative(w, ys);
  }

  lemma {:induction false} SumZero<T>(w: T -> int, xs: seq<T>)
    requires forall i :: 0 <= i < |xs| ==> w(xs[i]) == 0
    ensures Sum(w, xs) == 0
  {
    if xs != [] {
      assert w(xs[0]) == 0;
      forall i | 0 <= i < |xs[1..]| ensures w(xs[1..][i]) == 0 {
        assert xs[1..][i] == xs[i + 1];
      }
      SumZero(w, xs[1..]);
    }
  }
}
