/** Counting the elements of a sequence that satisfy a condition. */
module Counting {

  predicate Distinct<T(==)>(xs: seq<T>) {
    forall i, j | 0 <= i < j < |xs| :: xs[i] != xs[j]
  }

  /** The number of elements of `xs` for which `f` holds, one by one from the front. */
  function CountIf<T>(xs: seq<T>, f: T -> bool): (n: nat)
    ensures n <= |xs|
  {
    if xs == [] then 0 else (if f(xs[0]) then 1 else 0) + CountIf(xs[1..], f)
  }

  /** The set of elements of `xs` for which `f` holds. */
  function Selected<T(!new)>(xs: seq<T>, f: T -> bool): (s: set<T>)
    ensures forall x :: x in s <==> x in xs && f(x)
  {
    set x | x in xs && f(x)
  }

  /** For a sequence without repetitions the count is the size of the selected set. */
  lemma {:induction false} CountIfIsCardinality<T(!new)>(xs: seq<T>, f: T -> bool)
    requires Distinct(xs)
    ensures CountIf(xs, f) == |Selected(xs, f)|
  {
    if xs == [] {
      assert Selected(xs, f) == {};
    } else {
      var rest := xs[1..];
      assert Distinct(rest) by {
        forall i, j | 0 <= i < j < |rest| ensures rest[i] != rest[j] {
          assert rest[i] == xs[i + 1] && rest[j] == xs[j + 1];
        }
      }
      CountIfIsCardinality(rest, f);
      var tail := Selected(rest, f);
      assert xs[0] !in rest by {
        forall k | 0 <= k < |rest| ensures rest[k] != xs[0] {
          assert rest[k] == xs[k + 1];
        }
      }
      assert xs == [xs[0]] + rest;
      if f(xs[0]) {
        assert Selected(xs, f) == {xs[0]} + tail;
      } else {
        assert Selected(xs, f) == tail;
      }
    }
  }

  /** Conditions that agree on every element give the same count. */
  lemma {:induction false} CountIfCongruent<T>(xs: seq<T>, f: T -> bool, g: T -> bool)
    requires forall k | 0 <= k < |xs| :: f(xs[k]) == g(xs[k])
    ensures CountIf(xs, f) == CountIf(xs, g)
  {
    if xs != [] {
      CountIfCongruent(xs[1..], f, g);
    }
  }

  function Indicator(b: bool): nat {
    if b then 1 else 0
  }

  /** The count over a three-element sequence, spelled out. */
  lemma CountIfThree<T>(a: T, b: T, c: T, f: T -> bool)
    ensures CountIf([a, b, c], f) == Indicator(f(a)) + Indicator(f(b)) + Indicator(f(c))
  {
    assert [a, b, c][1..] == [b, c];
    assert [b, c][1..] == [c];
    assert [c][1..] == [];
    assert CountIf([c], f) == Indicator(f(c));
    assert CountIf([b, c], f) == Indicator(f(b)) + Indicator(f(c));
  }

  /** The count over a four-element sequence, spelled out. */
  lemma CountIfFour<T>(a: T, b: T, c: T, d: T, f: T -> bool)
    ensures CountIf([a, b, c, d], f)
         == Indicator(f(a)) + Indicator(f(b)) + Indicator(f(c)) + Indicator(f(d))
  {
    assert [a, b, c, d][1..] == [b, c, d];
    CountIfThree(b, c, d, f);
  }

  /** The count over an eight-element sequence, element by element. */
  lemma CountIfEight<T>(xs: seq<T>, f: T -> bool)
    requires |xs| == 8
    ensures CountIf(xs, f)
         == Indicator(f(xs[0])) + Indicator(f(xs[1])) + Indicator(f(xs[2])) + Indicator(f(xs[3]))
          + Indicator(f(xs[4])) + Indicator(f(xs[5])) + Indicator(f(xs[6])) + Indicator(f(xs[7]))
  {
    assert xs[1..][1..] == xs[2..];
    assert xs[2..][1..] == xs[3..];
    assert xs[3..][1..] == xs[4..];
    assert xs[4..] == [xs[4], xs[5], xs[6], xs[7]];
    CountIfFour(xs[4], xs[5], xs[6], xs[7], f);
    assert CountIf(xs[3..], f) == Indicator(f(xs[3])) + CountIf(xs[4..], f);
    assert CountIf(xs[2..], f) == Indicator(f(xs[2])) + CountIf(xs[3..], f);
    assert CountIf(xs[1..], f) == Indicator(f(xs[1])) + CountIf(xs[2..], f);
    assert CountIf(xs, f) == Indicator(f(xs[0])) + CountIf(xs[1..], f);
  }
}
