/**
 * Base-62 positional notation over natural numbers: the arithmetic that the
 * codec's digit extraction and digit summation rely on, independent of which
 * symbols stand for the digits.
 */
module Positional {

  /** The radix. It is the length of the original 62-symbol dictionary and
      stays 62 even after the dictionary is replaced by a keyed permutation. */
  const Base: nat := 62

  /** Base raised to the power `e`. */
  function Power(e: nat): (r: nat)
    ensures r >= 1
    ensures e > 0 ==> r >= Base
  {
    if e == 0 then 1 else Base * Power(e - 1)
  }

  /** The digits of `n`, least significant first, with no trailing zero digit:
      zero has no digits at all. This is the reference the codec's
      mod/div/subtract loop is proved against. */
  function LsbDigits(n: nat): (ds: seq<nat>)
    ensures forall i :: 0 <= i < |ds| ==> ds[i] < Base
    ensures ds == [] <==> n == 0
    ensures ds != [] ==> ds[|ds| - 1] != 0
  {
    if n == 0 then [] else [n % Base] + LsbDigits(n / Base)
  }

  /** The value of a digit sequence read least significant first. */
  function DigitsValue(ds: seq<nat>): nat
  {
    if ds == [] then 0 else ds[0] + Base * DigitsValue(ds[1..])
  }

  /** A digit sequence in canonical form: every digit below the base and no
      zero in the most significant place. */
  predicate Canonical(ds: seq<nat>)
  {
    && (forall i :: 0 <= i < |ds| ==> ds[i] < Base)
    && (ds != [] ==> ds[|ds| - 1] != 0)
  }

  /** Splitting off the least significant digit of `d + Base * q`. */
  lemma DivModBase(d: nat, q: nat)
    requires d < Base
    ensures (d + Base * q) % Base == d
    ensures (d + Base * q) / Base == q
  {
  }

  /** Reading back the digits of `n` gives `n`. */
  lemma {:induction false} LsbDigitsValue(n: nat)
    ensures DigitsValue(LsbDigits(n)) == n
  {
    if n > 0 {
      LsbDigitsValue(n / Base);
    }
  }

  /** A canonical digit sequence has a positive value unless it is empty. */
  lemma {:induction false} CanonicalValuePositive(ds: seq<nat>)
    requires Canonical(ds)
    ensures DigitsValue(ds) == 0 <==> ds == []
  {
    if ds != [] && |ds| > 1 {
      CanonicalValuePositive(ds[1..]);
    }
  }

  /** The digits of the value of a canonical sequence are that sequence:
      together with `LsbDigitsValue` this makes `LsbDigits` a bijection
      between the naturals and canonical digit sequences. */
  lemma {:induction false} ValueLsbDigits(ds: seq<nat>)
    requires Canonical(ds)
    ensures LsbDigits(DigitsValue(ds)) == ds
  {
    if ds != [] {
      assert Canonical(ds[1..]);
      ValueLsbDigits(ds[1..]);
      ValueLsbDigitsStep(ds);
    }
  }

  /** The step of `ValueLsbDigits`: the lowest digit comes off first. */
  lemma ValueLsbDigitsStep(ds: seq<nat>)
    requires Canonical(ds) && ds != []
    requires LsbDigits(DigitsValue(ds[1..])) == ds[1..]
    ensures LsbDigits(DigitsValue(ds)) == ds
  {
    var q := DigitsValue(ds[1..]);
    var v := ds[0] + Base * q;
    assert DigitsValue(ds) == v;
    CanonicalValuePositive(ds);
    DivModBase(ds[0], q);
    assert v % Base == ds[0] && v / Base == q;
    assert LsbDigits(v) == [ds[0]] + LsbDigits(q);
    assert ds == [ds[0]] + ds[1..];
  }

  /** Appending a most significant digit `d` adds `Base^|ds|` times `d`. */
  lemma {:induction false} DigitsValueAppend(ds: seq<nat>, d: nat)
    ensures DigitsValue(ds + [d]) == DigitsValue(ds) + Power(|ds|) * d
  {
    if ds == [] {
      assert ds + [d] == [d];
    } else {
      assert (ds + [d])[1..] == ds[1..] + [d];
      DigitsValueAppend(ds[1..], d);
      MulDistribute(Base, DigitsValue(ds[1..]), Power(|ds| - 1), d);
    }
  }

  /** The number of digits of a positive `n` is the `L` with
      `Base^(L-1) <= n < Base^L`; zero has no digits. */
  lemma {:induction false} LsbDigitsLength(n: nat)
    ensures n < Power(|LsbDigits(n)|)
    ensures n > 0 ==> Power(|LsbDigits(n)| - 1) <= n
  {
    if n > 0 {
      LsbDigitsLength(n / Base);
    }
  }

  /** A larger number never has fewer digits. */
  lemma {:induction false} LsbDigitsLengthMonotone(m: nat, n: nat)
    requires m <= n
    ensures |LsbDigits(m)| <= |LsbDigits(n)|
  {
    if m > 0 {
      LsbDigitsLengthMonotone(m / Base, n / Base);
    }
  }

  // ---------------------------------------------------------------------
  // Facts about multiplication and Euclidean division that the solver does
  // not find on its own
  // ---------------------------------------------------------------------

  /** Euclidean division has one quotient and one remainder. */
  lemma DivModUnique(x: nat, m: nat, q: nat, rem: nat)
    requires m >= 1 && rem < m && x == q * m + rem
    ensures x / m == q && x % m == rem
  {
    var q', rem' := x / m, x % m;
    assert (q - q') * m == rem' - rem;
    if q' < q {
      MulAtLeast(q - q', m);
      assert false;
    } else if q' > q {
      MulAtLeast(q' - q, m);
      assert false;
    }
  }

  lemma MulDistribute(k: nat, x: nat, p: nat, d: nat)
    ensures k * (x + p * d) == k * x + (k * p) * d
  {
  }

  lemma MulAtLeast(k: int, m: nat)
    requires k >= 1
    ensures k * m >= m
  {
  }

  lemma MulMonotone(x: nat, y: nat, c: nat)
    requires x <= y
    ensures x * c <= y * c
  {
  }

  lemma ZeroProduct(q: nat, c: nat)
    requires c >= 1 && q * c == 0
    ensures q == 0
  {
    if q != 0 {
      MulAtLeast(q, c);
      assert false;
    }
  }
}
