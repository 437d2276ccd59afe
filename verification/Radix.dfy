/** Positional numerals in any base, most significant digit first, and change of base. */
module Radix {

  ghost predicate AreDigits(ds: seq<nat>, base: nat) {
    forall i | 0 <= i < |ds| :: ds[i] < base
  }

  /** The number written by ds. */
  function Value(ds: seq<nat>, base: nat): nat {
    if ds == [] then 0 else Value(ds[..|ds| - 1], base) * base + ds[|ds| - 1]
  }

  /** The numeral of n without leading zeros; the empty one for zero. */
  function Numeral(n: nat, base: nat): (r: seq<nat>)
    requires base >= 2
    ensures AreDigits(r, base)
    ensures r != [] ==> r[0] != 0
    decreases n
  {
    if n == 0 then [] else
      DivSmaller(n, base);
      Numeral(n / base, base) + [n % base]
  }

  lemma DivSmaller(n: nat, base: nat)
    requires n > 0 && base >= 2
    ensures n / base < n
  {
    MulMono(2, base, n / base);
    assert n == base * (n / base) + n % base;
  }

  lemma MulMono(a: nat, b: nat, c: nat)
    requires a <= b
    ensures a * c <= b * c
  {
  }

  /** Quotient and remainder of q * base + d. */
  lemma DivModUnique(q: nat, d: nat, base: nat)
    requires d < base
    ensures (q * base + d) / base == q && (q * base + d) % base == d
  {
    var n := q * base + d;
    assert n == n / base * base + n % base;
    if n / base < q {
      MulMono(n / base + 1, q, base);
    } else if q < n / base {
      MulMono(q + 1, n / base, base);
    }
  }

  lemma NumeralStep(n: nat, base: nat)
    requires n > 0 && base >= 2
    ensures Numeral(n, base) == Numeral(n / base, base) + [n % base]
  {
  }

  lemma DivModBack(n: nat, base: nat)
    requires base > 0
    ensures n / base * base + n % base == n
  {
  }

  lemma ValueSnoc(ds: seq<nat>, d: nat, base: nat)
    ensures Value(ds + [d], base) == Value(ds, base) * base + d
  {
    assert (ds + [d])[..|ds|] == ds;
  }

  lemma {:induction false} ValueOfNumeral(n: nat, base: nat)
    requires base >= 2
    ensures Value(Numeral(n, base), base) == n
    decreases n
  {
    if n == 0 {
      assert Numeral(n, base) == [];
    } else {
      hide Value, Numeral;
      DivSmaller(n, base);
      ValueOfNumeral(n / base, base);
      NumeralStep(n, base);
      ValueSnoc(Numeral(n / base, base), n % base, base);
      DivModBack(n, base);
    }
  }

  /** A numeral without a leading zero stands for a positive number, unless it is empty. */
  lemma {:induction false} ValuePositive(ds: seq<nat>, base: nat)
    requires base >= 2 && ds != [] && ds[0] != 0
    ensures Value(ds, base) > 0
  {
    if |ds| > 1 {
      ValuePositive(ds[..|ds| - 1], base);
      MulMono(1, Value(ds[..|ds| - 1], base), base);
    }
  }

  lemma {:induction false} NumeralOfValue(ds: seq<nat>, base: nat)
    requires base >= 2 && AreDigits(ds, base) && (ds != [] ==> ds[0] != 0)
    ensures Numeral(Value(ds, base), base) == ds
  {
    if ds != [] {
      var front, last := ds[..|ds| - 1], ds[|ds| - 1];
      ValuePositive(ds, base);
      NumeralOfValue(front, base);
      DivModUnique(Value(front, base), last, base);
      assert ds == front + [last];
    }
  }

  /** How many zeros ds begins with. */
  function LeadingZeros(ds: seq<nat>): (n: nat)
    ensures n <= |ds|
    ensures forall i | 0 <= i < n :: ds[i] == 0
    ensures n < |ds| ==> ds[n] != 0
  {
    if ds != [] && ds[0] == 0 then 1 + LeadingZeros(ds[1..]) else 0
  }

  lemma {:induction false} LeadingZerosUnique(ds: seq<nat>, n: nat)
    requires n <= |ds| && (forall k | 0 <= k < n :: ds[k] == 0) && (n == |ds| || ds[n] != 0)
    ensures LeadingZeros(ds) == n
  {
    if n > 0 {
      LeadingZerosUnique(ds[1..], n - 1);
    }
  }

  function Zeros(n: nat): (r: seq<nat>)
    ensures |r| == n
  {
    seq(n, _ => 0)
  }

  lemma {:induction false} ValueOfZeros(n: nat, base: nat)
    ensures Value(Zeros(n), base) == 0
  {
    if n > 0 {
      ValueOfZeros(n - 1, base);
      assert Zeros(n)[..n - 1] == Zeros(n - 1);
    }
  }

  /** Leading zeros do not change the number. */
  lemma {:induction false} ValueWithZeros(n: nat, ds: seq<nat>, base: nat)
    ensures Value(Zeros(n) + ds, base) == Value(ds, base)
  {
    var all := Zeros(n) + ds;
    if ds == [] {
      ValueOfZeros(n, base);
      assert all == Zeros(n);
    } else {
      ValueWithZeros(n, ds[..|ds| - 1], base);
      assert all[..|all| - 1] == Zeros(n) + ds[..|ds| - 1];
    }
  }

  /** Change of base, keeping one zero for every leading zero. */
  function Convert(ds: seq<nat>, from: nat, to: nat): seq<nat>
    requires to >= 2
  {
    Zeros(LeadingZeros(ds)) + Numeral(Value(ds, from), to)
  }

  lemma {:induction false} LeadingZerosOf(n: nat, ds: seq<nat>)
    requires ds != [] ==> ds[0] != 0
    ensures LeadingZeros(Zeros(n) + ds) == n
  {
    if n > 0 {
      LeadingZerosOf(n - 1, ds);
      assert (Zeros(n) + ds)[1..] == Zeros(n - 1) + ds;
    } else {
      assert Zeros(0) + ds == ds;
    }
  }

  /** Changing the base and back gives every numeral again, leading zeros included. */
  lemma ConvertRoundTrip(ds: seq<nat>, from: nat, to: nat)
    requires from >= 2 && to >= 2 && AreDigits(ds, from)
    ensures Convert(Convert(ds, from, to), to, from) == ds
    ensures AreDigits(Convert(ds, from, to), to)
  {
    var z, n := LeadingZeros(ds), Value(ds, from);
    var there := Convert(ds, from, to);
    LeadingZerosOf(z, Numeral(n, to));
    ValueWithZeros(z, Numeral(n, to), to);
    ValueOfNumeral(n, to);
    assert ds == Zeros(z) + ds[z..];
    ValueWithZeros(z, ds[z..], from);
    NumeralOfValue(ds[z..], from);
  }

  /** The conversion is the one list of digits with the number and as many zeros in front. */
  lemma ConvertExactly(es: seq<nat>, ds: seq<nat>, from: nat, to: nat)
    requires to >= 2 && AreDigits(es, to)
    ensures es == Convert(ds, from, to) <==> Value(es, to) == Value(ds, from) && LeadingZeros(es) == LeadingZeros(ds)
  {
    var z, n := LeadingZeros(ds), Value(ds, from);
    LeadingZerosOf(z, Numeral(n, to));
    ValueWithZeros(z, Numeral(n, to), to);
    ValueOfNumeral(n, to);
    var y := LeadingZeros(es);
    assert es == Zeros(y) + es[y..];
    ValueWithZeros(y, es[y..], to);
    NumeralOfValue(es[y..], to);
  }
}
