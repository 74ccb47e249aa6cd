/** The numbers that the reader works out by moving the point are those that the grammar says in powers of ten. */
module JsonNumbers {
  import opened Bytes
  import opened JsonGrammar
  import opened JsonReading
  import JsonText

  lemma {:induction false} NextTen(x: real, k: nat)
    ensures x * Ten(k + 1) == (x * 10.0) * Ten(k)
  {
    assert JsonText.Pow10(k + 1) == 10 * JsonText.Pow10(k);
    assert Ten(k + 1) == 10.0 * Ten(k);
    assert x * (10.0 * Ten(k)) == (x * 10.0) * Ten(k);
  }

  /** Moving the point to the right multiplies by a power of ten. */
  lemma {:induction false} ShiftRight(x: real, k: nat)
    ensures Shift(x, k) == x * Ten(k)
    decreases k
  {
    if k > 0 {
      ShiftRight(x * 10.0, k - 1);
      NextTen(x, k - 1);
    }
  }

  /** Moving it to the left divides by one. */
  lemma {:induction false} ShiftLeft(x: real, k: nat)
    ensures Shift(x, 0 - k) * Ten(k) == x
    decreases k
  {
    if k > 0 {
      var y, t := Shift(x, 0 - k), Ten(k - 1);
      ShiftLeft(x / 10.0, k - 1);
      NextTen(y, k - 1);
      assert y * t == x / 10.0;
      Swap(y, 10.0, t);
    }
  }

  lemma Distribute(w: real, part: real, p: real, f: real)
    requires part * p == f
    ensures (w + part) * p == w * p + f
  {
  }

  lemma Swap(a: real, b: real, c: real)
    ensures (a * b) * c == (a * c) * b && a * (b * c) == (a * c) * b
  {
  }

  lemma MovedRight(m: real, x: real, p: real, e: real, digits: real)
    requires p > 0.0 && x * p == digits
    ensures m == x * e <==> m * p == digits * e
  {
    Swap(x, e, p);
    Cancel(m, x * e, p);
  }

  lemma MovedLeft(m: real, z: real, p: real, e: real, digits: real)
    requires p > 0.0 && e > 0.0 && (z * e) * p == digits
    ensures m == z <==> m * (p * e) == digits
  {
    Swap(z, p, e);
    Positive(p, e);
    Cancel(m, z, p * e);
  }

  lemma Positive(p: real, e: real)
    requires p > 0.0 && e > 0.0
    ensures p * e > 0.0
  {
  }

  lemma Cancel(a: real, b: real, c: real)
    requires c > 0.0
    ensures a == b <==> a * c == b * c
  {
    if a != b {
      Positive(if a > b then a - b else b - a, c);
    }
  }

  /** Moving the point as the exponent says is multiplying by its power of ten. */
  lemma {:induction false} ShiftedIff(m: real, x: real, digits: real, places: nat, exponent: int)
    requires x * Ten(places) == digits
    ensures m == Shift(x, exponent) <==> Denotes(m, digits, places, exponent)
  {
    var s := Shifted(x, exponent);
    if exponent >= 0 {
      UpIff(m, x, s, digits, places, exponent);
    } else {
      DownIff(m, x, s, digits, places, -exponent);
    }
  }

  lemma {:induction false} Shifted(x: real, exponent: int) returns (s: real)
    ensures s == Shift(x, exponent)
    ensures if exponent >= 0 then s == x * Ten(exponent) else s * Ten(-exponent) == x
  {
    s := Shift(x, exponent);
    if exponent >= 0 {
      ShiftRight(x, exponent);
    } else {
      ShiftLeft(x, -exponent);
    }
  }

  lemma {:induction false} UpIff(m: real, x: real, s: real, digits: real, places: nat, k: nat)
    requires x * Ten(places) == digits && s == x * Ten(k)
    ensures m == s <==> Denotes(m, digits, places, k)
  {
    MovedRight(m, x, Ten(places), Ten(k), digits);
  }

  lemma {:induction false} DownIff(m: real, x: real, s: real, digits: real, places: nat, k: nat)
    requires x * Ten(places) == digits && s * Ten(k) == x && k > 0
    ensures m == s <==> Denotes(m, digits, places, 0 - k)
  {
    MovedLeft(m, s, Ten(places), Ten(k), digits);
  }

  lemma ToReal(w: nat, p: nat, f: nat)
    ensures (w * p + f) as real == w as real * p as real + f as real
  {
  }

  lemma {:induction false} PointIn(w: nat, f: nat, part: real, places: nat, all: nat) returns (x: real)
    requires part * Ten(places) == f as real && all == w * JsonText.Pow10(places) + f
    ensures x == w as real + part && x * Ten(places) == all as real
  {
    Distribute(w as real, part, Ten(places), f as real);
    ToReal(w, JsonText.Pow10(places), f);
    x := w as real + part;
  }

  lemma {:induction false} PartIs(f: nat, places: nat) returns (part: real)
    ensures part == Shift(f as real, 0 - places) && part * Ten(places) == f as real
  {
    part := Shift(f as real, 0 - places);
    ShiftLeft(f as real, places);
  }

  lemma {:induction false} ScaledIff(negative: bool, value: real, w: nat, f: nat, places: nat, all: nat, exponent: int)
    requires all == w * JsonText.Pow10(places) + f
    ensures value == Scaled(negative, w, f, places, exponent)
       <==> Denotes(if negative then -value else value, all as real, places, exponent)
  {
    var part := PartIs(f, places);
    var x := PointIn(w, f, part, places, all);
    ShiftedIff(if negative then -value else value, x, all as real, places, exponent);
  }

  /** A number is worth what the reader works out by moving the point. */
  lemma {:induction false} WorthIff(n: Numeral)
    requires NumeralForm(n)
    ensures Worth(n) <==> n.value == Scaled(n.negative, Decimal(n.whole), Decimal(n.fraction), |n.fraction|,
                                            ExponentValue(n.exponent))
  {
    DecimalJoins(n.whole, n.fraction);
    ScaledIff(n.negative, n.value, Decimal(n.whole), Decimal(n.fraction), |n.fraction|, Decimal(n.whole + n.fraction),
              ExponentValue(n.exponent));
  }

  /** What a number is worth: its digits around the point make an integer, and that times its power of ten. */
  lemma {:induction false} NumeralWorth(n: Numeral) returns (digits: nat)
    requires NumeralOk(n)
    ensures digits == Decimal(n.whole) * JsonText.Pow10(|n.fraction|) + Decimal(n.fraction)
    ensures Denotes(if n.negative then -n.value else n.value, digits as real, |n.fraction|, ExponentValue(n.exponent))
  {
    Weighed(n);
    DecimalJoins(n.whole, n.fraction);
    digits := Decimal(n.whole + n.fraction);
  }

  /** Digits are read in base ten, the highest first. */
  lemma {:induction false} DecimalJoins(a: bytes, b: bytes)
    requires AllDigits(a) && AllDigits(b)
    ensures AllDigits(a + b) && Decimal(a + b) == Decimal(a) * JsonText.Pow10(|b|) + Decimal(b)
    ensures |b| == 1 ==> Decimal(b) == b[0] - 0x30
    decreases |b|
  {
    if b == [] {
      assert a + [] == a;
    } else {
      var front := b[..|b| - 1];
      assert (a + b)[..|a + b| - 1] == a + front;
      DecimalJoins(a, front);
      Tenfold(Decimal(a), JsonText.Pow10(|front|), Decimal(front));
    }
  }

  lemma Tenfold(x: nat, y: nat, z: nat)
    ensures (x * y + z) * 10 == x * (10 * y) + z * 10
  {
  }
}
