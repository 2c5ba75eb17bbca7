/** What "the nearest double" means, for whole numbers: those with at most 53 significant bits, the nearest
    of them, and the even one of two that are equally near. */
module Doubles {
  import opened Common
  import opened Numbers

  function Pow2(e: nat): (p: nat)
    ensures p > 0
  {
    if e == 0 then 1 else 2 * Pow2(e - 1)
  }

  /** m is a number of at most 53 bits, followed by zeros. */
  ghost predicate HasSignificand(m: nat) {
    exists k: nat, e: nat :: Scaled(m, k, e)
  }

  ghost predicate Scaled(m: nat, k: nat, e: nat) {
    k < 0x20_0000_0000_0000 && m == k * Pow2(e)
  }

  // ----- arithmetic of powers

  lemma {:induction false} PowersDivide(e: nat, f: nat) returns (c: nat)
    requires e <= f
    ensures c > 0 && Pow2(f) == c * Pow2(e) && (e < f ==> c >= 2)
    decreases f - e
  {
    if e == f {
      c := 1;
    } else {
      c := PowersDivide(e, f - 1);
      Regroup(2, c, Pow2(e));
      c := 2 * c;
    }
  }

  lemma Regroup(a: nat, b: nat, c: nat)
    ensures a * (b * c) == (a * b) * c
  {
  }

  lemma Grow(a: nat, b: nat, c: nat)
    requires a <= b
    ensures a * c <= b * c
  {
    assert (b - a) * c >= 0;
  }

  lemma GrowStrictly(a: nat, b: nat, c: nat)
    requires a < b && c > 0
    ensures a * c < b * c
  {
    assert (b - a) * c > 0;
  }

  lemma Between(a: nat, q: nat, u: nat)
    requires u > 0 && q * u < a * u
    ensures (q + 1) * u <= a * u
  {
    if a <= q {
      Grow(a, q, u);
    } else {
      Grow(q + 1, a, u);
    }
  }

  lemma MultipleHasNoRest(a: nat, u: nat)
    requires u > 0
    ensures a * u % u == 0
  {
    QuotientParts(a * u, u);
    var q, r := a * u / u, a * u % u;
    if r != 0 {
      assert q * u < a * u;
      Between(a, q, u);
    }
  }

  /** The spacing around m is the power of two that leaves 53 bits of it. */
  lemma {:induction false} SpacingIsPower(m: nat) returns (e: nat)
    ensures Spacing(m) == Pow2(e) && m < SIGNIFICAND * Pow2(e)
    ensures e > 0 ==> m >= SIGNIFICAND / 2 * Pow2(e)
  {
    if m < SIGNIFICAND {
      e := 0;
    } else {
      e := SpacingIsPower(m / 2);
      if e == 0 {
        assert m / 2 >= SIGNIFICAND / 2;
      }
      assert SIGNIFICAND * (2 * Pow2(e)) == 2 * (SIGNIFICAND * Pow2(e));
      assert SIGNIFICAND / 2 * (2 * Pow2(e)) == 2 * (SIGNIFICAND / 2 * Pow2(e));
      e := e + 1;
    }
  }

  // ----- the theorems

  /** Representable are exactly the numbers with at most 53 significant bits. */
  lemma RepresentableIff(z: int)
    ensures Representable(z) <==> HasSignificand(Abs(z))
  {
    var m := Abs(z);
    var e := SpacingIsPower(m);
    var u := Spacing(m);
    if m % u == 0 {
      QuotientParts(m, u);
      if m / u >= SIGNIFICAND {
        Grow(SIGNIFICAND, m / u, u);
      }
      assert Scaled(m, m / u, e);
    }
    if HasSignificand(m) {
      var k: nat, f: nat :| Scaled(m, k, f);
      if e <= f {
        var c := PowersDivide(e, f);
        Regroup(k, c, u);
        MultipleHasNoRest(k * c, u);
      } else {
        TooFine(m, k, f, e);
      }
    }
  }

  /** A number with a smaller exponent than its spacing would be too small. */
  lemma TooFine(m: nat, k: nat, f: nat, e: nat)
    requires Scaled(m, k, f) && f < e
    ensures m < SIGNIFICAND / 2 * Pow2(e)
  {
    var c := PowersDivide(f, e);
    GrowStrictly(k, SIGNIFICAND, Pow2(f));
    Regroup(SIGNIFICAND / 2, c, Pow2(f));
    Grow(SIGNIFICAND, SIGNIFICAND / 2 * c, Pow2(f));
  }

  /** Between two neighbouring multiples of the spacing there is no other double. */
  lemma NoneBetween(m: nat, y: nat)
    requires HasSignificand(y)
    ensures var u := Spacing(m); y <= m / u * u || m / u * u + u <= y
  {
    var e := SpacingIsPower(m);
    var u := Spacing(m);
    var q := m / u;
    QuotientParts(m, u);
    var k: nat, f: nat :| Scaled(y, k, f);
    if e <= f {
      var c := PowersDivide(e, f);
      Regroup(k, c, u);
      if q * u < y {
        Between(k * c, q, u);
      }
    } else {
      TooFine(y, k, f, e);
      MultipleBelow(m, SIGNIFICAND / 2, u);
    }
  }

  lemma MultipleBelow(m: nat, h: nat, u: nat)
    requires u > 0 && m >= h * u
    ensures m / u * u >= h * u
  {
    QuotientParts(m, u);
    if m / u < h {
      Grow(m / u + 1, h, u);
    } else {
      Grow(h, m / u, u);
    }
  }

  /** What an integer is rounded to is a double. */
  lemma NearestIsDouble(m: nat)
    ensures HasSignificand(Nearest(m))
  {
    var e := SpacingIsPower(m);
    var u := Spacing(m);
    var q := m / u;
    QuotientParts(m, u);
    if q >= SIGNIFICAND {
      Grow(SIGNIFICAND, q, u);
    }
    MultipleIsDouble(q, e);
    MultipleIsDouble(q + 1, e);
  }

  lemma MultipleIsDouble(q: nat, e: nat)
    requires q <= SIGNIFICAND
    ensures HasSignificand(q * Pow2(e))
  {
    if q < SIGNIFICAND {
      assert Scaled(q * Pow2(e), q, e);
    } else {
      Regroup(SIGNIFICAND / 2, 2, Pow2(e));
      assert Scaled(q * Pow2(e), SIGNIFICAND / 2, e + 1);
    }
  }

  /** Rounding m = low + r to low or low + u, when y is not strictly between these two. */
  lemma RoundedIsNearest(m: nat, low: nat, u: nat, r: nat, even: bool, y: nat)
    requires m == low + r && r < u && (y <= low || low + u <= y)
    ensures var near := if 2 * r < u || (2 * r == u && even) then low else low + u;
      && Abs(near - m) <= Abs(y - m)
      && (Abs(near - m) == Abs(y - m) && y != near ==> 2 * r == u)
  {
  }

  /** No double is nearer than the one an integer is rounded to; and where another is equally near, the
      integer is rounded to the one that is an even multiple of the spacing. */
  lemma NearestIsNearest(m: nat, y: nat)
    requires HasSignificand(y)
    ensures Abs(Nearest(m) - m) <= Abs(y - m)
    ensures Abs(Nearest(m) - m) == Abs(y - m) && y != Nearest(m) ==> Nearest(m) / Spacing(m) % 2 == 0
  {
    hide HasSignificand, Spacing, Abs;
    NoneBetween(m, y);
    var u := Spacing(m);
    var q, r := m / u, m % u;
    QuotientParts(m, u);
    QuotientOfMultiple(q, u);
    QuotientOfMultiple(q + 1, u);
    RoundedIsNearest(m, q * u, u, r, q % 2 == 0, y);
    EvenIsChosen(q);
  }

  lemma EvenIsChosen(q: nat)
    ensures (if q % 2 == 0 then q else q + 1) % 2 == 0
  {
  }

  lemma QuotientOfMultiple(a: nat, u: nat)
    requires u > 0
    ensures a * u / u == a
  {
    MultipleHasNoRest(a, u);
    QuotientParts(a * u, u);
    var q := a * u / u;
    if q < a {
      GrowStrictly(q, a, u);
    } else if a < q {
      GrowStrictly(a, q, u);
    }
  }
}
