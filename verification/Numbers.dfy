/** Integers as decimal text, and as the doubles they are read back as. */
module Numbers {
  import opened Common

  // ----- text

  function Digit(d: nat): char
    requires d < 10
  {
    '0' + d as char
  }

  function Natural(v: nat): (s: string)
    ensures s != [] && forall k | 0 <= k < |s| :: '0' <= s[k] <= '9'
  {
    if v < 10 then [Digit(v)] else Natural(v / 10) + [Digit(v % 10)]
  }

  function Decimal(z: int): string {
    if z < 0 then "-" + Natural(-z) else Natural(z)
  }

  predicate IsNatural(s: string) {
    s != "" && forall k | 0 <= k < |s| :: '0' <= s[k] <= '9'
  }

  /** An integer: digits, with a minus sign in front or not. */
  predicate IsInteger(s: string) {
    if s != "" && s[0] == '-' then IsNatural(s[1..]) else IsNatural(s)
  }

  function DigitsValue(s: string): nat
    requires forall k | 0 <= k < |s| :: '0' <= s[k] <= '9'
  {
    if s == "" then 0 else 10 * DigitsValue(s[..|s| - 1]) + (s[|s| - 1] as int - '0' as int)
  }

  function IntegerOf(s: string): int
    requires IsInteger(s)
  {
    if s[0] == '-' then 0 - DigitsValue(s[1..]) else DigitsValue(s)
  }

  /** Decimal notation: a digit stands for itself, and one more digit makes ten times as much and adds
      its value. */
  lemma DigitsAreDecimal(s: string, c: char)
    requires '0' <= c <= '9' && forall k | 0 <= k < |s| :: '0' <= s[k] <= '9'
    ensures DigitsValue("") == 0 && DigitsValue(s + [c]) == 10 * DigitsValue(s) + (c as int - '0' as int)
    ensures |s| == 0 || s[0] != '-'
  {
    assert (s + [c])[..|s|] == s;
  }

  lemma {:induction false} DigitsOfNatural(v: nat)
    ensures DigitsValue(Natural(v)) == v
  {
    if v < 10 {
      assert [Digit(v)][..0] == "";
    } else {
      DigitsOfNatural(v / 10);
      assert Natural(v)[..|Natural(v)| - 1] == Natural(v / 10);
    }
  }

  /** Reading the decimal text of an integer gives it back. */
  lemma IntegerOfDecimal(z: int)
    ensures IsInteger(Decimal(z)) && IntegerOf(Decimal(z)) == z
  {
    if z < 0 {
      DigitsOfNatural(-z);
      assert Decimal(z)[1..] == Natural(-z);
    } else {
      DigitsOfNatural(z);
    }
  }

  // ----- doubles

  const SIGNIFICAND: nat := 0x20_0000_0000_0000

  /** The distance between neighbouring doubles around m: those have 53 significant bits. */
  function Spacing(m: nat): (u: nat)
    ensures u == 1 || 0 < u <= m
  {
    if m < SIGNIFICAND then 1 else 2 * Spacing(m / 2)
  }

  /** The double nearest to m; of two equally near ones, the even one. */
  function Nearest(m: nat): nat {
    var u := Spacing(m);
    var q, r := m / u, m % u;
    if 2 * r < u || (2 * r == u && q % 2 == 0) then q * u else (q + 1) * u
  }

  function Abs(z: int): nat { if z < 0 then -z else z }

  function ToDouble(z: int): int {
    if z < 0 then 0 - Nearest(Abs(z)) else Nearest(Abs(z))
  }

  predicate Representable(z: int) { Abs(z) % Spacing(Abs(z)) == 0 }

  lemma QuotientParts(m: nat, u: nat)
    requires u > 0
    ensures m == m / u * u + m % u && (m / u + 1) * u == m / u * u + u
  {
    assert m == u * (m / u) + m % u;
  }

  lemma NearestExactIff(m: nat)
    ensures Nearest(m) == m <==> m % Spacing(m) == 0
    ensures Nearest(m) <= 2 * m + 1
  {
    var u := Spacing(m);
    QuotientParts(m, u);
  }

  /** An integer is read back as itself exactly when 53 significant bits can hold it; all below
      2^53 can. */
  lemma ToDoubleExactIff(z: int)
    ensures ToDouble(z) == z <==> Representable(z)
    ensures Abs(z) < SIGNIFICAND ==> Representable(z)
  {
    NearestExactIff(Abs(z));
  }

  lemma ToDoubleBound(z: int, limit: nat)
    requires Abs(z) <= limit
    ensures Abs(ToDouble(z)) <= 2 * limit + 1
  {
    NearestExactIff(Abs(z));
  }

  // ----- conversion of text

  /** What is asked of the library's conversion: on the text of an integer of up to 64 bits it gives
      the nearest double. */
  ghost predicate ConvertsIntegers(stod: string -> Option<real>) {
    forall s | IsInteger(s) && Abs(IntegerOf(s)) < UINT64 :: stod(s) == Some(ToDouble(IntegerOf(s)) as real)
  }

  /** A conversion that reads integers, and nothing else. */
  function ReadInteger(s: string): Option<real> {
    if IsInteger(s) then Some(ToDouble(IntegerOf(s)) as real) else None
  }

  lemma ReadIntegerConverts()
    ensures ConvertsIntegers(ReadInteger)
  {
  }

  lemma ConvertsDecimal(stod: string -> Option<real>, z: int)
    requires ConvertsIntegers(stod) && Abs(z) < UINT64
    ensures stod(Decimal(z)) == Some(ToDouble(z) as real)
  {
    IntegerOfDecimal(z);
  }
}
