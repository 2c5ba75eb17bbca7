/** The URL-safe base64 codec: two bit accumulators over a 32-bit word that wraps around. */
module Base64 {

  import opened Common

  type Byte = x: nat | x < 256

  /** The URL-safe alphabet, in rows of sixteen characters. */
  const ALPHABET_ROWS: seq<string> := ["ABCDEFGHIJKLMNOP", "QRSTUVWXYZabcdef", "ghijklmnopqrstuv", "wxyz0123456789-_"]

  function Letter(v: nat): char
    requires v < 64
  {
    ALPHABET_ROWS[v / 16][v % 16]
  }

  /** The decoding table, in rows of sixteen entries; -1 marks characters outside the alphabet. */
  const DECODE_ROWS: seq<seq<int>> := [
    [-1, -1, -1, -1, -1, -1, -1, -1, -1, -1, -1, -1, -1, -1, -1, -1],
    [-1, -1, -1, -1, -1, -1, -1, -1, -1, -1, -1, -1, -1, -1, -1, -1],
    [-1, -1, -1, -1, -1, -1, -1, -1, -1, -1, -1, -1, -1, 62, -1, -1],
    [52, 53, 54, 55, 56, 57, 58, 59, 60, 61, -1, -1, -1, -1, -1, -1],
    [-1,  0,  1,  2,  3,  4,  5,  6,  7,  8,  9, 10, 11, 12, 13, 14],
    [15, 16, 17, 18, 19, 20, 21, 22, 23, 24, 25, -1, -1, -1, -1, 63],
    [-1, 26, 27, 28, 29, 30, 31, 32, 33, 34, 35, 36, 37, 38, 39, 40],
    [41, 42, 43, 44, 45, 46, 47, 48, 49, 50, 51, -1, -1, -1, -1, -1]]

  /** The right shift of a word. */
  function Shift(val: nat, k: nat): nat {
    if k == 0 then val else Shift(val / 2, k - 1)
  }

  lemma ShiftValues(val: nat)
    ensures Shift(val, 0) == val && Shift(val, 2) == val / 4 && Shift(val, 4) == val / 16 && Shift(val, 6) == val / 64
  {
    ShiftBy2(val, 0);
    ShiftBy2(val, 2);
    ShiftBy2(val, 4);
    ShiftBy2(val / 4, 0);
    ShiftBy2(val / 4, 2);
    ShiftBy2(val / 16, 0);
  }

  lemma ShiftBy2(val: nat, k: nat)
    ensures Shift(val, k + 2) == Shift(val / 4, k)
  {
    assert val / 2 / 2 == val / 4;
    assert Shift(val, k + 2) == Shift(val / 2, k + 1);
  }

  // ----- the encoding

  function ByteAt(s: seq<Byte>, i: nat): nat {
    if i < |s| then s[i] else 0
  }

  /** The j-th group of six bits of a byte string, padded with zero bits. */
  function Sextet(s: seq<Byte>, j: nat): (v: nat)
    ensures v < 64
  {
    var b := j / 4 * 3;
    match j % 4
    case 0 => ByteAt(s, b) / 4
    case 1 => ByteAt(s, b) % 4 * 16 + ByteAt(s, b + 1) / 16
    case 2 => ByteAt(s, b + 1) % 16 * 4 + ByteAt(s, b + 2) / 64
    case _ => ByteAt(s, b + 2) % 64
  }

  /** How many groups of six bits n bytes take. */
  function SextetCount(n: nat): nat { (4 * n + 2) / 3 }

  /** The encoding of section 5 of RFC 4648: one character for each six bits, then padding up to a
      multiple of four characters. */
  ghost predicate IsEncoding(s: seq<Byte>, text: string) {
    && |text| == (|s| + 2) / 3 * 4
    && (forall j | 0 <= j < SextetCount(|s|) :: text[j] == Letter(Sextet(s, j)))
    && forall j | SextetCount(|s|) <= j < |text| :: text[j] == '='
  }

  // ----- arithmetic on the accumulated word

  lemma Mod64(x: nat, q: nat, r: nat)
    requires x == 64 * q + r && r < 64
    ensures x % 64 == r
  {
  }

  lemma Mod256(x: nat, q: nat, r: nat)
    requires x == 256 * q + r && r < 256
    ensures x % 256 == r
  {
  }

  /** Only the low sixteen bits matter to the next four groups. */
  lemma LowBits(val: nat)
    ensures val % 64 == val % 65536 % 64 && val / 4 % 64 == val % 65536 / 4 % 64
    ensures val / 16 % 64 == val % 65536 / 16 % 64 && val / 64 % 64 == val % 65536 / 64 % 64
  {
    var h, v := val / 65536, val % 65536;
    assert val / 4 == 16384 * h + v / 4 && val / 16 == 4096 * h + v / 16 && val / 64 == 1024 * h + v / 64;
    Mod64(val, 1024 * h + v / 64, v % 64);
    Mod64(val / 4, 256 * h + v / 4 / 64, v / 4 % 64);
    Mod64(val / 16, 64 * h + v / 16 / 64, v / 16 % 64);
    Mod64(val / 64, 16 * h + v / 64 / 64, v / 64 % 64);
  }

  lemma GroupsOfPair(a: nat, b: nat)
    requires a < 256 && b < 256
    ensures (a * 256 + b) / 4 % 64 == b / 4 && (a * 256 + b) % 64 == b % 64
    ensures (a * 256 + b) / 16 % 64 == a % 4 * 16 + b / 16
    ensures (a * 256 + b) / 64 % 64 == a % 16 * 4 + b / 64
  {
    SixBitsAcross4(a, b);
    SixBitsAcross2(a, b);
    var t := b / 4;
    assert t < 64 && (a * 256 + b) / 4 == 64 * a + t;
    Mod64(64 * a + t, a, t);
    Mod64(a * 256 + b, 4 * a + b / 64, b % 64);
  }

  lemma SixBitsAcross4(a: nat, b: nat)
    requires a < 256 && b < 256
    ensures (a * 256 + b) / 16 % 64 == a % 4 * 16 + b / 16
  {
    var t := b / 16;
    assert t < 16 && (a * 256 + b) / 16 == 16 * a + t;
    Mod64(16 * a + t, a / 4, 16 * (a % 4) + t);
  }

  lemma SixBitsAcross2(a: nat, b: nat)
    requires a < 256 && b < 256
    ensures (a * 256 + b) / 64 % 64 == a % 16 * 4 + b / 64
  {
    var t := b / 64;
    assert t < 4 && (a * 256 + b) / 64 == 4 * a + t;
    Mod64(4 * a + t, a / 16, 4 * (a % 16) + t);
  }

  /** Shifting in eight bits and losing the topmost leaves the low bits as they were. */
  lemma ShiftIn8(val: nat, c: nat)
    requires c < 256
    ensures (val * 256 + c) % UINT32 % 65536 == val % 256 * 256 + c
  {
    var w := val * 256 + c;
    var a, b := val / 256, val % 256;
    var k, r := w / UINT32, w % UINT32;
    assert w == 65536 * a + (256 * b + c);
    assert r == 65536 * (a - 65536 * k) + (256 * b + c);
  }

  lemma ShiftIn6(val: nat, c: nat)
    requires c < 64
    ensures (val * 64 + c) % UINT32 % 4096 == val % 64 * 64 + c
  {
    var w := val * 64 + c;
    var a, b := val / 64, val % 64;
    var k, r := w / UINT32, w % UINT32;
    assert w == 4096 * a + (64 * b + c);
    assert r == 4096 * (a - 1048576 * k) + (64 * b + c);
  }

  lemma ShiftOut(val: nat) returns (m: nat)
    ensures val * 256 % UINT32 == 256 * m && m % 256 == val % 256
  {
    var k := val * 256 / UINT32;
    m := val - 0x100_0000 * k;
  }

  lemma PartialGroup4(m: nat, b: nat)
    requires m % 256 == b
    ensures 256 * m / 16 % 64 == b % 4 * 16
  {
    var h, r := m / 256, b % 4;
    assert m == 256 * h + b && b == 4 * (b / 4) + r;
    Mod64(16 * m, 64 * h + b / 4, 16 * r);
  }

  lemma PartialGroup2(m: nat, b: nat)
    requires m % 256 == b
    ensures 256 * m / 64 % 64 == b % 16 * 4
  {
    var h, r := m / 256, b % 16;
    assert m == 256 * h + b && b == 16 * (b / 16) + r;
    Mod64(4 * m, 16 * h + b / 16, 4 * r);
  }

  // ----- the encoder

  /** The low sixteen bits of the word are the last two bytes read. */
  ghost predicate HoldsBytes(s: seq<Byte>, i: nat, val: nat) {
    && (i == 0 ==> val == 0)
    && (0 < i <= |s| ==> val % 65536 == Before(s, i) * 256 + ByteAt(s, i - 1))
  }

  /** The byte before the last of the first i, or zero. */
  function Before(s: seq<Byte>, i: nat): (b: nat)
    ensures b < 256
  {
    if i > 1 then ByteAt(s, i - 2) else 0
  }

  lemma TakeByte(s: seq<Byte>, i: nat, val: nat)
    requires i < |s| && HoldsBytes(s, i, val)
    ensures HoldsBytes(s, i + 1, (val * 256 + s[i]) % UINT32)
  {
    ShiftIn8(val, s[i]);
    if i > 0 {
      Mod256(val, val / 65536 * 256 + Before(s, i), ByteAt(s, i - 1));
    }
  }

  /** What the inner loop emits is the next group of six bits. */
  lemma EmitsSextet(s: seq<Byte>, i: nat, j: nat, val: nat, valb: nat)
    requires i < |s| && HoldsBytes(s, i + 1, val) && 8 * (i + 1) == 6 * (j + 1) + valb && valb < 8
    ensures Shift(val, valb) % 64 == Sextet(s, j)
  {
    ShiftValues(val);
    GroupsOfWord(val, Before(s, i + 1), ByteAt(s, i));
    Positions(i, j, valb);
    SextetAt(s, i, j, valb);
  }

  lemma GroupsOfWord(val: nat, a: nat, b: nat)
    requires a < 256 && b < 256 && val % 65536 == a * 256 + b
    ensures val / 4 % 64 == b / 4 && val % 64 == b % 64
    ensures val / 16 % 64 == a % 4 * 16 + b / 16 && val / 64 % 64 == a % 16 * 4 + b / 64
  {
    LowBits(val);
    GroupsOfPair(a, b);
  }

  /** A group in terms of the byte it ends in and the one before. */
  lemma SextetAt(s: seq<Byte>, i: nat, j: nat, valb: nat)
    requires valb == 2 ==> j % 4 == 0 && j / 4 * 3 == i
    requires valb == 4 ==> j % 4 == 1 && j / 4 * 3 + 1 == i
    requires valb == 6 ==> j % 4 == 2 && j / 4 * 3 + 2 == i
    requires valb == 0 ==> j % 4 == 3 && j / 4 * 3 + 2 == i
    ensures valb == 2 ==> Sextet(s, j) == ByteAt(s, i) / 4
    ensures valb == 4 ==> Sextet(s, j) == Before(s, i + 1) % 4 * 16 + ByteAt(s, i) / 16
    ensures valb == 6 ==> Sextet(s, j) == Before(s, i + 1) % 16 * 4 + ByteAt(s, i) / 64
    ensures valb == 0 ==> Sextet(s, j) == ByteAt(s, i) % 64
  {
  }

  /** Where a group lies when the i-th byte has just been read. */
  lemma Positions(i: nat, j: nat, valb: nat)
    requires 8 * (i + 1) == 6 * (j + 1) + valb && valb < 8
    ensures valb == 2 ==> j % 4 == 0 && j / 4 * 3 == i
    ensures valb == 4 ==> j % 4 == 1 && j / 4 * 3 + 1 == i
    ensures valb == 6 ==> j % 4 == 2 && j / 4 * 3 + 2 == i
    ensures valb == 0 ==> j % 4 == 3 && j / 4 * 3 + 2 == i
    ensures valb % 2 == 0
  {
    var q := j / 4;
    assert j == 4 * q + j % 4;
  }

  lemma LastByte(s: seq<Byte>, val: nat)
    requires s != [] && HoldsBytes(s, |s|, val)
    ensures val % 256 == ByteAt(s, |s| - 1)
  {
    Mod256(val, val / 65536 * 256 + Before(s, |s|), ByteAt(s, |s| - 1));
  }

  /** Where the partial group lies. */
  lemma PartialPosition(n: nat, j: nat, valb: int) returns (q: nat)
    requires 8 * n == 6 * (j + 1) + valb && -6 < valb < 0
    ensures (valb == -4 && n == 3 * q + 1 && j == 4 * q + 1) || (valb == -2 && n == 3 * q + 2 && j == 4 * q + 2)
  {
    q := n / 3;
  }

  /** The bits that are there are the last byte's. */
  lemma PartialSextet(s: seq<Byte>, q: nat)
    ensures |s| == 3 * q + 1 ==> Sextet(s, 4 * q + 1) == ByteAt(s, |s| - 1) % 4 * 16
    ensures |s| == 3 * q + 2 ==> Sextet(s, 4 * q + 2) == ByteAt(s, |s| - 1) % 16 * 4
  {
    assert (4 * q + 1) / 4 == q && (4 * q + 2) / 4 == q;
  }

  /** The last, partial group, whose missing bits are zero. */
  lemma EmitsPartial(s: seq<Byte>, j: nat, val: nat, valb: int)
    requires s != [] && HoldsBytes(s, |s|, val) && 8 * |s| == 6 * (j + 1) + valb && -6 < valb < 0
    ensures Shift(val * 256 % UINT32, valb + 8) % 64 == Sextet(s, j)
  {
    LastByte(s, val);
    var q := PartialPosition(|s|, j, valb);
    PartialSextet(s, q);
    ShiftValues(val * 256 % UINT32);
    var m := ShiftOut(val);
    hide HoldsBytes, Sextet, Shift;
    if valb == -4 {
      PartialGroup4(m, ByteAt(s, |s| - 1));
    } else {
      PartialGroup2(m, ByteAt(s, |s| - 1));
    }
  }

  /** Character j stands for the j-th group of six bits. */
  ghost predicate Spells(s: seq<Byte>, text: string) {
    forall j | 0 <= j < |text| :: text[j] == Letter(Sextet(s, j))
  }

  lemma SpellsMore(s: seq<Byte>, text: string, v: nat)
    requires Spells(s, text) && v == Sextet(s, |text|)
    ensures Spells(s, text + [Letter(v)])
  {
    var more := text + [Letter(v)];
    forall j: nat | j < |more|
      ensures more[j] == Letter(Sextet(s, j))
    {
      if j < |text| {
        assert more[j] == text[j];
      }
    }
  }

  method Encode(input: seq<Byte>) returns (output: string)
    ensures IsEncoding(input, output)
  {
    output := "";
    var val: nat := 0;
    var valb: int := -6;
    for i := 0 to |input|
      invariant -6 <= valb < 0 && 8 * i == 6 * |output| + valb + 6
      invariant HoldsBytes(input, i, val) && Spells(input, output)
    {
      TakeByte(input, i, val);
      val := (val * 256 + input[i]) % UINT32;
      valb := valb + 8;
      while valb >= 0
        invariant -6 <= valb < 8 && 8 * (i + 1) == 6 * |output| + valb + 6
        invariant Spells(input, output)
      {
        EmitsSextet(input, i, |output|, val, valb);
        SpellsMore(input, output, Shift(val, valb) % 64);
        output := output + [Letter(Shift(val, valb) % 64)];
        valb := valb - 6;
      }
    }
    if valb > -6 {
      EmitsPartial(input, |output|, val, valb);
      SpellsMore(input, output, Shift(val * 256 % UINT32, valb + 8) % 64);
      output := output + [Letter(Shift(val * 256 % UINT32, valb + 8) % 64)];
    }
    output := Pad(input, output);
  }

  method Pad(ghost s: seq<Byte>, text: string) returns (output: string)
    requires |text| == SextetCount(|s|) && Spells(s, text)
    ensures IsEncoding(s, output)
  {
    output := text;
    while |output| % 4 != 0
      invariant |text| <= |output| <= (|s| + 2) / 3 * 4 && output[..|text|] == text
      invariant forall j | |text| <= j < |output| :: output[j] == '='
      decreases (|s| + 2) / 3 * 4 - |output|
    {
      output := output + "=";
    }
  }

  // ----- the decoding

  /** The value of a character of the alphabet; -1 for any other. */
  function ValueOf(c: char): int {
    if c as int >= 128 then -1 else DECODE_ROWS[c as int / 16][c as int % 16]
  }

  lemma RowInverts(r: nat, k: nat)
    requires r < 4 && k < 16
    ensures ALPHABET_ROWS[r][k] != '=' && ValueOf(ALPHABET_ROWS[r][k]) == 16 * r + k
  {
    match r
    case 0 =>
    case 1 =>
    case 2 =>
    case _ =>
  }

  /** The table inverts the alphabet. */
  lemma TableInverts(v: nat)
    requires v < 64
    ensures Letter(v) != '=' && ValueOf(Letter(v)) == v
  {
    RowInverts(v / 16, v % 16);
  }

  lemma RowInRange(r: nat, k: nat)
    requires r < 8 && k < 16
    ensures -1 <= DECODE_ROWS[r][k] < 64
  {
    match r
    case 0 =>
    case 1 =>
    case 2 =>
    case 3 =>
    case 4 =>
    case 5 =>
    case 6 =>
    case _ =>
  }

  lemma ValueInRange(c: char)
    ensures -1 <= ValueOf(c) < 64
  {
    if c as int < 128 {
      RowInRange(c as int / 16, c as int % 16);
    }
  }

  /** Where the text ends: at the first padding sign, if there is one. */
  function EndOf(text: string, i: nat): (e: nat)
    requires i <= |text|
    ensures i <= e <= |text| && (e < |text| ==> text[e] == '=') && forall k | i <= k < e :: text[k] != '='
    decreases |text| - i
  {
    if i == |text| || text[i] == '=' then i else EndOf(text, i + 1)
  }

  /** The six-bit values of the first e characters; those outside the alphabet are skipped. */
  function Values(text: string, e: nat): (v: seq<nat>)
    requires e <= |text|
    ensures forall k | 0 <= k < |v| :: v[k] < 64
  {
    if e == 0 then []
    else
      ValueInRange(text[e - 1]);
      if ValueOf(text[e - 1]) == -1 then Values(text, e - 1)
      else Values(text, e - 1) + [ValueOf(text[e - 1])]
  }

  /** The k-th byte that a string of six-bit values spells. */
  function ByteOf(v: seq<nat>, k: nat): nat
    requires k < 6 * |v| / 8
  {
    var b := k / 3 * 4;
    match k % 3
    case 0 => v[b] * 4 + v[b + 1] / 16
    case 1 => v[b + 1] % 16 * 16 + v[b + 2] / 4
    case _ => v[b + 2] % 4 * 64 + v[b + 3]
  }

  /** The bytes that a text stands for. */
  ghost predicate IsDecoding(text: string, bytes: seq<Byte>) {
    var v := Values(text, EndOf(text, 0));
    |bytes| == 6 * |v| / 8 && forall k | 0 <= k < |bytes| :: bytes[k] == ByteOf(v, k)
  }

  /** The low twelve bits of the word are the last two values read. */
  ghost predicate HoldsValues(v: seq<nat>, val: nat) {
    && (v == [] ==> val == 0)
    && (|v| == 1 ==> val % 4096 == v[0])
    && (|v| > 1 ==> val % 4096 == v[|v| - 2] * 64 + v[|v| - 1])
  }

  lemma TakeValue(v: seq<nat>, val: nat, x: nat)
    requires HoldsValues(v, val) && x < 64 && forall k | 0 <= k < |v| :: v[k] < 64
    ensures HoldsValues(v + [x], (val * 64 + x) % UINT32)
  {
    ShiftIn6(val, x);
    if |v| > 0 {
      var last := v[|v| - 1];
      Mod64(val, val / 4096 * 64 + if |v| > 1 then v[|v| - 2] else 0, last);
    }
  }

  lemma ByteBits(val: nat, p: nat, c: nat)
    requires val % 4096 == p * 64 + c && p < 64 && c < 64
    ensures val / 16 % 256 == p * 4 + c / 16
    ensures val / 4 % 256 == p % 16 * 16 + c / 4
    ensures val % 256 == p % 4 * 64 + c
  {
    var h := val / 4096;
    assert val == 4096 * h + (p * 64 + c);
    assert val / 16 == 256 * h + (p * 4 + c / 16);
    Mod256(val / 16, h, p * 4 + c / 16);
    assert val / 4 == 1024 * h + (p * 16 + c / 4);
    Mod256(val / 4, 4 * h + p / 16, p % 16 * 16 + c / 4);
    Mod256(val, 16 * h + p / 4, p % 4 * 64 + c);
  }

  /** What the loop emits after a value is the next byte. */
  lemma EmitsByte(v: seq<nat>, k: nat, val: nat, valb: nat)
    requires HoldsValues(v, val) && |v| > 1 && forall i | 0 <= i < |v| :: v[i] < 64
    requires 6 * |v| == 8 * (k + 1) + valb && valb < 6
    ensures k < 6 * |v| / 8 && Shift(val, valb) % 256 == ByteOf(v, k)
  {
    ShiftValues(val);
    ByteBits(val, v[|v| - 2], v[|v| - 1]);
    BytePositions(|v|, k, valb);
  }

  lemma BytePositions(m: nat, k: nat, valb: nat)
    requires 6 * m == 8 * (k + 1) + valb && valb < 6
    ensures valb == 4 ==> k % 3 == 0 && k / 3 * 4 + 2 == m
    ensures valb == 2 ==> k % 3 == 1 && k / 3 * 4 + 3 == m
    ensures valb == 0 ==> k % 3 == 2 && k / 3 * 4 + 4 == m
    ensures valb % 2 == 0
  {
    var q := k / 3;
    assert k == 3 * q + k % 3;
  }

  /** The bytes emitted so far are the first ones that v spells. */
  ghost predicate Spelt(v: seq<nat>, bytes: seq<Byte>) {
    |bytes| <= 6 * |v| / 8 && forall k | 0 <= k < |bytes| :: bytes[k] == ByteOf(v, k)
  }

  lemma SpeltGrows(v: seq<nat>, x: nat, bytes: seq<Byte>)
    requires Spelt(v, bytes)
    ensures Spelt(v + [x], bytes)
  {
    var w := v + [x];
    assert 6 * |v| / 8 <= 6 * |w| / 8;
    forall k | 0 <= k < |bytes|
      ensures ByteOf(w, k) == ByteOf(v, k)
    {
      ByteOfPrefix(v, w, k);
    }
  }

  lemma ByteOfPrefix(v: seq<nat>, w: seq<nat>, k: nat)
    requires v <= w && k < 6 * |v| / 8 && k < 6 * |w| / 8
    ensures ByteOf(w, k) == ByteOf(v, k)
  {
    assert forall i | 0 <= i < |v| :: w[i] == v[i];
  }

  /** The decoder's state after the values v. */
  ghost predicate Decoding(v: seq<nat>, val: nat, valb: int, bytes: seq<Byte>) {
    && -8 <= valb < 0 && 6 * |v| == 8 * |bytes| + valb + 8
    && HoldsValues(v, val) && Spelt(v, bytes)
    && forall k | 0 <= k < |v| :: v[k] < 64
  }

  /** One value is shifted in, and a byte comes out when eight bits are there. */
  method PushValue(val: nat, valb: int, bytes: seq<Byte>, x: nat, ghost v: seq<nat>)
    returns (val': nat, valb': int, bytes': seq<Byte>)
    requires Decoding(v, val, valb, bytes) && x < 64
    ensures Decoding(v + [x], val', valb', bytes')
  {
    ghost var w := v + [x];
    TakeValue(v, val, x);
    SpeltGrows(v, x, bytes);
    val', valb', bytes' := (val * 64 + x) % UINT32, valb + 6, bytes;
    if valb' >= 0 {
      EmitsByte(w, |bytes|, val', valb');
      bytes' := bytes + [Shift(val', valb') % 256];
      valb' := valb' - 8;
    }
  }

  method Decode(input: string) returns (output: seq<Byte>)
    ensures IsDecoding(input, output)
  {
    output := [];
    var val: nat := 0;
    var valb: int := -8;
    ghost var v: seq<nat> := [];
    var i := 0;
    while i < |input|
      invariant i <= |input| && v == Values(input, i) && EndOf(input, i) == EndOf(input, 0)
      invariant Decoding(v, val, valb, output)
    {
      var c := input[i];
      if c == '=' { break; }
      i := i + 1;
      var x := ValueOf(c);
      if x == -1 { continue; }
      ValueInRange(c);
      val, valb, output := PushValue(val, valb, output, x, v);
      v := v + [x];
    }
  }

  // ----- the round trip

  lemma {:induction false} EndAt(text: string, n: nat, i: nat)
    requires i <= n <= |text| && (n < |text| ==> text[n] == '=')
    requires forall j | 0 <= j < n :: text[j] != '='
    ensures EndOf(text, i) == n
    decreases n - i
  {
    if i < n {
      EndAt(text, n, i + 1);
    }
  }

  lemma {:induction false} ValuesAre(text: string, w: seq<nat>, e: nat)
    requires e <= |w| <= |text|
    requires forall j | 0 <= j < |w| :: ValueOf(text[j]) == w[j]
    ensures Values(text, e) == w[..e]
  {
    if e > 0 {
      ValuesAre(text, w, e - 1);
      assert w[..e] == w[..e - 1] + [w[e - 1]];
    }
  }

  /** All the groups of six bits of a byte string. */
  function Sextets(s: seq<Byte>): seq<nat> {
    seq(SextetCount(|s|), j requires 0 <= j => Sextet(s, j))
  }

  /** What an encoding is read back as. */
  lemma ValuesOfEncoding(s: seq<Byte>, text: string)
    requires IsEncoding(s, text)
    ensures Values(text, EndOf(text, 0)) == Sextets(s)
  {
    var n, w := SextetCount(|s|), Sextets(s);
    forall j: nat | j < n
      ensures text[j] != '=' && ValueOf(text[j]) == w[j]
    {
      TableInverts(Sextet(s, j));
    }
    EndAt(text, n, 0);
    ValuesAre(text, w, n);
    assert w[..n] == w;
  }

  /** Bits cut at six and put together again at eight. */
  lemma Rejoin(a: nat, b: nat, c: nat, v0: nat, v1: nat, v2: nat, v3: nat)
    requires a < 256 && b < 256 && c < 256
    requires v0 == a / 4 && v1 == a % 4 * 16 + b / 16 && v2 == b % 16 * 4 + c / 64 && v3 == c % 64
    ensures v0 * 4 + v1 / 16 == a && v1 % 16 * 16 + v2 / 4 == b && v2 % 4 * 64 + v3 == c
  {
    assert v1 / 16 == a % 4 && v1 % 16 == b / 16;
    assert v2 / 4 == b % 16 && v2 % 4 == c / 64;
  }

  /** The bytes of a group of four values. */
  lemma ByteOfGroup(v: seq<nat>, q: nat, r: nat)
    requires r < 3 && 3 * q + r < 6 * |v| / 8
    ensures 4 * q + r + 1 < |v|
    ensures r == 0 ==> ByteOf(v, 3 * q + r) == v[4 * q] * 4 + v[4 * q + 1] / 16
    ensures r == 1 ==> ByteOf(v, 3 * q + r) == v[4 * q + 1] % 16 * 16 + v[4 * q + 2] / 4
    ensures r == 2 ==> ByteOf(v, 3 * q + r) == v[4 * q + 2] % 4 * 64 + v[4 * q + 3]
  {
    var k := 3 * q + r;
    assert k / 3 == q && k % 3 == r;
  }

  lemma SextetsSpellGroup(s: seq<Byte>, v: seq<nat>, q: nat, r: nat)
    requires r < 3 && 3 * q + r < 6 * |v| / 8
    requires forall j: nat | j < |v| :: v[j] == Sextet(s, j)
    ensures ByteOf(v, 3 * q + r) == ByteAt(s, 3 * q + r)
  {
    var g := 4 * q;
    ByteOfGroup(v, q, r);
    SextetsOfGroup(s, q);
    var v0, v1, v2, v3 := Sextet(s, g), Sextet(s, g + 1), Sextet(s, g + 2), Sextet(s, g + 3);
    Rejoin(ByteAt(s, 3 * q), ByteAt(s, 3 * q + 1), ByteAt(s, 3 * q + 2), v0, v1, v2, v3);
    if r == 0 {
      assert v[g] == v0 && v[g + 1] == v1;
    } else if r == 1 {
      assert v[g + 1] == v1 && v[g + 2] == v2;
    } else {
      assert v[g + 2] == v2 && v[g + 3] == v3;
    }
  }

  lemma SextetsSpellByte(s: seq<Byte>, v: seq<nat>, k: nat)
    requires k < |s| && k < 6 * |v| / 8
    requires forall j: nat | j < |v| :: v[j] == Sextet(s, j)
    ensures ByteOf(v, k) == s[k]
  {
    var q, r := k / 3, k % 3;
    SextetsSpellGroup(s, v, q, r);
    assert 3 * q + r == k;
  }

  lemma SextetsOfGroup(s: seq<Byte>, q: nat)
    ensures Sextet(s, 4 * q) == ByteAt(s, 3 * q) / 4
    ensures Sextet(s, 4 * q + 1) == ByteAt(s, 3 * q) % 4 * 16 + ByteAt(s, 3 * q + 1) / 16
    ensures Sextet(s, 4 * q + 2) == ByteAt(s, 3 * q + 1) % 16 * 4 + ByteAt(s, 3 * q + 2) / 64
    ensures Sextet(s, 4 * q + 3) == ByteAt(s, 3 * q + 2) % 64
  {
    assert 4 * q / 4 == (4 * q + 1) / 4 == (4 * q + 2) / 4 == (4 * q + 3) / 4 == q;
  }

  lemma BytesInSextets(n: nat)
    ensures 6 * SextetCount(n) / 8 == n
  {
    var c := SextetCount(n);
    assert 4 * n <= 3 * c <= 4 * n + 2;
  }

  /** Decoding the encoding of any byte string gives that string back. */
  lemma DecodeInvertsEncode(s: seq<Byte>, text: string, bytes: seq<Byte>)
    requires IsEncoding(s, text) && IsDecoding(text, bytes)
    ensures bytes == s
  {
    ValuesOfEncoding(s, text);
    BytesInSextets(|s|);
    BytesOfSextets(s, Sextets(s), bytes);
  }

  lemma BytesOfSextets(s: seq<Byte>, v: seq<nat>, bytes: seq<Byte>)
    requires |bytes| == |s| == 6 * |v| / 8
    requires forall j: nat | j < |v| :: v[j] == Sextet(s, j)
    requires forall k | 0 <= k < |bytes| :: bytes[k] == ByteOf(v, k)
    ensures bytes == s
  {
    forall k: nat | k < |s|
      ensures bytes[k] == s[k]
    {
      SextetsSpellByte(s, v, k);
    }
  }

  /** The two loops undo each other. */
  method RoundTrip(s: seq<Byte>) returns (bytes: seq<Byte>)
    ensures bytes == s
  {
    var text := Encode(s);
    bytes := Decode(text);
    DecodeInvertsEncode(s, text, bytes);
  }
}
