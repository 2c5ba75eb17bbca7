/** The codec against RFC 4648: the URL-safe alphabet of its section 5, and the order in which its
    section 4 puts bits together. */
module Base64Standard {
  import opened Common
  import opened Base64

  // ----- the alphabet

  /** The character of a value: upper-case letters, lower-case letters, digits, minus and underscore. */
  function StandardLetter(v: nat): char
    requires v < 64
  {
    if v < 26 then 'A' + v as char
    else if v < 52 then 'a' + (v - 26) as char
    else if v < 62 then '0' + (v - 52) as char
    else if v == 62 then '-' else '_'
  }

  lemma FirstRow(k: nat)
    requires k < 16
    ensures ALPHABET_ROWS[0][k] == 'A' + k as char
  {
  }

  lemma SecondRow(k: nat)
    requires k < 16
    ensures ALPHABET_ROWS[1][k] == if k < 10 then 'Q' + k as char else 'a' + (k - 10) as char
  {
  }

  lemma ThirdRow(k: nat)
    requires k < 16
    ensures ALPHABET_ROWS[2][k] == 'g' + k as char
  {
  }

  lemma FourthRow(k: nat)
    requires k < 16
    ensures ALPHABET_ROWS[3][k] ==
      if k < 4 then 'w' + k as char else if k < 14 then '0' + (k - 4) as char else if k == 14 then '-' else '_'
  {
  }

  /** The encoder's letters are the standard's. */
  lemma LetterIsStandard(v: nat)
    requires v < 64
    ensures Letter(v) == StandardLetter(v)
  {
    hide Letter;
    LetterInRow(v);
    if v < 16 {
      FirstRow(v);
    } else if v < 32 {
      SecondRow(v - 16);
    } else if v < 48 {
      ThirdRow(v - 32);
    } else {
      FourthRow(v - 48);
    }
  }

  lemma LetterInRow(v: nat)
    requires v < 64
    ensures v / 16 < 4 && Letter(v) == ALPHABET_ROWS[v / 16][v % 16]
  {
  }

  lemma LowRows(r: nat, k: nat)
    requires r < 2 && k < 16
    ensures DECODE_ROWS[r][k] == -1
  {
  }

  lemma MarkRow(k: nat)
    requires k < 16
    ensures DECODE_ROWS[2][k] == if k == 13 then 62 else -1
  {
  }

  lemma DigitRow(k: nat)
    requires k < 16
    ensures DECODE_ROWS[3][k] == if k < 10 then 52 + k else -1
  {
  }

  lemma UpperRows(k: nat)
    requires k < 16
    ensures DECODE_ROWS[4][k] == if k == 0 then -1 else k - 1
    ensures DECODE_ROWS[5][k] == if k < 11 then 15 + k else if k == 15 then 63 else -1
  {
  }

  lemma LowerRows(k: nat)
    requires k < 16
    ensures DECODE_ROWS[6][k] == if k == 0 then -1 else 25 + k
    ensures DECODE_ROWS[7][k] == if k < 11 then 41 + k else -1
  {
  }

  /** The decoder's value of a character; all others are skipped. */
  lemma ValueIsStandard(c: char)
    ensures ValueOf(c) ==
      if 'A' <= c <= 'Z' then c as int - 'A' as int
      else if 'a' <= c <= 'z' then 26 + (c as int - 'a' as int)
      else if '0' <= c <= '9' then 52 + (c as int - '0' as int)
      else if c == '-' then 62 else if c == '_' then 63 else -1
  {
    hide ValueOf;
    ValueInRow(c);
    if c as int < 128 {
      var r, k := c as int / 16, c as int % 16;
      if r < 2 {
        LowRows(r, k);
      } else if r == 2 {
        MarkRow(k);
      } else if r == 3 {
        DigitRow(k);
      } else if r < 6 {
        UpperRows(k);
      } else {
        LowerRows(k);
      }
    }
  }

  lemma ValueInRow(c: char)
    ensures ValueOf(c) == if c as int >= 128 then -1 else DECODE_ROWS[c as int / 16][c as int % 16]
  {
  }

  // ----- the order of the bits

  /** Three bytes, read as one number with the first byte on top, are four groups of six bits, read in
      the same way; missing bytes count as zero. */
  lemma GroupIsBigEndian(s: seq<Byte>, q: nat)
    ensures 65536 * ByteAt(s, 3 * q) + 256 * ByteAt(s, 3 * q + 1) + ByteAt(s, 3 * q + 2)
      == 262144 * Sextet(s, 4 * q) + 4096 * Sextet(s, 4 * q + 1) + 64 * Sextet(s, 4 * q + 2) + Sextet(s, 4 * q + 3)
  {
    SextetsOfGroup(s, q);
    var a, b, c := ByteAt(s, 3 * q), ByteAt(s, 3 * q + 1), ByteAt(s, 3 * q + 2);
    assert a == 4 * (a / 4) + a % 4 && b == 16 * (b / 16) + b % 16 && c == 64 * (c / 64) + c % 64;
  }

  /** The character at each position of an encoding: that of the standard's group, or padding. */
  lemma EncodingIsStandard(s: seq<Byte>, text: string, j: nat)
    requires IsEncoding(s, text) && j < |text|
    ensures |text| % 4 == 0 && 3 * |text| < 4 * |s| + 12 && 4 * |s| <= 3 * |text|
    ensures text[j] == if 6 * j < 8 * |s| then StandardLetter(Sextet(s, j)) else '='
  {
    assert j < SextetCount(|s|) <==> 6 * j < 8 * |s|;
    if j < SextetCount(|s|) {
      LetterIsStandard(Sextet(s, j));
    }
  }

  /** Four values, read as one number with the first on top, are three bytes, read in the same way. */
  lemma BytesAreBigEndian(v: seq<nat>, q: nat)
    requires 4 * q + 3 < |v| && forall k | 0 <= k < |v| :: v[k] < 64
    ensures 3 * q + 2 < 6 * |v| / 8
    ensures 65536 * ByteOf(v, 3 * q) + 256 * ByteOf(v, 3 * q + 1) + ByteOf(v, 3 * q + 2)
      == 262144 * v[4 * q] + 4096 * v[4 * q + 1] + 64 * v[4 * q + 2] + v[4 * q + 3]
    ensures ByteOf(v, 3 * q) < 256 && ByteOf(v, 3 * q + 1) < 256 && ByteOf(v, 3 * q + 2) < 256
  {
    assert 6 * |v| / 8 >= 3 * q + 3;
    ByteOfGroup(v, q, 0);
    ByteOfGroup(v, q, 1);
    ByteOfGroup(v, q, 2);
    JoinValues(v[4 * q], v[4 * q + 1], v[4 * q + 2], v[4 * q + 3]);
  }

  lemma JoinValues(v0: nat, v1: nat, v2: nat, v3: nat)
    requires v0 < 64 && v1 < 64 && v2 < 64 && v3 < 64
    ensures var a, b, c := v0 * 4 + v1 / 16, v1 % 16 * 16 + v2 / 4, v2 % 4 * 64 + v3;
      && a < 256 && b < 256 && c < 256
      && 65536 * a + 256 * b + c == 262144 * v0 + 4096 * v1 + 64 * v2 + v3
  {
    assert v1 == 16 * (v1 / 16) + v1 % 16 && v2 == 4 * (v2 / 4) + v2 % 4;
  }

  /** Bytes that are complete do not depend on the values that follow; so the bytes of an incomplete last
      group are those of the group filled up in any way. */
  lemma BytesOfPrefix(v: seq<nat>, w: seq<nat>, k: nat)
    requires v <= w && k < 6 * |v| / 8
    ensures k < 6 * |w| / 8 && ByteOf(w, k) == ByteOf(v, k)
  {
    ByteOfPrefix(v, w, k);
  }

  // ----- which characters count

  lemma {:induction false} ValuesOfPrefix(a: string, b: string, e: nat)
    requires e <= |a|
    ensures Values(a + b, e) == Values(a, e)
  {
    if e > 0 {
      ValuesOfPrefix(a, b, e - 1);
      assert (a + b)[e - 1] == a[e - 1];
    }
  }

  /** Characters give their values one after another, and those outside the alphabet give none. */
  lemma ValuesOfOneMore(a: string, c: char)
    ensures Values("", 0) == []
    ensures Values(a + [c], |a| + 1) == Values(a, |a|) + if ValueOf(c) == -1 then [] else [ValueOf(c)]
  {
    ValuesOfPrefix(a, [c], |a|);
  }

  /** Only what precedes the first padding sign counts. */
  lemma EndIsPadding(text: string, e: nat)
    requires e <= |text| && (e < |text| ==> text[e] == '=') && forall k | 0 <= k < e :: text[k] != '='
    ensures EndOf(text, 0) == e && Values(text, e) == Values(text[..e], e)
  {
    ValuesOfPrefix(text[..e], text[e..], e);
    assert text[..e] + text[e..] == text;
  }
}
