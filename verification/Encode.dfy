/**
 Base64 (section 4 of RFC 4648), its variant with the alphabet of section 5 and '.' for padding,
 and lower-case hexadecimal (section 8). Shifts and masks of bytes are written as `/`, `*` and `%`.
 */
module Encode {
  import opened Prelude

  /** A 64-letter code: its last two letters and its padding. */
  datatype Code = Code(c62: char, c63: char, pad: char)

  const BASE64: Code := Code('+', '/', '=')
  const ALT64: Code := Code('-', '_', '.')

  predicate Alphanumeric(c: char) {
    'A' <= c <= 'Z' || 'a' <= c <= 'z' || '0' <= c <= '9'
  }

  predicate Proper(code: Code) {
    && code.c62 != code.c63 && code.pad != code.c62 && code.pad != code.c63
    && !Alphanumeric(code.c62) && !Alphanumeric(code.c63) && !Alphanumeric(code.pad)
  }

  function Letter(code: Code, v: nat): char
    requires v < 64
  {
    if v < 26 then 'A' + v as char
    else if v < 52 then 'a' + (v - 26) as char
    else if v < 62 then '0' + (v - 52) as char
    else if v == 62 then code.c62
    else code.c63
  }

  lemma UpperCase(v: nat)
    requires v < 26
    ensures "ABCDEFGHIJKLMNOPQRSTUVWXYZ"[v] == 'A' + v as char
  {
  }

  lemma LowerCase(v: nat)
    requires v < 26
    ensures "abcdefghijklmnopqrstuvwxyz"[v] == 'a' + v as char
  {
  }

  lemma Numerals(v: nat)
    requires v < 10
    ensures "0123456789"[v] == '0' + v as char
  {
  }

  lemma FirstLetters()
    ensures "ABCDEFGHIJKLMNOPQRSTUVWXYZabcdefghijklmnopqrstuvwxyz"
      == "ABCDEFGHIJKLMNOPQRSTUVWXYZ" + "abcdefghijklmnopqrstuvwxyz"
  {
  }

  lemma Base64Table()
    ensures "ABCDEFGHIJKLMNOPQRSTUVWXYZabcdefghijklmnopqrstuvwxyz0123456789+/"
      == "ABCDEFGHIJKLMNOPQRSTUVWXYZabcdefghijklmnopqrstuvwxyz" + "0123456789+/"
  {
  }

  lemma Alt64Table()
    ensures "ABCDEFGHIJKLMNOPQRSTUVWXYZabcdefghijklmnopqrstuvwxyz0123456789-_"
      == "ABCDEFGHIJKLMNOPQRSTUVWXYZabcdefghijklmnopqrstuvwxyz" + "0123456789-_"
  {
  }

  lemma LettersAre(v: nat)
    requires v < 62
    ensures Letter(BASE64, v) == Letter(ALT64, v) == if v < 26 then "ABCDEFGHIJKLMNOPQRSTUVWXYZ"[v]
      else if v < 52 then "abcdefghijklmnopqrstuvwxyz"[v - 26] else "0123456789"[v - 52]
  {
    if v < 26 { UpperCase(v); } else if v < 52 { LowerCase(v - 26); } else { Numerals(v - 52); }
  }

  /** The two alphabets of 64 letters. */
  lemma AlphabetsAre(v: nat)
    requires v < 64
    ensures Letter(BASE64, v) == "ABCDEFGHIJKLMNOPQRSTUVWXYZabcdefghijklmnopqrstuvwxyz0123456789+/"[v]
    ensures Letter(ALT64, v) == "ABCDEFGHIJKLMNOPQRSTUVWXYZabcdefghijklmnopqrstuvwxyz0123456789-_"[v]
  {
    if v < 62 { LettersAre(v); }
    FirstLetters();
    Base64Table();
    Alt64Table();
  }

  /** The first letter from `v` on that is `c`. */
  function IndexFrom(code: Code, c: char, v: nat): (r: Option<nat>)
    requires v <= 64
    ensures r.Some? ==> r.value < 64
    decreases 64 - v
  {
    if v == 64 then None else if Letter(code, v) == c then Some(v) else IndexFrom(code, c, v + 1)
  }

  lemma {:induction false} LetterIndex(code: Code, v: nat, from: nat)
    requires Proper(code) && from <= v < 64
    ensures IndexFrom(code, Letter(code, v), from) == Some(v)
    decreases 64 - from
  {
    if from >= v {
    } else {
      LetterIndex(code, v, from + 1);
    }
  }

  lemma {:induction false} PadIndex(code: Code, from: nat)
    requires Proper(code) && from <= 64
    ensures IndexFrom(code, code.pad, from).None?
    decreases 64 - from
  {
    if from >= 64 {
    } else {
      PadIndex(code, from + 1);
    }
  }

  // ---------------------------------------------------------------- one group

  /** Byte `k` of a group, zero where the source has run out. */
  function Byte(g: Bytes, k: nat): (b: nat)
    ensures b < 256
  {
    if k < |g| then g[k] as nat else 0
  }

  /** The four 6-bit values of a group. */
  function Sextet(g: Bytes, j: nat): (v: nat)
    requires j < 4
    ensures v < 64
  {
    if j == 0 then Byte(g, 0) / 4
    else if j == 1 then Byte(g, 1) / 16 + Byte(g, 0) % 4 * 16
    else if j == 2 then Byte(g, 2) / 64 + Byte(g, 1) % 16 * 4
    else Byte(g, 2) % 64
  }

  /** The four values are the digits to base 64 of the group's 24 bits. */
  lemma SextetsAreDigits(g: Bytes)
    ensures ((Sextet(g, 0) * 64 + Sextet(g, 1)) * 64 + Sextet(g, 2)) * 64 + Sextet(g, 3)
         == (Byte(g, 0) * 256 + Byte(g, 1)) * 256 + Byte(g, 2)
  {
  }

  /** Bit `k` of the source, the highest of each byte first; zero where the source has run out. */
  function Bit(src: Bytes, k: nat): (b: nat)
    ensures b < 2
  {
    Byte(src, k / 8) / [128, 64, 32, 16, 8, 4, 2, 1][k % 8] % 2
  }

  /** The number that the six bits from `k` on spell. */
  function SixBits(src: Bytes, k: nat): (v: nat)
    ensures v < 64
  {
    32 * Bit(src, k) + 16 * Bit(src, k + 1) + 8 * Bit(src, k + 2) + 4 * Bit(src, k + 3)
      + 2 * Bit(src, k + 4) + Bit(src, k + 5)
  }

  lemma Halves(b: nat)
    requires b < 256
    ensures b / 128 % 2 == b / 128
    ensures b / 64 == 2 * (b / 128) + b / 64 % 2
    ensures b / 32 == 2 * (b / 64) + b / 32 % 2
    ensures b / 16 == 2 * (b / 32) + b / 16 % 2
    ensures b / 8 == 2 * (b / 16) + b / 8 % 2
    ensures b / 4 == 2 * (b / 8) + b / 4 % 2
    ensures b / 2 == 2 * (b / 4) + b / 2 % 2
    ensures b == 2 * (b / 2) + b % 2
  {
  }

  lemma BitAt(src: Bytes, m: nat, n: nat)
    requires n < 8
    ensures Bit(src, 8 * m + n) == Byte(src, m) / [128, 64, 32, 16, 8, 4, 2, 1][n] % 2
  {
    assert (8 * m + n) / 8 == m && (8 * m + n) % 8 == n;
  }

  /** The high part of a byte, and the low part, from its bits. */
  lemma ByteBits(src: Bytes, m: nat)
    ensures var b, k := Byte(src, m), 8 * m;
      && b / 64 == 2 * Bit(src, k) + Bit(src, k + 1)
      && b / 16 == 4 * (b / 64) + 2 * Bit(src, k + 2) + Bit(src, k + 3)
      && b / 4 == 4 * (b / 16) + 2 * Bit(src, k + 4) + Bit(src, k + 5)
      && b == 4 * (b / 4) + 2 * Bit(src, k + 6) + Bit(src, k + 7)
  {
    hide Bit, Byte;
    BitAt(src, m, 0); BitAt(src, m, 1); BitAt(src, m, 2); BitAt(src, m, 3);
    BitAt(src, m, 4); BitAt(src, m, 5); BitAt(src, m, 6); BitAt(src, m, 7);
    Halves(Byte(src, m));
  }

  lemma Rests(b: nat)
    ensures b % 4 == b - 4 * (b / 4) && b % 16 == b - 16 * (b / 16) && b % 64 == b - 64 * (b / 64)
  {
  }

  lemma SextetBits(g: Bytes, j: nat)
    requires j < 4
    ensures Sextet(g, j) == SixBits(g, 6 * j)
  {
    hide Bit, Byte;
    ByteBits(g, 0);
    ByteBits(g, 1);
    ByteBits(g, 2);
    Rests(Byte(g, 0));
    Rests(Byte(g, 1));
    Rests(Byte(g, 2));
  }

  function GroupChar(code: Code, g: Bytes, j: nat): char
    requires j < 4
  {
    if j >= 2 && j - 1 >= |g| then code.pad else Letter(code, Sextet(g, j))
  }

  function EncodeGroup(code: Code, g: Bytes): string {
    [GroupChar(code, g, 0), GroupChar(code, g, 1), GroupChar(code, g, 2), GroupChar(code, g, 3)]
  }

  function ValueAt(code: Code, c: char): (v: nat)
    ensures v < 64
  {
    var v := IndexFrom(code, c, 0);
    if v.Some? then v.value else 0
  }

  /** The three bytes of four characters. The first two must be letters; others may be padding. */
  function DecodeGroup(code: Code, t: string): (r: Option<Bytes>)
    requires |t| == 4
    ensures r.Some? ==> |r.value| == 3
  {
    if IndexFrom(code, t[0], 0).None? || IndexFrom(code, t[1], 0).None? then None else
      var v0, v1, v2, v3 := ValueAt(code, t[0]), ValueAt(code, t[1]), ValueAt(code, t[2]), ValueAt(code, t[3]);
      Some([(v0 * 4 + v1 / 16) as byte, (v1 % 16 * 16 + v2 / 4) as byte, (v2 % 4 * 64 + v3) as byte])
  }

  /** The 24 bits that four characters spell; what is no letter counts as zero. */
  function Spelled(code: Code, t: string): nat
    requires |t| == 4
  {
    262144 * ValueAt(code, t[0]) + 4096 * ValueAt(code, t[1]) + 64 * ValueAt(code, t[2]) + ValueAt(code, t[3])
  }

  lemma Regrouped(v0: nat, v1: nat, v2: nat, v3: nat)
    requires v0 < 64 && v1 < 64 && v2 < 64 && v3 < 64
    ensures var n := 262144 * v0 + 4096 * v1 + 64 * v2 + v3;
      n / 65536 == v0 * 4 + v1 / 16 && n / 256 % 256 == v1 % 16 * 16 + v2 / 4 && n % 256 == v2 % 4 * 64 + v3
  {
    var b0, b1, b2 := v0 * 4 + v1 / 16, v1 % 16 * 16 + v2 / 4, v2 % 4 * 64 + v3;
    assert 262144 * v0 + 4096 * v1 + 64 * v2 + v3 == 65536 * b0 + 256 * b1 + b2;
    assert b1 < 256 && b2 < 256;
    ByteDigits(b0, b1, b2);
  }

  lemma ByteDigits(b0: nat, b1: nat, b2: nat)
    requires b1 < 256 && b2 < 256
    ensures var n := 65536 * b0 + 256 * b1 + b2; n / 65536 == b0 && n / 256 % 256 == b1 && n % 256 == b2
  {
    var n := 65536 * b0 + 256 * b1 + b2;
    assert n / 256 == 256 * b0 + b1;
  }

  /** The three bytes of a group are those 24 bits, eight by eight. */
  lemma DecodedGroup(code: Code, t: string)
    requires |t| == 4 && DecodeGroup(code, t).Some?
    ensures var n, r := Spelled(code, t), DecodeGroup(code, t).value;
      r[0] as nat == n / 65536 && r[1] as nat == n / 256 % 256 && r[2] as nat == n % 256
  {
    hide ValueAt;
    Regrouped(ValueAt(code, t[0]), ValueAt(code, t[1]), ValueAt(code, t[2]), ValueAt(code, t[3]));
  }

  /** The value of a character is its place in the alphabet. */
  lemma ValuesAre(v: nat)
    requires v < 64
    ensures IndexFrom(BASE64, "ABCDEFGHIJKLMNOPQRSTUVWXYZabcdefghijklmnopqrstuvwxyz0123456789+/"[v], 0) == Some(v)
    ensures IndexFrom(ALT64, "ABCDEFGHIJKLMNOPQRSTUVWXYZabcdefghijklmnopqrstuvwxyz0123456789-_"[v], 0) == Some(v)
  {
    hide Letter, IndexFrom;
    AlphabetsAre(v);
    LetterIndex(BASE64, v, 0);
    LetterIndex(ALT64, v, 0);
  }

  /** No other character has a value. */
  lemma {:induction false} IndexIs(code: Code, c: char, from: nat)
    requires from <= 64
    ensures var v := IndexFrom(code, c, from); v.Some? ==> from <= v.value && Letter(code, v.value) == c
    decreases 64 - from
  {
    hide Letter;
    if from >= 64 {
    } else {
      IndexIs(code, c, from + 1);
    }
  }

  /** Every character of a group stands for its value; padding stands for the zero that is there. */
  lemma GroupCharValue(code: Code, g: Bytes, j: nat)
    requires Proper(code) && j < 4 && 1 <= |g| <= 3
    ensures ValueAt(code, GroupChar(code, g, j)) == Sextet(g, j)
    ensures j < 2 ==> IndexFrom(code, GroupChar(code, g, j), 0).Some?
  {
    hide Sextet, Proper;
    if j >= 2 && j - 1 >= |g| {
      PadIndex(code, 0);
      NothingThere(g, j);
    } else {
      LetterIndex(code, Sextet(g, j), 0);
    }
  }

  lemma NothingThere(g: Bytes, j: nat)
    requires 2 <= j < 4 && 1 <= |g| <= j - 1
    ensures Sextet(g, j) == 0
  {
  }

  lemma FirstByte(b0: nat, b1: nat)
    requires b0 < 256 && b1 < 256
    ensures b0 / 4 * 4 + (b1 / 16 + b0 % 4 * 16) / 16 == b0
  {
  }

  lemma SecondByte(b0: nat, b1: nat, b2: nat)
    requires b0 < 256 && b1 < 256 && b2 < 256
    ensures (b1 / 16 + b0 % 4 * 16) % 16 * 16 + (b2 / 64 + b1 % 16 * 4) / 4 == b1
  {
    assert (b1 / 16 + b0 % 4 * 16) % 16 == b1 / 16;
    assert (b2 / 64 + b1 % 16 * 4) / 4 == b1 % 16;
  }

  lemma ThirdByte(b1: nat, b2: nat)
    requires b1 < 256 && b2 < 256
    ensures (b2 / 64 + b1 % 16 * 4) % 4 * 64 + b2 % 64 == b2
  {
    assert (b2 / 64 + b1 % 16 * 4) % 4 == b2 / 64;
  }

  lemma GroupTrip(code: Code, g: Bytes)
    requires Proper(code) && 1 <= |g| <= 3
    ensures DecodeGroup(code, EncodeGroup(code, g))
         == Some([Byte(g, 0) as byte, Byte(g, 1) as byte, Byte(g, 2) as byte])
  {
    hide GroupChar, IndexFrom, Proper, ValueAt, Byte;
    GroupCharValue(code, g, 0);
    GroupCharValue(code, g, 1);
    GroupCharValue(code, g, 2);
    GroupCharValue(code, g, 3);
    FirstByte(Byte(g, 0), Byte(g, 1));
    SecondByte(Byte(g, 0), Byte(g, 1), Byte(g, 2));
    ThirdByte(Byte(g, 1), Byte(g, 2));
  }

  /** The bytes of a group that are there. */
  lemma GroupBytes(g: Bytes)
    requires 1 <= |g| <= 3
    ensures [Byte(g, 0) as byte, Byte(g, 1) as byte, Byte(g, 2) as byte][..|g|] == g
  {
    var r := [Byte(g, 0) as byte, Byte(g, 1) as byte, Byte(g, 2) as byte];
    assert forall k | 0 <= k < |g| :: r[k] == g[k];
  }

  // ---------------------------------------------------------------- whole strings

  function Encoded(code: Code, src: Bytes): string {
    if |src| <= 3 then if src == [] then "" else EncodeGroup(code, src)
    else EncodeGroup(code, src[..3]) + Encoded(code, src[3..])
  }

  /** The bytes of group `q`. */
  function GroupAt(src: Bytes, q: nat): Bytes
    requires 3 * q < |src|
  {
    src[3 * q..Min(3 * q + 3, |src|)]
  }

  lemma {:induction false} EncodedGroup(code: Code, src: Bytes, q: nat, j: nat)
    requires 3 * q < |src| && j < 4
    ensures 4 * q + j < |Encoded(code, src)| && Encoded(code, src)[4 * q + j] == GroupChar(code, GroupAt(src, q), j)
  {
    hide GroupChar;
    if |src| <= 3 {
      assert q == 0 && GroupAt(src, q) == src;
    } else if q == 0 {
      assert GroupAt(src, q) == src[..3];
    } else {
      EncodedGroup(code, src[3..], q - 1, j);
      assert GroupAt(src[3..], q - 1) == GroupAt(src, q);
    }
  }

  lemma GroupBit(src: Bytes, q: nat, k: nat)
    requires 3 * q < |src| && k < 24
    ensures Bit(src, 24 * q + k) == Bit(GroupAt(src, q), k)
  {
    assert 24 * q + k == 8 * (3 * q + k / 8) + k % 8;
    BitAt(src, 3 * q + k / 8, k % 8);
  }

  lemma GroupSixBits(src: Bytes, q: nat, k: nat)
    requires 3 * q < |src| && k <= 18
    ensures SixBits(src, 24 * q + k) == SixBits(GroupAt(src, q), k)
  {
    hide Bit, GroupAt;
    GroupBit(src, q, k); GroupBit(src, q, k + 1); GroupBit(src, q, k + 2);
    GroupBit(src, q, k + 3); GroupBit(src, q, k + 4); GroupBit(src, q, k + 5);
    assert 24 * q + k + 1 == 24 * q + (k + 1) && 24 * q + k + 2 == 24 * q + (k + 2);
  }

  /** Character `i` is the letter of the six bits from bit 6 i on, or padding when the source has no such bit. */
  lemma EncodedChar(code: Code, src: Bytes, i: nat)
    requires i < 4 * Groups(|src|)
    ensures i < |Encoded(code, src)|
    ensures Encoded(code, src)[i] == if 6 * i >= 8 * |src| then code.pad else Letter(code, SixBits(src, 6 * i))
  {
    hide Encoded, SixBits, Sextet;
    var q, j := i / 4, i % 4;
    EncodedGroup(code, src, q, j);
    SextetBits(GroupAt(src, q), j);
    GroupSixBits(src, q, 6 * j);
    assert 6 * i == 24 * q + 6 * j;
  }

  /** The same for the two codes in use, with their alphabets written out. */
  lemma EncodedBits(src: Bytes, i: nat)
    requires i < 4 * Groups(|src|)
    ensures i < |Encoded(BASE64, src)| && i < |Encoded(ALT64, src)|
    ensures Encoded(BASE64, src)[i] == if 6 * i >= 8 * |src| then '='
      else "ABCDEFGHIJKLMNOPQRSTUVWXYZabcdefghijklmnopqrstuvwxyz0123456789+/"[SixBits(src, 6 * i)]
    ensures Encoded(ALT64, src)[i] == if 6 * i >= 8 * |src| then '.'
      else "ABCDEFGHIJKLMNOPQRSTUVWXYZabcdefghijklmnopqrstuvwxyz0123456789-_"[SixBits(src, 6 * i)]
  {
    hide Encoded, SixBits, Letter;
    EncodedChar(BASE64, src, i);
    EncodedChar(ALT64, src, i);
    AlphabetsAre(SixBits(src, 6 * i));
  }

  function Groups(n: nat): nat {
    n / 3 + if n % 3 != 0 then 1 else 0
  }

  lemma {:induction false} EncodedLength(code: Code, src: Bytes)
    ensures |Encoded(code, src)| == 4 * Groups(|src|)
  {
    hide Groups, GroupChar;
    GroupsStep(|src|);
    if |src| <= 3 {
    } else {
      EncodedLength(code, src[3..]);
    }
  }

  lemma GroupsStep(n: nat)
    ensures Groups(n) == if n == 0 then 0 else if n <= 3 then 1 else Groups(n - 3) + 1
    ensures n >= 3 ==> (n - 3) % 3 == n % 3
  {
  }

  /** How far the first padding character is from the end. */
  function Padding(code: Code, t: string): nat {
    if t == "" then 0 else if t[0] == code.pad then |t| else Padding(code, t[1..])
  }

  lemma {:induction false} PaddingBehind(code: Code, a: string, b: string)
    requires code.pad !in a
    ensures Padding(code, a + b) == Padding(code, b)
  {
    if a == "" {
      assert a + b == b;
    } else {
      assert (a + b)[1..] == a[1..] + b;
      PaddingBehind(code, a[1..], b);
    }
  }

  lemma LetterIsNoPad(code: Code, v: nat)
    requires Proper(code) && v < 64
    ensures Letter(code, v) != code.pad
  {
  }

  /** As many characters of padding as bytes are missing in the last group. */
  lemma {:induction false} EncodedPadding(code: Code, src: Bytes)
    requires Proper(code)
    ensures Padding(code, Encoded(code, src)) == (3 - |src| % 3) % 3
    ensures forall i | 0 <= i < |Encoded(code, src)| ::
      Encoded(code, src)[i] == code.pad <==> i >= |Encoded(code, src)| - (3 - |src| % 3) % 3
  {
    hide Letter, Proper, Sextet;
    if 0 < |src| <= 3 {
      LastPadding(code, src);
    } else if |src| > 3 {
      var g := EncodeGroup(code, src[..3]);
      EncodedPadding(code, src[3..]);
      LastPadding(code, src[..3]);
      PaddingBehind(code, g, Encoded(code, src[3..]));
    }
  }

  lemma LastPadding(code: Code, g: Bytes)
    requires Proper(code) && 1 <= |g| <= 3
    ensures Padding(code, EncodeGroup(code, g)) == 3 - |g|
    ensures forall i | 0 <= i < 4 :: EncodeGroup(code, g)[i] == code.pad <==> i >= |g| + 1
  {
    hide Letter, Proper, Sextet;
    var t := EncodeGroup(code, g);
    LetterIsNoPad(code, Sextet(g, 0));
    LetterIsNoPad(code, Sextet(g, 1));
    LetterIsNoPad(code, Sextet(g, 2));
    LetterIsNoPad(code, Sextet(g, 3));
    assert forall i | 0 <= i < 4 :: t[i] == GroupChar(code, g, i);
    var a, b := t[..|g| + 1], t[|g| + 1..];
    assert t == a + b && code.pad !in a;
    PaddingBehind(code, a, b);
  }

  /** The groups of a text; of the last one, `padding` bytes are dropped. */
  function DecodeFrom(code: Code, t: string, padding: nat): Option<Bytes>
    requires |t| % 4 == 0 && padding <= 2
  {
    if t == "" then Some([]) else
      var g := DecodeGroup(code, t[..4]);
      var rest := DecodeFrom(code, t[4..], padding);
      if g.None? || rest.None? then None
      else Some((if |t| == 4 then g.value[..3 - padding] else g.value) + rest.value)
  }

  /** A text whose length is no multiple of four is refused; so is one that would decode out of bounds. */
  function Decoded(code: Code, t: string): Option<Bytes> {
    if |t| % 4 != 0 || Padding(code, t) > 2 then None else DecodeFrom(code, t, Padding(code, t))
  }

  /** The first two characters of every group are letters. */
  predicate LettersLead(code: Code, t: string) {
    forall i | 0 <= i < |t| && i % 4 < 2 :: IndexFrom(code, t[i], 0).Some?
  }

  lemma LettersLeadOn(code: Code, t: string)
    requires |t| >= 4
    ensures LettersLead(code, t) <==>
      IndexFrom(code, t[0], 0).Some? && IndexFrom(code, t[1], 0).Some? && LettersLead(code, t[4..])
  {
    hide IndexFrom;
    if LettersLead(code, t) {
      forall i | 0 <= i < |t[4..]| && i % 4 < 2 ensures IndexFrom(code, t[4..][i], 0).Some? {
        assert (i + 4) % 4 == i % 4 && t[4..][i] == t[i + 4];
      }
    }
    if IndexFrom(code, t[0], 0).Some? && IndexFrom(code, t[1], 0).Some? && LettersLead(code, t[4..]) {
      forall i | 0 <= i < |t| && i % 4 < 2 ensures IndexFrom(code, t[i], 0).Some? {
        if i >= 4 { assert (i - 4) % 4 == i % 4 && t[4..][i - 4] == t[i]; }
      }
    }
  }

  /** Which texts decode, and how long the result is. */
  lemma {:induction false} DecodeFromIff(code: Code, t: string, padding: nat)
    requires |t| % 4 == 0 && padding <= 2
    ensures DecodeFrom(code, t, padding).Some? <==> LettersLead(code, t)
    ensures DecodeFrom(code, t, padding).Some? ==>
      |DecodeFrom(code, t, padding).value| == if t == "" then 0 else 3 * (|t| / 4) - padding
  {
    hide IndexFrom, ValueAt, LettersLead;
    if t == "" {
      assert LettersLead(code, t) by { NoLetters(code); }
    } else {
      LettersLeadOn(code, t);
      DecodeFromIff(code, t[4..], padding);
    }
  }

  lemma NoLetters(code: Code)
    ensures LettersLead(code, "")
  {
  }

  lemma {:induction false} DecodeFromAt(code: Code, t: string, padding: nat, m: nat)
    requires |t| % 4 == 0 && padding <= 2 && DecodeFrom(code, t, padding).Some?
    requires m < |DecodeFrom(code, t, padding).value|
    ensures 4 * (m / 3) + 4 <= |t|
    ensures DecodeFrom(code, t, padding).value[m] as nat
      == Spelled(code, t[4 * (m / 3)..4 * (m / 3) + 4]) / [65536, 256, 1][m % 3] % 256
  {
    hide DecodeGroup, Spelled, LettersLead;
    DecodeFromIff(code, t, padding);
    DecodeFromIff(code, t[4..], padding);
    DecodedGroup(code, t[..4]);
    if m < 3 {
      assert t[0..4] == t[..4];
      GroupFits(code, t[..4]);
    } else {
      DecodeFromAt(code, t[4..], padding, m - 3);
      var q := m / 3;
      assert (m - 3) / 3 == q - 1 && (m - 3) % 3 == m % 3;
      assert t[4..][4 * (q - 1)..4 * (q - 1) + 4] == t[4 * q..4 * q + 4];
    }
  }

  lemma GroupFits(code: Code, t: string)
    requires |t| == 4
    ensures Spelled(code, t) < 0x100_0000 && Spelled(code, t) / 65536 % 256 == Spelled(code, t) / 65536
  {
    hide ValueAt;
  }

  /** What decodes, how long it gets, and each byte of it. */
  lemma DecodedIs(code: Code, t: string)
    ensures Decoded(code, t).Some? <==> |t| % 4 == 0 && Padding(code, t) <= 2 && LettersLead(code, t)
    ensures Decoded(code, t).Some? ==>
      && |Decoded(code, t).value| == 3 * (|t| / 4) - Padding(code, t)
      && forall m | 0 <= m < |Decoded(code, t).value| ::
           Decoded(code, t).value[m] as nat
           == Spelled(code, t[4 * (m / 3)..4 * (m / 3) + 4]) / [65536, 256, 1][m % 3] % 256
  {
    hide DecodeFrom, LettersLead, Spelled;
    if |t| % 4 == 0 && Padding(code, t) <= 2 {
      var padding := Padding(code, t);
      DecodeFromIff(code, t, padding);
      if DecodeFrom(code, t, padding).Some? {
        forall m | 0 <= m < |DecodeFrom(code, t, padding).value|
          ensures DecodeFrom(code, t, padding).value[m] as nat
            == Spelled(code, t[4 * (m / 3)..4 * (m / 3) + 4]) / [65536, 256, 1][m % 3] % 256
        {
          DecodeFromAt(code, t, padding, m);
        }
      }
    }
  }

  lemma DecodeLast(code: Code, g: Bytes)
    requires Proper(code) && 1 <= |g| <= 3
    ensures |EncodeGroup(code, g)| == 4 && DecodeFrom(code, EncodeGroup(code, g), 3 - |g|) == Some(g)
  {
    hide DecodeGroup, Proper, GroupChar, Byte;
    var t := EncodeGroup(code, g);
    GroupTrip(code, g);
    GroupBytes(g);
    assert t[..4] == t && t[4..] == "";
    assert DecodeFrom(code, "", 3 - |g|) == Some([]);
    assert g + [] == g;
  }

  lemma DecodeNext(code: Code, g: Bytes, t: string, padding: nat, rest: Bytes)
    requires Proper(code) && |g| == 3 && t != "" && |t| % 4 == 0 && padding <= 2
    requires DecodeFrom(code, t, padding) == Some(rest)
    ensures (|EncodeGroup(code, g) + t|) % 4 == 0
    ensures DecodeFrom(code, EncodeGroup(code, g) + t, padding) == Some(g + rest)
  {
    hide DecodeGroup, Proper, GroupChar, Byte;
    var all := EncodeGroup(code, g) + t;
    GroupTrip(code, g);
    GroupBytes(g);
    assert all[..4] == EncodeGroup(code, g) && all[4..] == t;
    var r := DecodeGroup(code, all[..4]).value;
    assert r == r[..3];
  }

  lemma {:induction false} DecodeFromEncoded(code: Code, src: Bytes)
    requires Proper(code)
    ensures |Encoded(code, src)| % 4 == 0
    ensures DecodeFrom(code, Encoded(code, src), (3 - |src| % 3) % 3) == Some(src)
  {
    hide EncodeGroup, DecodeFrom, Proper, Groups;
    EncodedLength(code, src);
    GroupsStep(|src|);
    if src == [] {
      assert DecodeFrom(code, "", 0) == Some([]) by { DecodeNothing(code); }
    } else if |src| <= 3 {
      DecodeLast(code, src);
    } else {
      GroupsStep(|src| - 3);
      EncodedLength(code, src[3..]);
      DecodeFromEncoded(code, src[3..]);
      DecodeNext(code, src[..3], Encoded(code, src[3..]), (3 - |src| % 3) % 3, src[3..]);
      assert src[..3] + src[3..] == src;
    }
  }

  lemma DecodeNothing(code: Code)
    ensures DecodeFrom(code, "", 0) == Some([])
  {
  }

  /** Decoding undoes encoding, for every byte string. */
  lemma RoundTrip(code: Code, src: Bytes)
    requires Proper(code)
    ensures Decoded(code, Encoded(code, src)) == Some(src)
  {
    hide Encoded, DecodeFrom, Padding, Proper;
    EncodedPadding(code, src);
    DecodeFromEncoded(code, src);
  }

  /** Both codes in use are of this kind. */
  lemma CodesRoundTrip(src: Bytes)
    ensures Decoded(BASE64, Encoded(BASE64, src)) == Some(src)
    ensures Decoded(ALT64, Encoded(ALT64, src)) == Some(src)
  {
    hide Decoded, Encoded;
    RoundTrip(BASE64, src);
    RoundTrip(ALT64, src);
  }

  /** The size that the encoder allocates for the text, computed in 32 bits. */
  function AllocatedSize(length: nat): nat {
    var n := (length / 3 + if length % 3 != 0 then 1 else 0) % 0x1_0000_0000;
    (n * 4 % 0x1_0000_0000 + 1) % 0x1_0000_0000
  }

  /** The size of the text as the decoder's `int` has it. */
  function MeasuredSize(length: nat): int {
    var w := length % 0x1_0000_0000;
    if w < 0x8000_0000 then w else w - 0x1_0000_0000
  }

  /** The code's sizes are those of the text, so that the round trip is the code's, exactly up to this length. */
  lemma SizesFit(length: nat)
    requires length < 0x1_0000_0000
    ensures AllocatedSize(length) == 4 * Groups(length) + 1 && MeasuredSize(4 * Groups(length)) == 4 * Groups(length)
       <==> length <= 0x5fff_fffd
  {
    var n := Groups(length);
    assert n <= 0x1fff_ffff <==> length <= 0x5fff_fffd;
    SizesFitGroups(n);
  }

  lemma SizesFitGroups(n: nat)
    requires n < 0x1_0000_0000
    ensures MeasuredSize(4 * n) == 4 * n <==> n <= 0x1fff_ffff
    ensures n <= 0x1fff_ffff ==> (n * 4 % 0x1_0000_0000 + 1) % 0x1_0000_0000 == 4 * n + 1
  {
    assert 0 <= 4 * n % 0x1_0000_0000 < 0x1_0000_0000;
    if n <= 0x1fff_ffff { assert 4 * n % 0x1_0000_0000 == 4 * n; }
  }

  /** What is left to encode after `i` groups. */
  function From(src: Bytes, i: nat): Bytes {
    src[Min(3 * i, |src|)..]
  }

  lemma NextGroup(code: Code, src: Bytes, i: nat)
    requires 3 * i < |src|
    ensures Encoded(code, From(src, i)) ==
      EncodeGroup(code, src[3 * i..Min(3 * i + 3, |src|)]) + Encoded(code, From(src, i + 1))
  {
    hide EncodeGroup;
    var s, g := From(src, i), src[3 * i..Min(3 * i + 3, |src|)];
    if |s| > 3 {
      assert s[..3] == g && s[3..] == From(src, i + 1);
    } else {
      assert s == g && From(src, i + 1) == [];
    }
  }

  /** `nexus_base64_encode` and `nexus_alt64_encode`: group by group into the output. */
  method EncodeText(code: Code, src: Bytes) returns (text: string)
    ensures text == Encoded(code, src) && |text| == 4 * Groups(|src|)
    ensures forall i | 0 <= i < |text| ::
      text[i] == if 6 * i >= 8 * |src| then code.pad else Letter(code, SixBits(src, 6 * i))
  {
    hide EncodeGroup, Encoded, GroupChar, Letter, SixBits;
    forall i | 0 <= i < 4 * Groups(|src|)
      ensures i < |Encoded(code, src)| && Encoded(code, src)[i]
        == if 6 * i >= 8 * |src| then code.pad else Letter(code, SixBits(src, 6 * i))
    {
      EncodedChar(code, src, i);
    }
    var n := |src| / 3;
    if |src| % 3 != 0 {
      n := n + 1;
    }
    var out := new char[4 * n];
    EncodedLength(code, src);
    assert From(src, 0) == src;
    for i := 0 to n
      invariant out[..4 * i] + Encoded(code, From(src, i)) == Encoded(code, src)
    {
      ghost var before := out[..4 * i];
      var g := src[3 * i..Min(3 * i + 3, |src|)];
      PutGroup(code, g, out, 4 * i);
      NextGroup(code, src, i);
      StringsJoin(before, EncodeGroup(code, g), Encoded(code, From(src, i + 1)));
    }
    assert From(src, n) == [];
    assert Encoded(code, []) == "" by { EncodedNothing(code); }
    text := out[..];
    assert text == out[..4 * n] + "";
  }

  method PutGroup(code: Code, g: Bytes, out: array<char>, at: nat)
    requires at + 4 <= out.Length
    modifies out
    ensures out[..at + 4] == old(out[..at]) + EncodeGroup(code, g)
  {
    hide EncodeGroup, GroupChar;
    for j := 0 to 4
      invariant out[..at] == old(out[..at])
      invariant forall k | 0 <= k < j :: out[at + k] == GroupChar(code, g, k)
    {
      out[at + j] := GroupChar(code, g, j);
    }
    FourChars(code, g, out[at..at + 4]);
    assert out[..at + 4] == out[..at] + out[at..at + 4];
  }

  lemma StringsJoin(a: string, b: string, c: string)
    ensures a + b + c == a + (b + c)
  {
  }

  lemma FourChars(code: Code, g: Bytes, t: string)
    requires |t| == 4 && forall k | 0 <= k < 4 :: t[k] == GroupChar(code, g, k)
    ensures t == EncodeGroup(code, g)
  {
    hide GroupChar;
  }

  lemma EncodedNothing(code: Code)
    ensures Encoded(code, []) == ""
  {
  }

  /** How much of the output `i` groups fill. */
  function Filled(n: nat, padding: nat, i: nat): int {
    if i < n then 3 * i else 3 * n - padding
  }

  function Joined(a: Bytes, r: Option<Bytes>): Option<Bytes> {
    if r.None? then None else Some(a + r.value)
  }

  lemma DecodeStep(code: Code, t: string, padding: nat, done: Bytes)
    requires t != "" && |t| % 4 == 0 && padding <= 2
    ensures var g := DecodeGroup(code, t[..4]);
      Joined(done, DecodeFrom(code, t, padding))
      == if g.None? then None
         else Joined(done + (if |t| == 4 then g.value[..3 - padding] else g.value), DecodeFrom(code, t[4..], padding))
  {
    hide DecodeGroup;
    var g, rest := DecodeGroup(code, t[..4]), DecodeFrom(code, t[4..], padding);
    if g.Some? && rest.Some? {
      var kept := if |t| == 4 then g.value[..3 - padding] else g.value;
      assert done + (kept + rest.value) == done + kept + rest.value;
    }
  }

  method PaddingOf(code: Code, t: string) returns (padding: nat)
    ensures padding == Padding(code, t)
  {
    var i := 0;
    while i < |t| && t[i] != code.pad
      invariant i <= |t| && Padding(code, t) == Padding(code, t[i..])
    {
      i := i + 1;
    }
    padding := |t| - i;
  }

  /** `nexus_base64_decode` and `nexus_alt64_decode`. */
  method DecodeText(code: Code, t: string) returns (r: Option<Bytes>)
    ensures r == Decoded(code, t)
    ensures r.Some? <==> |t| % 4 == 0 && Padding(code, t) <= 2 && LettersLead(code, t)
    ensures r.Some? ==> |r.value| == 3 * (|t| / 4) - Padding(code, t)
    ensures r.Some? ==> forall m | 0 <= m < |r.value| ::
      r.value[m] as nat == Spelled(code, t[4 * (m / 3)..4 * (m / 3) + 4]) / [65536, 256, 1][m % 3] % 256
  {
    hide DecodeFrom, DecodeGroup, Padding, LettersLead, Spelled;
    DecodedIs(code, t);
    if |t| % 4 != 0 {
      return None;
    }
    var n := |t| / 4;
    var padding := PaddingOf(code, t);
    if padding > 2 {
      return None;
    }
    assert n == 0 ==> padding == 0 by { PaddingShort(code, t); }
    var out := new byte[3 * n - padding];
    assert t[0..] == t;
    assert out[..0] == [];
    JoinedNothing(DecodeFrom(code, t, padding));
    for i := 0 to n
      invariant Joined(out[..Filled(n, padding, i)], DecodeFrom(code, t[4 * i..], padding))
        == DecodeFrom(code, t, padding)
    {
      var rest := t[4 * i..];
      ghost var done := out[..3 * i];
      DecodeStep(code, rest, padding, done);
      var g := DecodeGroup(code, rest[..4]);
      if g.None? {
        return None;
      }
      PutBytes(out, i, n, padding, g.value);
      assert rest[4..] == t[4 * (i + 1)..];
      assert |rest| == 4 <==> i + 1 == n;
    }
    assert t[4 * n..] == "";
    DecodeAll(code, padding, out[..Filled(n, padding, n)]);
    r := Some(out[..]);
    assert out[..] == out[..3 * n - padding];
  }

  /** The bytes of group `i`; of the last group only those that padding does not stand for. */
  method PutBytes(out: array<byte>, i: nat, n: nat, padding: nat, g: Bytes)
    requires i < n && padding <= 2 && out.Length == 3 * n - padding && |g| == 3
    modifies out
    ensures out[..Filled(n, padding, i + 1)] == old(out[..3 * i]) + if i + 1 == n then g[..3 - padding] else g
  {
    out[3 * i] := g[0];
    if padding <= 1 || i != n - 1 {
      out[3 * i + 1] := g[1];
    }
    if padding == 0 || i != n - 1 {
      out[3 * i + 2] := g[2];
    }
    var kept := if i + 1 == n then g[..3 - padding] else g;
    assert out[..3 * i] == old(out[..3 * i]) && out[3 * i..3 * i + |kept|] == kept;
    assert out[..3 * i + |kept|] == out[..3 * i] + out[3 * i..3 * i + |kept|];
  }

  lemma PaddingShort(code: Code, t: string)
    ensures t == "" ==> Padding(code, t) == 0
  {
  }

  lemma JoinedNothing(r: Option<Bytes>)
    ensures Joined([], r) == r
  {
    if r.Some? { assert [] + r.value == r.value; }
  }

  lemma DecodeAll(code: Code, padding: nat, done: Bytes)
    requires padding <= 2
    ensures Joined(done, DecodeFrom(code, "", padding)) == Some(done)
  {
    assert done + [] == done;
  }

  // ---------------------------------------------------------------- hexadecimal

  const HEX_MAX: nat := 1024

  function HexDigit(v: nat): char
    requires v < 16
  {
    if v < 10 then '0' + v as char else 'a' + (v - 10) as char
  }

  /** The lookup table, for the characters that are digits. */
  function HexValue(c: char): (r: Option<nat>)
    ensures r.Some? ==> r.value < 16
  {
    if '0' <= c <= '9' then Some((c - '0') as nat)
    else if 'A' <= c <= 'F' then Some((c - 'A') as nat + 10)
    else if 'a' <= c <= 'f' then Some((c - 'a') as nat + 10)
    else None
  }

  function HexEncoded(bs: Bytes): string {
    if bs == [] then "" else [HexDigit(bs[0] as nat / 16), HexDigit(bs[0] as nat % 16)] + HexEncoded(bs[1..])
  }

  /** Pairs of digits; anything else would be read outside the table or the text. */
  function HexPairs(t: string): Option<Bytes> {
    if t == "" then Some([])
    else if |t| == 1 || HexValue(t[0]).None? || HexValue(t[1]).None? then None
    else Joined([(HexValue(t[0]).value * 16 + HexValue(t[1]).value) as byte], HexPairs(t[2..]))
  }

  /** At most 1024 characters are looked at. */
  function HexDecoded(t: string): Option<Bytes> {
    HexPairs(t[..Min(|t|, HEX_MAX)])
  }

  lemma {:induction false} HexPairsOf(bs: Bytes)
    ensures |HexEncoded(bs)| == 2 * |bs| && HexPairs(HexEncoded(bs)) == Some(bs)
  {
    if bs == [] {
    } else {
      var t := HexEncoded(bs);
      HexPairsOf(bs[1..]);
      assert t[2..] == HexEncoded(bs[1..]);
      assert [bs[0]] + bs[1..] == bs;
    }
  }

  lemma {:induction false} HexPrefix(bs: Bytes, k: nat)
    requires k <= |bs|
    ensures |HexEncoded(bs)| == 2 * |bs| && HexEncoded(bs)[..2 * k] == HexEncoded(bs[..k])
  {
    HexPairsOf(bs);
    if k == 0 {
    } else {
      HexPrefix(bs[1..], k - 1);
      assert bs[..k][1..] == bs[1..][..k - 1];
      var t := HexEncoded(bs);
      assert t[..2 * k] == t[..2] + t[2..][..2 * (k - 1)];
    }
  }

  /** The first 512 bytes come back: all of them exactly when there are no more. */
  lemma HexTrip(bs: Bytes)
    ensures HexDecoded(HexEncoded(bs)) == Some(bs[..Min(|bs|, 512)])
    ensures HexDecoded(HexEncoded(bs)) == Some(bs) <==> |bs| <= 512
  {
    hide HexEncoded, HexPairs;
    var k := Min(|bs|, HEX_MAX / 2);
    HexPrefix(bs, k);
    assert |bs| == k ==> bs[..k] == bs;
    HexPairsOf(bs[..k]);
  }

  lemma HexDigitIs(v: nat)
    requires v < 16
    ensures HexDigit(v) == "0123456789abcdef"[v]
  {
  }

  /** The digits, by their place; capital letters count as the small ones, and nothing else is a digit. */
  lemma HexValueIs(c: char)
    ensures var r := HexValue(c);
      if r.Some? then c == "0123456789abcdef"[r.value] || c == "0123456789ABCDEF"[r.value]
      else c !in "0123456789abcdefABCDEF"
  {
  }

  /** Two digits for every byte, the high one first. */
  lemma {:induction false} HexDigitsAt(bs: Bytes, i: nat)
    requires i < |bs|
    ensures |HexEncoded(bs)| == 2 * |bs|
    ensures HexEncoded(bs)[2 * i] == HexDigit(bs[i] as nat / 16)
    ensures HexEncoded(bs)[2 * i + 1] == HexDigit(bs[i] as nat % 16)
  {
    hide HexDigit, HexPairs;
    HexPairsOf(bs);
    if i == 0 {
    } else {
      HexDigitsAt(bs[1..], i - 1);
      HexPairsOf(bs[1..]);
      assert HexEncoded(bs)[2..] == HexEncoded(bs[1..]);
    }
  }

  predicate HexOnly(t: string) {
    forall i | 0 <= i < |t| :: HexValue(t[i]).Some?
  }

  /** Which texts decode, and to what. */
  lemma {:induction false} HexPairsAre(t: string)
    ensures HexPairs(t).Some? <==> |t| % 2 == 0 && HexOnly(t)
    ensures HexPairs(t).Some? ==> |HexPairs(t).value| == |t| / 2 && forall m | 0 <= m < |t| / 2 ::
      HexPairs(t).value[m] as nat == 16 * HexValue(t[2 * m]).value + HexValue(t[2 * m + 1]).value
  {
    hide HexValue;
    if |t| < 2 {
    } else {
      HexPairsAre(t[2..]);
      assert HexOnly(t) <==> HexValue(t[0]).Some? && HexValue(t[1]).Some? && HexOnly(t[2..]) by {
        assert forall i | 2 <= i < |t| :: t[2..][i - 2] == t[i];
      }
      if HexPairs(t).Some? {
        forall m | 1 <= m < |t| / 2
          ensures HexPairs(t).value[m] as nat == 16 * HexValue(t[2 * m]).value + HexValue(t[2 * m + 1]).value
        {
          assert t[2..][2 * (m - 1)] == t[2 * m] && t[2..][2 * (m - 1) + 1] == t[2 * m + 1];
          assert HexPairs(t).value[m] == HexPairs(t[2..]).value[m - 1];
        }
      }
    }
  }

  method HexEncodeText(bs: Bytes) returns (text: string)
    ensures text == HexEncoded(bs) && |text| == 2 * |bs|
    ensures forall i | 0 <= i < |bs| ::
      text[2 * i] == HexDigit(bs[i] as nat / 16) && text[2 * i + 1] == HexDigit(bs[i] as nat % 16)
  {
    hide HexEncoded, HexPairs, HexDigit;
    forall i | 0 <= i < |bs|
      ensures |HexEncoded(bs)| == 2 * |bs| && HexEncoded(bs)[2 * i] == HexDigit(bs[i] as nat / 16)
        && HexEncoded(bs)[2 * i + 1] == HexDigit(bs[i] as nat % 16)
    {
      HexDigitsAt(bs, i);
    }
    HexNothing();
    HexPairsOf(bs);
    var out := new char[2 * |bs|];
    for i := 0 to |bs|
      invariant out[..2 * i] == HexEncoded(bs[..i])
    {
      ghost var before := out[..2 * i];
      out[2 * i], out[2 * i + 1] := HexDigit(bs[i] as nat / 16), HexDigit(bs[i] as nat % 16);
      assert out[..2 * i + 2] == before + [out[2 * i], out[2 * i + 1]];
      HexSnoc(bs[..i], bs[i]);
      assert bs[..i] + [bs[i]] == bs[..i + 1];
    }
    text := out[..];
    assert bs[..|bs|] == bs;
  }

  lemma HexNothing()
    ensures HexEncoded([]) == ""
  {
  }

  lemma {:induction false} HexSnoc(bs: Bytes, b: byte)
    ensures HexEncoded(bs + [b]) == HexEncoded(bs) + [HexDigit(b as nat / 16), HexDigit(b as nat % 16)]
  {
    if bs == [] {
    } else {
      HexSnoc(bs[1..], b);
      assert (bs + [b])[1..] == bs[1..] + [b];
    }
  }

  method HexDecodeText(t: string) returns (r: Option<Bytes>)
    ensures r == HexDecoded(t)
  {
    hide HexValue;
    var len := Min(|t|, HEX_MAX);
    var s := t[..len];
    var out := new byte[len / 2];
    var i := 0;
    assert s[0..] == s && out[..0] == [];
    JoinedNothing(HexPairs(s));
    while i < len
      invariant 0 <= i <= len && i % 2 == 0
      invariant Joined(out[..i / 2], HexPairs(s[i..])) == HexPairs(s)
    {
      assert s[i..][0] == s[i];
      if i + 1 == len || HexValue(s[i]).None? || HexValue(s[i + 1]).None? {
        assert i + 1 < len ==> s[i..][1] == s[i + 1];
        return None;
      }
      assert s[i..][1] == s[i + 1] && s[i..][2..] == s[i + 2..];
      ghost var before := out[..i / 2];
      var b := (HexValue(s[i]).value * 16 + HexValue(s[i + 1]).value) as byte;
      out[i / 2] := b;
      JoinedTwice(before, [b], HexPairs(s[i + 2..]));
      assert out[..i / 2 + 1] == before + [b];
      i := i + 2;
    }
    assert s[len..] == "";
    r := Some(out[..]);
    assert out[..] == out[..len / 2] && out[..] + [] == out[..];
  }

  lemma JoinedTwice(a: Bytes, b: Bytes, r: Option<Bytes>)
    ensures Joined(a, Joined(b, r)) == Joined(a + b, r)
  {
    if r.Some? { assert a + (b + r.value) == a + b + r.value; }
  }
}
