/** utf8.ValidString, against the encoding of section 3 of RFC 3629. */
module Utf8 {
  import opened ByteStrings

  predicate Between(c: Byte, lo: int, hi: int) { lo <= c as int <= hi }

  predicate Tail(c: Byte) { Between(c, 0x80, 0xBF) }

  /** The length of the well-formed sequence s starts with (section 4 of RFC 3629), 0 when there is none. */
  function SequenceLength(s: GoString): (n: nat)
    ensures n <= |s|
  {
    if |s| >= 1 && Between(s[0], 0x00, 0x7F) then 1
    else if |s| >= 2 && Between(s[0], 0xC2, 0xDF) && Tail(s[1]) then 2
    else if |s| >= 3 && Triple(s[0], s[1]) && Tail(s[2]) then 3
    else if |s| >= 4 && Quadruple(s[0], s[1]) && Tail(s[2]) && Tail(s[3]) then 4
    else 0
  }

  predicate Triple(a: Byte, b: Byte) {
    || (a as int == 0xE0 && Between(b, 0xA0, 0xBF))
    || (Between(a, 0xE1, 0xEC) && Tail(b))
    || (a as int == 0xED && Between(b, 0x80, 0x9F))
    || (Between(a, 0xEE, 0xEF) && Tail(b))
  }

  predicate Quadruple(a: Byte, b: Byte) {
    || (a as int == 0xF0 && Between(b, 0x90, 0xBF))
    || (Between(a, 0xF1, 0xF3) && Tail(b))
    || (a as int == 0xF4 && Between(b, 0x80, 0x8F))
  }

  predicate Valid(s: GoString)
    decreases |s|
  {
    s == [] || (SequenceLength(s) > 0 && Valid(s[SequenceLength(s)..]))
  }

  /** A Unicode scalar value. */
  type Rune = r: int | 0 <= r <= 0x10FFFF && !(0xD800 <= r <= 0xDFFF)

  function EncodeRune(r: Rune): GoString {
    if r < 0x80 then [r as char]
    else if r < 0x800 then [(0xC0 + r / 64) as char, (0x80 + r % 64) as char]
    else if r < 0x10000 then
      [(0xE0 + r / 4096) as char, (0x80 + r / 64 % 64) as char, (0x80 + r % 64) as char]
    else
      [(0xF0 + r / 262144) as char, (0x80 + r / 4096 % 64) as char,
       (0x80 + r / 64 % 64) as char, (0x80 + r % 64) as char]
  }

  /** The payload bits of the sequence, most significant first, are the scalar value (section 3 of RFC 3629). */
  lemma RuneBits(r: Rune)
    ensures var s := EncodeRune(r);
            && (r < 0x80 ==> |s| == 1 && r == s[0] as int)
            && (0x80 <= r < 0x800 ==> |s| == 2 && r == (s[0] as int - 0xC0) * 64 + (s[1] as int - 0x80))
            && (0x800 <= r < 0x10000 ==>
                  |s| == 3 && r == (s[0] as int - 0xE0) * 4096 + (s[1] as int - 0x80) * 64 + (s[2] as int - 0x80))
            && (0x10000 <= r ==>
                  && |s| == 4
                  && r == (s[0] as int - 0xF0) * 262144 + (s[1] as int - 0x80) * 4096
                          + (s[2] as int - 0x80) * 64 + (s[3] as int - 0x80))
  {
    assert r == r / 64 * 64 + r % 64;
    assert r / 64 == r / 4096 * 64 + r / 64 % 64;
    assert r / 4096 == r / 262144 * 64 + r / 4096 % 64;
  }

  function EncodeAll(runes: seq<Rune>): GoString {
    if runes == [] then [] else EncodeRune(runes[0]) + EncodeAll(runes[1..])
  }

  lemma RuneIsSequence(r: Rune, rest: GoString)
    ensures SequenceLength(EncodeRune(r) + rest) == |EncodeRune(r)|
  {
    var s := EncodeRune(r);
    if 0x800 <= r < 0x10000 {
      assert Triple(s[0], s[1]);
    } else if r >= 0x10000 {
      assert Quadruple(s[0], s[1]);
    }
    OnlyTheFirstBytesCount(s, rest);
  }

  lemma OnlyTheFirstBytesCount(s: GoString, rest: GoString)
    requires SequenceLength(s) == |s| > 0
    ensures SequenceLength(s + rest) == |s|
  {
    assert forall i :: 0 <= i < |s| ==> (s + rest)[i] == s[i];
  }

  lemma Digit64(q: nat, d: nat)
    requires d < 64
    ensures (64 * q + d) / 64 == q && (64 * q + d) % 64 == d
  {
  }

  /** Digits in base 64. */
  lemma Digits(x: nat, y: nat, z: nat, w: nat)
    requires y < 64 && z < 64 && w < 64
    ensures var r := x * 262144 + y * 4096 + z * 64 + w;
            r / 262144 == x && r / 4096 % 64 == y && r / 64 % 64 == z && r % 64 == w
  {
    var xy := 64 * x + y;
    var xyz := 64 * xy + z;
    var r := 64 * xyz + w;
    Digit64(x, y);
    Digit64(xy, z);
    Digit64(xyz, w);
    assert r / 4096 == r / 64 / 64 == xy;
    assert r / 262144 == r / 4096 / 64;
  }

  lemma TripleIsRune(a: Byte, b: Byte, c: Byte) returns (r: Rune)
    requires Triple(a, b) && Tail(c)
    ensures EncodeRune(r) == [a, b, c]
  {
    var x, y, z := a as int - 0xE0, b as int - 0x80, c as int - 0x80;
    Digits(0, x, y, z);
    assert 0x800 <= x * 4096 + y * 64 + z < 0x10000;
    r := x * 4096 + y * 64 + z;
    assert r / 4096 == x;
  }

  lemma QuadrupleIsRune(a: Byte, b: Byte, c: Byte, d: Byte) returns (r: Rune)
    requires Quadruple(a, b) && Tail(c) && Tail(d)
    ensures EncodeRune(r) == [a, b, c, d]
  {
    var x, y, z, w := a as int - 0xF0, b as int - 0x80, c as int - 0x80, d as int - 0x80;
    Digits(x, y, z, w);
    r := x * 262144 + y * 4096 + z * 64 + w;
  }

  lemma SequenceIsRune(s: GoString) returns (r: Rune)
    requires SequenceLength(s) > 0
    ensures s[..SequenceLength(s)] == EncodeRune(r)
  {
    var n := SequenceLength(s);
    if n == 1 {
      r := s[0] as int;
    } else if n == 2 {
      r := (s[0] as int - 0xC0) * 64 + (s[1] as int - 0x80);
    } else if n == 3 {
      r := TripleIsRune(s[0], s[1], s[2]);
    } else {
      r := QuadrupleIsRune(s[0], s[1], s[2], s[3]);
    }
  }

  lemma {:induction false} EncodedIsValid(runes: seq<Rune>)
    ensures Valid(EncodeAll(runes))
  {
    if runes != [] {
      var rest := EncodeAll(runes[1..]);
      RuneIsSequence(runes[0], rest);
      assert EncodeAll(runes)[|EncodeRune(runes[0])|..] == rest;
      EncodedIsValid(runes[1..]);
    }
  }

  lemma {:induction false} ValidIsEncoded(s: GoString) returns (runes: seq<Rune>)
    requires Valid(s)
    ensures EncodeAll(runes) == s
    decreases |s|
  {
    if s == [] {
      runes := [];
    } else {
      var n := SequenceLength(s);
      var r := SequenceIsRune(s);
      var rest := ValidIsEncoded(s[n..]);
      runes := [r] + rest;
      assert runes[1..] == rest;
      assert s == s[..n] + s[n..];
    }
  }

  /** The byte scan accepts exactly the encodings of sequences of Unicode scalar values. */
  lemma ValidExactly(s: GoString)
    ensures Valid(s) <==> exists runes :: EncodeAll(runes) == s
  {
    if Valid(s) {
      var runes := ValidIsEncoded(s);
    }
    if runes :| EncodeAll(runes) == s {
      EncodedIsValid(runes);
    }
  }
}
