/** base64.RawURLEncoding.Strict(): sections 3.2, 3.5 and 5 of RFC 4648. */
module Base64 {
  import opened Results
  import opened ByteStrings

  type Sextet = i: int | 0 <= i < 64

  function EncodeChar(i: Sextet): Byte {
    if i < 26 then (i + 'A' as int) as char
    else if i < 52 then (i - 26 + 'a' as int) as char
    else if i < 62 then (i - 52 + '0' as int) as char
    else if i == 62 then '-'
    else '_'
  }

  predicate InAlphabet(c: Byte) {
    'A' <= c <= 'Z' || 'a' <= c <= 'z' || '0' <= c <= '9' || c == '-' || c == '_'
  }

  function DecodeChar(c: Byte): Sextet
    requires InAlphabet(c)
  {
    if 'A' <= c <= 'Z' then c as int - 'A' as int
    else if 'a' <= c <= 'z' then c as int - 'a' as int + 26
    else if '0' <= c <= '9' then c as int - '0' as int + 52
    else if c == '-' then 62
    else 63
  }

  /** Three bytes become four sextets; a tail of one or two bytes becomes two or three, padded with zero bits. */
  function ToSextets(raw: GoString): seq<Sextet> {
    if raw == [] then []
    else if |raw| == 1 then
      [raw[0] as int / 4, raw[0] as int % 4 * 16]
    else if |raw| == 2 then
      [raw[0] as int / 4, raw[0] as int % 4 * 16 + raw[1] as int / 16, raw[1] as int % 16 * 4]
    else
      [raw[0] as int / 4, raw[0] as int % 4 * 16 + raw[1] as int / 16,
       raw[1] as int % 16 * 4 + raw[2] as int / 64, raw[2] as int % 64] + ToSextets(raw[3..])
  }

  function Byte0(a: Sextet, b: Sextet): Byte { (a * 4 + b / 16) as char }

  function Byte1(b: Sextet, c: Sextet): Byte { (b % 16 * 16 + c / 4) as char }

  function Byte2(c: Sextet, d: Sextet): Byte { (c % 4 * 64 + d) as char }

  /** Strict decoding: the padding bits of a tail must be zero, and a tail of one sextet is an error. */
  function FromSextets(s: seq<Sextet>): Option<GoString> {
    if s == [] then Some([])
    else if |s| == 1 then None
    else if |s| == 2 then
      if s[1] % 16 == 0 then Some([Byte0(s[0], s[1])]) else None
    else if |s| == 3 then
      if s[2] % 4 == 0 then Some([Byte0(s[0], s[1]), Byte1(s[1], s[2])]) else None
    else
      match FromSextets(s[4..])
      case None => None
      case Some(rest) => Some([Byte0(s[0], s[1]), Byte1(s[1], s[2]), Byte2(s[2], s[3])] + rest)
  }

  function Encode(raw: GoString): (token: GoString)
    ensures |token| == |ToSextets(raw)|
  {
    var s := ToSextets(raw);
    seq(|s|, i requires 0 <= i < |s| => EncodeChar(s[i]))
  }

  predicate AllInAlphabet(token: GoString) { forall i :: 0 <= i < |token| ==> InAlphabet(token[i]) }

  function SextetsOf(token: GoString): seq<Sextet>
    requires AllInAlphabet(token)
  {
    seq(|token|, i requires 0 <= i < |token| => DecodeChar(token[i]))
  }

  function Decode(token: GoString): Option<GoString> {
    if AllInAlphabet(token) then FromSextets(SextetsOf(token)) else None
  }

  /** The Go decoder skips carriage returns and newlines wherever they stand. */
  function StripNewlines(token: GoString): GoString {
    if token == [] then []
    else (if token[0] == '\r' || token[0] == '\n' then [] else [token[0]]) + StripNewlines(token[1..])
  }

  function DecodeString(token: GoString): Option<GoString> { Decode(StripNewlines(token)) }

  // ---------- the encoding, by the table and by the bits ----------

  const UPPER: GoString := "ABCDEFGHIJKLMNOPQRSTUVWXYZ"
  const LOWER: GoString := "abcdefghijklmnopqrstuvwxyz"
  const DIGITS: GoString := "0123456789"
  const LAST_TWO: GoString := "-_"

  /** Table 2 of section 5 of RFC 4648. */
  const ALPHABET: GoString := UPPER + LOWER + DIGITS + LAST_TWO

  /** The character for a six-bit number. */
  function InTable(n: int): Byte
    requires 0 <= n < 64
  {
    TableSize();
    ALPHABET[n]
  }

  lemma TableSize()
    ensures |UPPER| == |LOWER| == 26 && |DIGITS| == 10 && |ALPHABET| == 64
  {
  }

  lemma CharIsInTable(i: Sextet)
    ensures EncodeChar(i) == InTable(i)
  {
    if i < 26 {
      assert UPPER[i] == EncodeChar(i);
    } else if i < 52 {
      assert LOWER[i - 26] == EncodeChar(i);
    } else if i < 62 {
      assert DIGITS[i - 52] == EncodeChar(i);
    } else {
      assert LAST_TWO[i - 62] == EncodeChar(i);
    }
  }

  /** The number three bytes make, most significant first. */
  function Bits24(x: Byte, y: Byte, z: Byte): int { x as int * 65536 + y as int * 256 + z as int }

  lemma GroupBits(x: Byte, y: Byte, z: Byte)
    ensures var n, s := Bits24(x, y, z), ToSextets([x, y, z]);
            |s| == 4 && s[0] as int * 262144 + s[1] as int * 4096 + s[2] as int * 64 + s[3] as int == n
  {
    assert ToSextets([x, y, z][3..]) == [];
  }

  lemma {:induction false} SextetsOfGroup(raw: GoString, g: nat)
    requires 3 * g + 3 <= |raw|
    ensures 4 * g + 4 <= |ToSextets(raw)|
    ensures ToSextets(raw)[4 * g..4 * g + 4] == ToSextets(raw[3 * g..3 * g + 3])
  {
    if g > 0 {
      SextetsOfGroup(raw[3..], g - 1);
      assert raw[3..][3 * (g - 1)..3 * (g - 1) + 3] == raw[3 * g..3 * g + 3];
      var all := ToSextets(raw);
      assert all[4..] == ToSextets(raw[3..]);
      assert all[4 * g..4 * g + 4] == all[4..][4 * (g - 1)..4 * (g - 1) + 4];
    } else {
      assert raw[..3][3..] == [] && raw[0..3] == raw[..3];
      assert ToSextets(raw)[0..4] == ToSextets(raw)[..4];
    }
  }

  lemma {:induction false} SextetsOfTail(raw: GoString, g: nat)
    requires 3 * g < |raw| < 3 * g + 3
    ensures 4 * g < |ToSextets(raw)| && ToSextets(raw)[4 * g..] == ToSextets(raw[3 * g..])
  {
    if g > 0 {
      SextetsOfTail(raw[3..], g - 1);
      assert raw[3..][3 * (g - 1)..] == raw[3 * g..];
      var all := ToSextets(raw);
      assert all[4..] == ToSextets(raw[3..]);
      assert all[4 * g..] == all[4..][4 * (g - 1)..];
    }
  }

  lemma EncodedAt(raw: GoString, i: nat)
    requires i < |ToSextets(raw)|
    ensures |Encode(raw)| == |ToSextets(raw)| && Encode(raw)[i] == InTable(ToSextets(raw)[i])
  {
    CharIsInTable(ToSextets(raw)[i]);
  }

  lemma SliceAt(all: seq<Sextet>, s: seq<Sextet>, from: nat)
    requires from + |s| <= |all| && all[from..from + |s|] == s
    ensures forall i :: from <= i < from + |s| ==> all[i] == s[i - from]
  {
    forall i | from <= i < from + |s|
      ensures all[i] == s[i - from]
    {
      assert all[from..from + |s|][i - from] == all[i];
    }
  }

  lemma GroupSextets(raw: GoString, g: nat)
    requires 3 * g + 3 <= |raw| && 4 * g + 4 <= |ToSextets(raw)|
    ensures var n, s := Bits24(raw[3 * g], raw[3 * g + 1], raw[3 * g + 2]), ToSextets(raw);
            && s[4 * g] == n / 262144 && s[4 * g + 1] == n / 4096 % 64
            && s[4 * g + 2] == n / 64 % 64 && s[4 * g + 3] == n % 64
  {
    SextetsOfGroup(raw, g);
    var x, y, z := raw[3 * g], raw[3 * g + 1], raw[3 * g + 2];
    assert raw[3 * g..3 * g + 3] == [x, y, z];
    GroupBits(x, y, z);
    var s := ToSextets([x, y, z]);
    SliceAt(ToSextets(raw), s, 4 * g);
    Digits(s[0], s[1], s[2], s[3]);
  }

  /**
    * Three bytes are one number of 24 bits, and their four characters are the table's entries for
    * its six-bit digits, most significant first.
    */
  lemma EncodedGroup(raw: GoString, g: nat)
    requires 3 * g + 3 <= |raw|
    ensures |Encode(raw)| >= 4 * g + 4
    ensures var n, token := Bits24(raw[3 * g], raw[3 * g + 1], raw[3 * g + 2]), Encode(raw);
            && token[4 * g] == InTable(n / 262144)
            && token[4 * g + 1] == InTable(n / 4096 % 64)
            && token[4 * g + 2] == InTable(n / 64 % 64)
            && token[4 * g + 3] == InTable(n % 64)
  {
    SextetsOfGroup(raw, g);
    GroupSextets(raw, g);
    EncodedAt(raw, 4 * g);
    EncodedAt(raw, 4 * g + 1);
    EncodedAt(raw, 4 * g + 2);
    EncodedAt(raw, 4 * g + 3);
  }

  /** A tail of one byte, filled up with zero bits, is a number of 12 bits and makes two characters, without padding. */
  lemma EncodedTailOfOne(raw: GoString, g: nat)
    requires |raw| == 3 * g + 1
    ensures var n, token := raw[3 * g] as int * 16, Encode(raw);
            |token| == 4 * g + 2 && token[4 * g] == InTable(n / 64) && token[4 * g + 1] == InTable(n % 64)
  {
    TailOfOne(raw, g);
    EncodedAt(raw, 4 * g);
    EncodedAt(raw, 4 * g + 1);
  }

  /** A tail of two bytes is a number of 18 bits and makes three characters. */
  lemma EncodedTailOfTwo(raw: GoString, g: nat)
    requires |raw| == 3 * g + 2
    ensures var n, token := raw[3 * g] as int * 1024 + raw[3 * g + 1] as int * 4, Encode(raw);
            && |token| == 4 * g + 3 && token[4 * g] == InTable(n / 4096)
            && token[4 * g + 1] == InTable(n / 64 % 64) && token[4 * g + 2] == InTable(n % 64)
  {
    TailOfTwo(raw, g);
    EncodedAt(raw, 4 * g);
    EncodedAt(raw, 4 * g + 1);
    EncodedAt(raw, 4 * g + 2);
  }

  lemma TailOfOne(raw: GoString, g: nat)
    requires |raw| == 3 * g + 1
    ensures var n, s := raw[3 * g] as int * 16, ToSextets(raw);
            |s| == 4 * g + 2 && s[4 * g] == n / 64 && s[4 * g + 1] == n % 64
  {
    SextetsOfTail(raw, g);
    assert raw[3 * g..] == [raw[3 * g]];
    TailAt(ToSextets(raw), ToSextets([raw[3 * g]]), 4 * g);
  }

  lemma TailOfTwo(raw: GoString, g: nat)
    requires |raw| == 3 * g + 2
    ensures var n, s := raw[3 * g] as int * 1024 + raw[3 * g + 1] as int * 4, ToSextets(raw);
            |s| == 4 * g + 3 && s[4 * g] == n / 4096 && s[4 * g + 1] == n / 64 % 64 && s[4 * g + 2] == n % 64
  {
    SextetsOfTail(raw, g);
    assert raw[3 * g..] == [raw[3 * g], raw[3 * g + 1]];
    TailAt(ToSextets(raw), ToSextets([raw[3 * g], raw[3 * g + 1]]), 4 * g);
    PairBits(raw[3 * g], raw[3 * g + 1]);
  }

  lemma TailAt(all: seq<Sextet>, s: seq<Sextet>, from: nat)
    requires from <= |all| && all[from..] == s
    ensures |all| == from + |s| && forall i :: 0 <= i < |s| ==> all[from + i] == s[i]
  {
  }

  lemma PairBits(x: Byte, y: Byte)
    ensures var n, s := x as int * 1024 + y as int * 4, ToSextets([x, y]);
            |s| == 3 && n / 4096 == s[0] && n / 64 % 64 == s[1] && n % 64 == s[2]
  {
    var s := ToSextets([x, y]);
    Digits(0, s[0], s[1], s[2]);
  }

  lemma Digits(a: Sextet, b: Sextet, c: Sextet, d: Sextet)
    ensures var n := a * 262144 + b * 4096 + c * 64 + d;
            n / 262144 == a && n / 4096 % 64 == b && n / 64 % 64 == c && n % 64 == d
  {
    var ab := a * 64 + b;
    var abc := ab * 64 + c;
    assert (a * 262144 + b * 4096 + c * 64 + d) / 64 == abc;
    assert (a * 262144 + b * 4096 + c * 64 + d) / 4096 == ab;
  }

  // ---------- the round trip ----------

  lemma BlockRoundTrip(x: Byte, y: Byte, z: Byte)
    ensures var a, b := x as int / 4, x as int % 4 * 16 + y as int / 16;
            var c, d := y as int % 16 * 4 + z as int / 64, z as int % 64;
            Byte0(a, b) == x && Byte1(b, c) == y && Byte2(c, d) == z
            && Byte0(a, x as int % 4 * 16) == x && Byte1(b, y as int % 16 * 4) == y
  {
  }

  lemma {:induction false} SextetsRoundTrip(raw: GoString)
    ensures FromSextets(ToSextets(raw)) == Some(raw)
  {
    if |raw| >= 3 {
      BlockRoundTrip(raw[0], raw[1], raw[2]);
      SextetsRoundTrip(raw[3..]);
      assert ToSextets(raw)[4..] == ToSextets(raw[3..]);
      assert raw == [raw[0], raw[1], raw[2]] + raw[3..];
    } else if |raw| == 2 {
      BlockRoundTrip(raw[0], raw[1], '0');
      assert raw == [raw[0], raw[1]];
    } else if |raw| == 1 {
      BlockRoundTrip(raw[0], '0', '0');
      assert raw == [raw[0]];
    }
  }

  lemma {:induction false} SextetsStrict(s: seq<Sextet>)
    requires FromSextets(s).Some?
    ensures ToSextets(FromSextets(s).value) == s
  {
    var raw := FromSextets(s).value;
    if |s| >= 4 {
      SextetsStrict(s[4..]);
      assert raw[3..] == FromSextets(s[4..]).value;
      BlockStrict(s[0], s[1], s[2], s[3]);
      assert s == [s[0], s[1], s[2], s[3]] + s[4..];
    } else if |s| == 3 {
      BlockStrict(s[0], s[1], s[2], 0);
      assert s == [s[0], s[1], s[2]];
    } else if |s| == 2 {
      BlockStrict(s[0], s[1], 0, 0);
      assert s == [s[0], s[1]];
    }
  }

  lemma BlockStrict(a: Sextet, b: Sextet, c: Sextet, d: Sextet)
    ensures var x, y, z := Byte0(a, b) as int, Byte1(b, c) as int, Byte2(c, d) as int;
            x / 4 == a && x % 4 * 16 + y / 16 == b && y % 16 * 4 + z / 64 == c && z % 64 == d
            && x % 4 == b / 16 && y % 16 == c / 4
  {
  }

  lemma CharsRoundTrip(i: Sextet)
    ensures InAlphabet(EncodeChar(i)) && DecodeChar(EncodeChar(i)) == i
  {
  }

  lemma CharsStrict(c: Byte)
    requires InAlphabet(c)
    ensures EncodeChar(DecodeChar(c)) == c
  {
  }

  /** A token is in the alphabet throughout and decodes to what it was made from. */
  lemma DecodeOfEncode(raw: GoString)
    ensures AllInAlphabet(Encode(raw))
    ensures Decode(Encode(raw)) == Some(raw)
  {
    var s, token := ToSextets(raw), Encode(raw);
    forall i | 0 <= i < |token|
      ensures InAlphabet(token[i]) && DecodeChar(token[i]) == s[i]
    {
      CharsRoundTrip(s[i]);
    }
    assert SextetsOf(token) == s;
    SextetsRoundTrip(raw);
  }

  /** Nothing else decodes: no padding character, no stray character, no non-zero trailing bits. */
  lemma EncodeOfDecode(token: GoString)
    requires Decode(token).Some?
    ensures Encode(Decode(token).value) == token
  {
    var s := SextetsOf(token);
    SextetsStrict(s);
    forall i | 0 <= i < |token|
      ensures EncodeChar(s[i]) == token[i]
    {
      CharsStrict(token[i]);
    }
  }

  lemma {:induction false} StripNothing(token: GoString)
    requires '\r' !in token && '\n' !in token
    ensures StripNewlines(token) == token
  {
    if token != [] {
      StripNothing(token[1..]);
      assert token == [token[0]] + token[1..];
    }
  }

  /** Without padding, n bytes take ceil(4n / 3) characters. */
  lemma {:induction false} EncodedLength(raw: GoString)
    ensures |Encode(raw)| == (4 * |raw| + 2) / 3
  {
    if |raw| >= 3 {
      EncodedLength(raw[3..]);
    }
  }
}
