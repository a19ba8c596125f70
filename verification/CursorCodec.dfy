/** The wire form of a cursor: base64url, without padding, of `v1|<unixMillis>|<key>`. */
module CursorCodec {
  import opened Results
  import opened ByteStrings
  import opened Positions
  import Base64
  import Decimals
  import Utf8

  const CURSOR_VERSION: GoString := "v1"
  const SEPARATOR: Byte := '|'
  const MAX_CURSOR_TOKEN_LENGTH := 2048

  function Raw(c: Cursor): GoString {
    CURSOR_VERSION + [SEPARATOR] + Decimals.FormatInt(c.millis) + [SEPARATOR] + c.key
  }

  function String(c: Cursor): GoString { Base64.Encode(Raw(c)) }

  /** strings.IndexByte, with |s| for "none". */
  function IndexByte(s: GoString, b: Byte): (i: nat)
    ensures i <= |s|
    ensures b !in s[..i]
    ensures i < |s| ==> s[i] == b
  {
    if s == [] || s[0] == b then 0
    else
      var i := 1 + IndexByte(s[1..], b);
      assert s[..i] == [s[0]] + s[1..][..i - 1];
      i
  }

  /** strings.SplitN with a one-byte separator: at most n parts, the last one unsplit. */
  function SplitN(s: GoString, sep: Byte, n: nat): seq<GoString>
    requires n >= 1
    decreases n
  {
    var i := IndexByte(s, sep);
    if n == 1 || i == |s| then [s] else [s[..i]] + SplitN(s[i + 1..], sep, n - 1)
  }

  datatype CursorError = Empty | TooLong | NotBase64Url | WrongFields | UnknownVersion | BadTimestamp | BadKey

  function ParseCursor(token: GoString): Result<Cursor, CursorError> {
    if token == "" then Failure(Empty)
    else if |token| > MAX_CURSOR_TOKEN_LENGTH then Failure(TooLong)
    else if '\r' in token || '\n' in token then Failure(NotBase64Url)
    else
      match Base64.DecodeString(token)
      case None => Failure(NotBase64Url)
      case Some(raw) => ParseRaw(raw)
  }

  function ParseRaw(raw: GoString): Result<Cursor, CursorError> {
    var parts := SplitN(raw, SEPARATOR, 3);
    if |parts| != 3 then Failure(WrongFields)
    else if parts[0] != CURSOR_VERSION then Failure(UnknownVersion)
    else
      match Decimals.ParseInt(parts[1])
      case None => Failure(BadTimestamp)
      case Some(millis) =>
        if millis < 0 || Decimals.FormatInt(millis) != parts[1] then Failure(BadTimestamp)
        else if parts[2] == "" || !Utf8.Valid(parts[2]) then Failure(BadKey)
        else Success(Cursor(millis, parts[2]))
  }

  /** The cursors a token can carry. */
  predicate Issuable(c: Cursor) {
    && 0 <= c.millis <= Decimals.MAX_INT64
    && c.key != [] && Utf8.Valid(c.key)
    && |String(c)| <= MAX_CURSOR_TOKEN_LENGTH
  }

  // ---------- splitting ----------

  lemma {:induction false} IndexOfFirst(a: GoString, b: Byte, rest: GoString)
    requires b !in a
    ensures IndexByte(a + [b] + rest, b) == |a|
  {
    if a != [] {
      assert a[0] in a;
      assert (a + [b] + rest)[1..] == a[1..] + [b] + rest;
      IndexOfFirst(a[1..], b, rest);
    }
  }

  lemma SplitFirst(a: GoString, rest: GoString, sep: Byte, n: nat)
    requires sep !in a && n >= 2
    ensures SplitN(a + [sep] + rest, sep, n) == [a] + SplitN(rest, sep, n - 1)
  {
    var s := a + [sep] + rest;
    IndexOfFirst(a, sep, rest);
    assert s[..|a|] == a && s[|a| + 1..] == rest;
  }

  lemma SplitOfJoin(a: GoString, b: GoString, c: GoString, sep: Byte)
    requires sep !in a && sep !in b
    ensures SplitN(a + [sep] + (b + [sep] + c), sep, 3) == [a, b, c]
  {
    SplitFirst(a, b + [sep] + c, sep, 3);
    SplitFirst(b, c, sep, 2);
    assert SplitN(c, sep, 1) == [c];
  }

  lemma CutAtIndex(s: GoString, sep: Byte)
    requires IndexByte(s, sep) < |s|
    ensures var i := IndexByte(s, sep); s == s[..i] + ([sep] + s[i + 1..])
  {
  }

  lemma JoinOfSplit(s: GoString, sep: Byte)
    requires |SplitN(s, sep, 3)| == 3
    ensures var parts := SplitN(s, sep, 3); s == parts[0] + ([sep] + (parts[1] + ([sep] + parts[2])))
  {
    var tail := s[IndexByte(s, sep) + 1..];
    assert SplitN(s, sep, 3)[1..] == SplitN(tail, sep, 2);
    var last := tail[IndexByte(tail, sep) + 1..];
    assert SplitN(tail, sep, 2)[1..] == SplitN(last, sep, 1) == [last];
    CutAtIndex(s, sep);
    CutAtIndex(tail, sep);
  }

  // ---------- the bijection ----------

  lemma PartsOfRaw(c: Cursor)
    ensures SplitN(Raw(c), SEPARATOR, 3) == [CURSOR_VERSION, Decimals.FormatInt(c.millis), c.key]
  {
    var number := Decimals.FormatInt(c.millis);
    Decimals.DecimalCanonical(if c.millis < 0 then -c.millis else c.millis);
    assert SEPARATOR !in number;
    SplitOfJoin(CURSOR_VERSION, number, c.key, SEPARATOR);
    Regroup(CURSOR_VERSION, number, c.key);
  }

  lemma RawRoundTrip(c: Cursor)
    requires Decimals.IsInt64(c.millis)
    ensures c.millis >= 0 && c.key != [] && Utf8.Valid(c.key) ==> ParseRaw(Raw(c)) == Success(c)
    ensures !(c.millis >= 0 && c.key != [] && Utf8.Valid(c.key)) ==> ParseRaw(Raw(c)).Failure?
  {
    PartsOfRaw(c);
    Decimals.ParseOfFormat(c.millis);
  }

  lemma RawOfParse(raw: GoString)
    requires ParseRaw(raw).Success?
    ensures Raw(ParseRaw(raw).value) == raw
  {
    JoinOfSplit(raw, SEPARATOR);
    var parts := SplitN(raw, SEPARATOR, 3);
    Regroup(parts[0], parts[1], parts[2]);
  }

  lemma Regroup(a: GoString, b: GoString, c: GoString)
    ensures a + ([SEPARATOR] + (b + ([SEPARATOR] + c))) == a + [SEPARATOR] + b + [SEPARATOR] + c
    ensures a + [SEPARATOR] + (b + [SEPARATOR] + c) == a + [SEPARATOR] + b + [SEPARATOR] + c
  {
  }

  lemma TokenHasNoNewline(raw: GoString)
    ensures '\r' !in Base64.Encode(raw) && '\n' !in Base64.Encode(raw)
    ensures Base64.DecodeString(Base64.Encode(raw)) == Some(raw)
  {
    Base64.DecodeOfEncode(raw);
    Base64.StripNothing(Base64.Encode(raw));
  }

  /** A token parses back to its cursor exactly when that cursor is one the service can issue. */
  lemma ParseOfString(c: Cursor)
    requires Decimals.IsInt64(c.millis)
    ensures Issuable(c) ==> ParseCursor(String(c)) == Success(c)
    ensures !Issuable(c) ==> ParseCursor(String(c)).Failure?
  {
    TokenHasNoNewline(Raw(c));
    Base64.EncodedLength(Raw(c));
    RawRoundTrip(c);
  }

  /** Every accepted token is the one token its cursor is issued as. */
  lemma StringOfParse(token: GoString)
    requires ParseCursor(token).Success?
    ensures String(ParseCursor(token).value) == token
    ensures Issuable(ParseCursor(token).value)
  {
    Base64.StripNothing(token);
    Base64.EncodeOfDecode(token);
    RawOfParse(Base64.Decode(token).value);
  }

  /** The accepted tokens are exactly the issued ones, and no two cursors share a token. */
  lemma CodecIsBijection(token: GoString)
    ensures ParseCursor(token).Success? <==> exists c :: Issuable(c) && String(c) == token
    ensures forall c, d :: Issuable(c) && Issuable(d) && String(c) == String(d) ==> c == d
  {
    if ParseCursor(token).Success? {
      StringOfParse(token);
    }
    forall c | Issuable(c)
      ensures ParseCursor(String(c)) == Success(c)
    {
      ParseOfString(c);
    }
  }

  /** A token for an S3 key (at most 1024 bytes) and any non-negative int64 stamp is far under the cap. */
  lemma TokenLengthBound(c: Cursor)
    requires 0 <= c.millis <= Decimals.MAX_INT64 && |c.key| <= 1024
    ensures |String(c)| <= 1396
  {
    assert Decimals.Pow10(10) == 10_000_000_000;
    assert Decimals.Pow10(19) == 10_000_000_000_000_000_000;
    Decimals.DecimalLength(c.millis, 19);
    Base64.EncodedLength(Raw(c));
  }

  /** The text of a token, and the cap on what is parsed. */
  lemma TokenText(c: Cursor, token: GoString)
    ensures String(c) == Base64.Encode("v1" + "|" + Decimals.FormatInt(c.millis) + "|" + c.key)
    ensures |token| > 2048 ==> ParseCursor(token) == Failure(TooLong)
    ensures Issuable(c) ==> |String(c)| <= 2048
  {
    assert [SEPARATOR] == "|";
  }
}
