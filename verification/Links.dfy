/** The Link header of a page, its resolution by the client, and the request it comes back as. */
module Links {
  import opened Results
  import opened ByteStrings
  import opened Positions
  import Base64
  import CursorCodec
  import Decimals
  import Feed
  import Keys
  import Pages
  import Runs
  import Utf8

  const MAX_SEARCH_LIMIT := 1000

  // ---------- query strings ----------

  /** url.Values: every value of a key, in order. */
  type Values = map<GoString, seq<GoString>>

  predicate Unreserved(c: Byte) { Base64.InAlphabet(c) || c == '.' || c == '~' }

  function HexDigit(d: int): Byte
    requires 0 <= d < 16
  {
    if d < 10 then (d + '0' as int) as char else (d - 10 + 'A' as int) as char
  }

  function Unhex(c: Byte): Option<int> {
    if '0' <= c <= '9' then Some(c as int - '0' as int)
    else if 'A' <= c <= 'F' then Some(c as int - 'A' as int + 10)
    else if 'a' <= c <= 'f' then Some(c as int - 'a' as int + 10)
    else None
  }

  function EscapeByte(c: Byte): GoString {
    if Unreserved(c) then [c]
    else if c == ' ' then "+"
    else ['%', HexDigit(c as int / 16), HexDigit(c as int % 16)]
  }

  function QueryEscape(s: GoString): GoString {
    if s == [] then [] else EscapeByte(s[0]) + QueryEscape(s[1..])
  }

  function Prepend(c: Byte, rest: Option<GoString>): Option<GoString> {
    match rest
    case None => None
    case Some(r) => Some([c] + r)
  }

  function QueryUnescape(s: GoString): Option<GoString> {
    if s == [] then Some([])
    else if s[0] == '%' then
      if |s| < 3 || Unhex(s[1]).None? || Unhex(s[2]).None? then None
      else Prepend((Unhex(s[1]).value * 16 + Unhex(s[2]).value) as char, QueryUnescape(s[3..]))
    else Prepend(if s[0] == '+' then ' ' else s[0], QueryUnescape(s[1..]))
  }

  /** strings.Cut: what is before and after the first separator; everything and nothing without one. */
  function Cut(s: GoString, sep: Byte): (GoString, GoString) {
    var i := CursorCodec.IndexByte(s, sep);
    if i == |s| then (s, []) else (s[..i], s[i + 1..])
  }

  function AddFirst(values: Values, key: GoString, value: GoString): Values {
    values[key := if key in values then [value] + values[key] else [value]]
  }

  /** url.ParseQuery; None when any pair does not decode. */
  function ParseQuery(query: GoString): Option<Values>
    decreases |query|
  {
    if query == [] then Some(map[])
    else
      var (pair, rest) := Cut(query, '&');
      match ParseQuery(rest)
      case None => None
      case Some(values) =>
        if ';' in pair then None
        else if pair == [] then Some(values)
        else
          var (key, value) := Cut(pair, '=');
          match (QueryUnescape(key), QueryUnescape(value))
          case (Some(k), Some(v)) => Some(AddFirst(values, k, v))
          case _ => None
  }

  // ---------- the request ----------

  datatype BadRequest =
    | AfterEmpty | AfterInvalid | LimitInvalid | CursorWithAfter | CursorRepeated | CursorNeedsLimit | CursorMalformed

  /** 0, the legacy call, when `limit` is absent. */
  function ParseSearchLimit(query: Values): Result<int, BadRequest> {
    if "limit" !in query then Success(0)
    else
      match Decimals.ParseInt(TrimSpace(Get(query, "limit")))
      case None => Failure(LimitInvalid)
      case Some(n) => if n < 1 || n > MAX_SEARCH_LIMIT then Failure(LimitInvalid) else Success(n)
  }

  function Get(query: Values, key: GoString): GoString {
    if key in query && query[key] != [] then query[key][0] else []
  }

  function ParseCursorRequest(query: Values): Result<Feed.SearchRequest, BadRequest> {
    if "after" in query then Failure(CursorWithAfter)
    else if "cursor" in query && |query["cursor"]| > 1 then Failure(CursorRepeated)
    else if "limit" !in query then Failure(CursorNeedsLimit)
    else
      match ParseSearchLimit(query)
      case Failure(error) => Failure(error)
      case Success(limit) =>
        match CursorCodec.ParseCursor(Get(query, "cursor"))
        case Failure(_) => Failure(CursorMalformed)
        case Success(cursor) => Success(Feed.SearchRequest(0, Some(cursor), limit))
  }

  function ParseSearchRequest(query: Values): Result<Feed.SearchRequest, BadRequest> {
    if "cursor" in query then ParseCursorRequest(query)
    else
      var after := Get(query, "after");
      if TrimSpace(after) == [] then Failure(AfterEmpty)
      else
        match Decimals.ParseInt(after)
        case None => Failure(AfterInvalid)
        case Some(i) =>
          if i < 0 then Failure(AfterInvalid)
          else
            match ParseSearchLimit(query)
            case Failure(error) => Failure(error)
            case Success(limit) => Success(Feed.SearchRequest(i, None, limit))
  }

  /** Absent means the legacy call; what is there must be, white space around it aside, a number from 1 to 1000. */
  lemma LimitExactly(query: Values, n: int)
    ensures "limit" !in query ==> ParseSearchLimit(query) == Success(0)
    ensures "limit" in query ==>
              (ParseSearchLimit(query) == Success(n) <==>
               1 <= n <= 1000 && Decimals.ParseInt(TrimSpace(Get(query, "limit"))) == Some(n))
    ensures ParseSearchLimit(query).Failure? ==> ParseSearchLimit(query) == Failure(LimitInvalid)
  {
  }

  /** A request without a cursor is accepted exactly with a non-negative number in `after` and a good limit. */
  lemma OpeningRequestExactlyWhen(query: Values)
    requires "cursor" !in query
    ensures forall req :: ParseSearchRequest(query) == Success(req) <==>
              && req.cursor == None && req.after >= 0
              && Decimals.ParseInt(Get(query, "after")) == Some(req.after)
              && ParseSearchLimit(query) == Success(req.limit)
    ensures ParseSearchRequest(query) == Failure(AfterEmpty) <==> TrimSpace(Get(query, "after")) == []
  {
    var after := Get(query, "after");
    if TrimSpace(after) == [] {
      BlankIsNoNumber(after);
    }
  }

  lemma BlankIsNoNumber(s: GoString)
    requires TrimSpace(s) == []
    ensures Decimals.ParseInt(s) == None
  {
    var before, after := TrimSpaceExactly(s);
    assert s == before + after;
    assert forall c :: c in s ==> IsSpace(c);
    assert s != [] ==> s[|s| - 1] in s;
  }

  /** A parsed request is never the inconsistent one Search rejects, and its cursor is one the service could issue. */
  lemma ParsedRequestIsConsistent(query: Values)
    requires ParseSearchRequest(query).Success?
    ensures var req := ParseSearchRequest(query).value;
            && req.after >= 0
            && 0 <= req.limit <= MAX_SEARCH_LIMIT
            && (req.cursor.Some? ==> req.limit >= 1 && CursorCodec.Issuable(req.cursor.value))
  {
    if "cursor" in query {
      CursorCodec.StringOfParse(Get(query, "cursor"));
    }
  }

  /** A cursor request is accepted exactly when it has the one shape the documentation allows. */
  lemma CursorRequestExactlyWhen(query: Values)
    requires "cursor" in query && query["cursor"] != []
    ensures ParseSearchRequest(query).Success? <==>
            && "after" !in query && |query["cursor"]| == 1 && "limit" in query
            && ParseSearchLimit(query).Success?
            && exists c :: CursorCodec.Issuable(c) && query["cursor"][0] == CursorCodec.String(c)
    ensures ParseSearchRequest(query).Success? ==>
              query["cursor"][0] == CursorCodec.String(ParseSearchRequest(query).value.cursor.value)
  {
    CursorCodec.CodecIsBijection(query["cursor"][0]);
    if CursorCodec.ParseCursor(query["cursor"][0]).Success? {
      CursorCodec.StringOfParse(query["cursor"][0]);
    }
  }

  /** An opening request, as a client renders it, is read back; without `limit` it is the legacy call. */
  lemma OpeningRequestParses(query: Values, after: int, limit: nat)
    requires 0 <= after <= Decimals.MAX_INT64 && "cursor" !in query
    requires "after" in query && query["after"] == [Decimals.FormatInt(after)]
    requires if "limit" in query then 1 <= limit <= MAX_SEARCH_LIMIT && query["limit"] == [Decimals.FormatInt(limit)]
             else limit == 0
    ensures ParseSearchRequest(query) == Success(Feed.SearchRequest(after, None, limit))
  {
    Decimals.DecimalCanonical(after);
    DigitsAreNotTrimmed(Decimals.FormatInt(after));
    Decimals.ParseOfFormat(after);
    if "limit" in query {
      LimitParses(query, limit);
    }
  }

  // ---------- the Link header ----------

  function EncodePair(key: GoString, value: GoString): GoString { QueryEscape(key) + "=" + QueryEscape(value) }

  const CURSOR_KEY: GoString := "cursor"
  const LIMIT_KEY: GoString := "limit"

  /** The query url.Values.Encode renders, keys in order. */
  function EncodePairs(key: GoString, value: GoString, key': GoString, value': GoString): GoString {
    EncodePair(key, value) + "&" + EncodePair(key', value')
  }

  function NextQuery(next: Cursor, limit: int): GoString {
    EncodePairs(CURSOR_KEY, CursorCodec.String(next), LIMIT_KEY, Decimals.FormatInt(limit))
  }

  function Reference(path: GoString, query: GoString): GoString { path + ['?'] + query }

  function LinkTo(reference: GoString): GoString { ['<'] + reference + ['>'] + LINK_TAIL }

  const LINK_TAIL: GoString := "; rel=\"next\""
  const LINK_PATH: GoString := "bom"

  function NextPageLink(next: Cursor, limit: int): GoString {
    LinkTo(Reference(LINK_PATH, NextQuery(next, limit)))
  }

  /** The reference between the angle brackets, split into path and query. */
  function Target(link: GoString): (GoString, GoString) {
    var (reference, _) := Cut(if link == [] then [] else link[1..], '>');
    Cut(reference, '?')
  }

  lemma CutAt(a: GoString, sep: Byte, rest: GoString)
    requires sep !in a
    ensures Cut(a + [sep] + rest, sep) == (a, rest)
  {
    CursorCodec.IndexOfFirst(a, sep, rest);
    assert (a + [sep] + rest)[..|a|] == a;
    assert (a + [sep] + rest)[|a| + 1..] == rest;
  }

  lemma {:induction false} NoSeparator(s: GoString, sep: Byte)
    requires sep !in s
    ensures Cut(s, sep) == (s, [])
  {
    if s != [] {
      NoSeparator(s[1..], sep);
    }
  }

  lemma UnescapeOne(c: Byte, rest: GoString)
    ensures QueryUnescape(EscapeByte(c) + rest) == Prepend(c, QueryUnescape(rest))
  {
    var e := EscapeByte(c);
    assert (e + rest)[|e|..] == rest;
    if !Unreserved(c) && c != ' ' {
      UnhexOfHex(c as int / 16);
      UnhexOfHex(c as int % 16);
    }
  }

  lemma UnhexOfHex(d: int)
    requires 0 <= d < 16
    ensures Unhex(HexDigit(d)) == Some(d)
  {
    HexExactly(d, HexDigit(d));
  }

  lemma {:induction false} UnescapeOfEscape(s: GoString)
    ensures QueryUnescape(QueryEscape(s)) == Some(s)
  {
    if s != [] {
      UnescapeOfEscape(s[1..]);
      UnescapeOne(s[0], QueryEscape(s[1..]));
      assert s == [s[0]] + s[1..];
    }
  }

  /** No separator of a query, a reference or a Link header survives escaping. */
  lemma {:induction false} EscapedIsSafe(s: GoString)
    ensures forall c :: c in QueryEscape(s) ==> Unreserved(c) || c == '%' || c == '+'
  {
    if s != [] {
      EscapedIsSafe(s[1..]);
    }
  }

  predicate IsSeparator(c: Byte) { c in {'&', ';', '=', '?', '<', '>'} }

  /** The `=` aside, a rendered pair holds no separator. */
  lemma PairIsSafe(key: GoString, value: GoString, c: Byte)
    requires IsSeparator(c)
    ensures c !in QueryEscape(key) && c !in QueryEscape(value)
    ensures c != '=' ==> c !in EncodePair(key, value)
  {
    EscapedIsSafe(key);
    EscapedIsSafe(value);
  }

  lemma PairCuts(key: GoString, value: GoString)
    ensures Cut(EncodePair(key, value), '=') == (QueryEscape(key), QueryEscape(value))
    ensures QueryUnescape(QueryEscape(key)) == Some(key) && QueryUnescape(QueryEscape(value)) == Some(value)
  {
    PairIsSafe(key, value, '=');
    CutAt(QueryEscape(key), '=', QueryEscape(value));
    UnescapeOfEscape(key);
    UnescapeOfEscape(value);
  }

  lemma FirstPairParses(key: GoString, value: GoString, rest: GoString, values: Values)
    requires ParseQuery(rest) == Some(values)
    ensures ParseQuery(EncodePair(key, value) + "&" + rest) == Some(AddFirst(values, key, value))
  {
    PairCuts(key, value);
    PairIsSafe(key, value, '&');
    PairIsSafe(key, value, ';');
    CutAt(EncodePair(key, value), '&', rest);
  }

  lemma LastPairParses(key: GoString, value: GoString)
    ensures ParseQuery(EncodePair(key, value)) == Some(map[key := [value]])
  {
    PairCuts(key, value);
    PairIsSafe(key, value, '&');
    PairIsSafe(key, value, ';');
    NoSeparator(EncodePair(key, value), '&');
    assert ParseQuery([]) == Some(map[]);
  }

  datatype Pair = Pair(key: GoString, value: GoString)

  /** A query as a client writes it: escaped pairs joined by `&`. */
  function Render(pairs: seq<Pair>): GoString {
    if pairs == [] then []
    else if |pairs| == 1 then EncodePair(pairs[0].key, pairs[0].value)
    else EncodePair(pairs[0].key, pairs[0].value) + "&" + Render(pairs[1..])
  }

  /** The values given for a key, in order. */
  function ValuesOf(pairs: seq<Pair>, key: GoString): seq<GoString> {
    if pairs == [] then []
    else (if pairs[0].key == key then [pairs[0].value] else []) + ValuesOf(pairs[1..], key)
  }

  /** Whatever the keys and values, a rendered query is read back: every key with its values, in order. */
  lemma {:induction false} ParseOfRender(pairs: seq<Pair>)
    ensures ParseQuery(Render(pairs)).Some?
    ensures forall key :: key in ParseQuery(Render(pairs)).value <==> ValuesOf(pairs, key) != []
    ensures forall key :: key in ParseQuery(Render(pairs)).value ==>
              ParseQuery(Render(pairs)).value[key] == ValuesOf(pairs, key)
  {
    if |pairs| == 1 {
      LastPairParses(pairs[0].key, pairs[0].value);
      assert pairs[1..] == [];
      assert forall key :: ValuesOf(pairs, key) == if pairs[0].key == key then [pairs[0].value] else [];
    } else if |pairs| > 1 {
      ParseOfRender(pairs[1..]);
      FirstPairParses(pairs[0].key, pairs[0].value, Render(pairs[1..]), ParseQuery(Render(pairs[1..])).value);
    }
  }

  lemma PairsParse(key: GoString, value: GoString, key': GoString, value': GoString)
    requires key != key'
    ensures ParseQuery(EncodePairs(key, value, key', value')) == Some(map[key' := [value'], key := [value]])
    ensures '>' !in EncodePairs(key, value, key', value')
  {
    LastPairParses(key', value');
    FirstPairParses(key, value, EncodePair(key', value'), map[key' := [value']]);
    PairIsSafe(key, value, '>');
    PairIsSafe(key', value', '>');
  }

  lemma NextQueryParses(next: Cursor, limit: nat)
    ensures ParseQuery(NextQuery(next, limit))
            == Some(map[LIMIT_KEY := [Decimals.FormatInt(limit)], CURSOR_KEY := [CursorCodec.String(next)]])
    ensures '>' !in NextQuery(next, limit)
  {
    PairsParse(CURSOR_KEY, CursorCodec.String(next), LIMIT_KEY, Decimals.FormatInt(limit));
  }

  lemma TargetOf(path: GoString, query: GoString)
    requires '?' !in path && '>' !in path && '>' !in query
    ensures Target(LinkTo(Reference(path, query))) == (path, query)
  {
    var reference := Reference(path, query);
    var link := LinkTo(reference);
    assert link[1..] == reference + ['>'] + LINK_TAIL;
    CutAt(reference, '>', LINK_TAIL);
    CutAt(path, '?', query);
  }

  lemma LinkTarget(next: Cursor, limit: nat)
    ensures Target(NextPageLink(next, limit)) == (LINK_PATH, NextQuery(next, limit))
  {
    NextQueryParses(next, limit);
    TargetOf(LINK_PATH, NextQuery(next, limit));
  }

  /** base64url never needs percent-encoding: the token stands in the query as it is. */
  lemma TokenNeedsNoEscaping(c: Cursor)
    ensures QueryEscape(CursorCodec.String(c)) == CursorCodec.String(c)
  {
    Base64.DecodeOfEncode(CursorCodec.Raw(c));
    PlainIsNotEscaped(CursorCodec.String(c));
  }

  lemma {:induction false} PlainIsNotEscaped(s: GoString)
    requires forall i :: 0 <= i < |s| ==> Unreserved(s[i])
    ensures QueryEscape(s) == s
  {
    if s != [] {
      PlainIsNotEscaped(s[1..]);
      assert s == [s[0]] + s[1..];
    }
  }

  const LINK_START: GoString := "<bom?cursor="
  const LINK_MIDDLE: GoString := "&limit="
  const LINK_END: GoString := ">; rel=\"next\""

  /** The Link header, word for word. */
  lemma LinkText(next: Cursor, limit: nat)
    ensures NextPageLink(next, limit)
         == LINK_START + CursorCodec.String(next) + LINK_MIDDLE + Decimals.FormatInt(limit) + LINK_END
  {
    NextQueryText(next, limit);
    LinkPieces();
    LinkJoins(CURSOR_KEY, CursorCodec.String(next), LIMIT_KEY, Decimals.FormatInt(limit));
  }

  lemma NextQueryText(next: Cursor, limit: nat)
    ensures NextQuery(next, limit)
         == CURSOR_KEY + "=" + CursorCodec.String(next) + "&" + (LIMIT_KEY + "=" + Decimals.FormatInt(limit))
  {
    TokenNeedsNoEscaping(next);
    Decimals.DecimalCanonical(limit);
    PlainIsNotEscaped(Decimals.FormatInt(limit));
    KeysArePlain();
    PlainPairs(CURSOR_KEY, CursorCodec.String(next), LIMIT_KEY, Decimals.FormatInt(limit));
  }

  lemma KeysArePlain()
    ensures QueryEscape(CURSOR_KEY) == CURSOR_KEY && QueryEscape(LIMIT_KEY) == LIMIT_KEY
  {
    PlainIsNotEscaped(CURSOR_KEY);
    PlainIsNotEscaped(LIMIT_KEY);
  }

  lemma PlainPairs(key: GoString, value: GoString, key': GoString, value': GoString)
    requires QueryEscape(key) == key && QueryEscape(value) == value
    requires QueryEscape(key') == key' && QueryEscape(value') == value'
    ensures EncodePairs(key, value, key', value') == key + "=" + value + "&" + (key' + "=" + value')
  {
  }

  lemma LinkPieces()
    ensures LINK_START == Start(CURSOR_KEY)
    ensures LINK_MIDDLE == "&" + (LIMIT_KEY + "=")
    ensures LINK_END == ['>'] + LINK_TAIL
  {
  }

  function Start(key: GoString): GoString { ['<'] + (LINK_PATH + ['?'] + (key + "=")) }

  lemma LinkJoins(key: GoString, token: GoString, key': GoString, number: GoString)
    ensures LinkTo(Reference(LINK_PATH, key + "=" + token + "&" + (key' + "=" + number)))
         == Start(key) + token + ("&" + (key' + "=")) + number + (['>'] + LINK_TAIL)
  {
  }

  /** A byte is escaped as `%` and its two digits in base 16, capitals; small letters are read as well. */
  lemma HexExactly(d: int, c: Byte)
    requires 0 <= d < 16
    ensures HexDigit(d) == "0123456789ABCDEF"[d]
    ensures Unhex(c) == Some(d) <==> c == "0123456789ABCDEF"[d] || c == "0123456789abcdef"[d]
  {
  }

  // ---------- resolution at the client ----------

  /** strings.Split. */
  function Split(s: GoString, sep: Byte): seq<GoString>
    decreases |s|
  {
    var i := CursorCodec.IndexByte(s, sep);
    if i == |s| then [s] else [s[..i]] + Split(s[i + 1..], sep)
  }

  function Join(parts: seq<GoString>, sep: Byte): GoString {
    if parts == [] then []
    else if |parts| == 1 then parts[0]
    else parts[0] + [sep] + Join(parts[1..], sep)
  }

  /** Section 5.2.3 of RFC 3986: the reference replaces everything after the last slash. */
  function Merge(base: GoString, reference: GoString): GoString {
    base[..Keys.LastIndex(base, '/') + 1] + reference
  }

  predicate IsDots(segment: GoString) { segment == "." || segment == ".." }

  /** Section 5.2.4 of RFC 3986, segment by segment; `done` is the output so far. */
  function DropDots(segments: seq<GoString>, done: seq<GoString>): seq<GoString> {
    if segments == [] then done
    else
      var rest := segments[1..];
      var tail: seq<GoString> := if rest == [] then [""] else [];
      if segments[0] == "." then DropDots(rest, done + tail)
      else if segments[0] == ".." then DropDots(rest, (if |done| > 1 then done[..|done| - 1] else done) + tail)
      else DropDots(rest, done + [segments[0]])
  }

  function RemoveDotSegments(path: GoString): GoString { Join(DropDots(Split(path, '/'), []), '/') }

  /** The path a relative-path reference resolves to. */
  function Resolve(base: GoString, reference: GoString): GoString { RemoveDotSegments(Merge(base, reference)) }

  lemma {:induction false} JoinOfSplit(s: GoString, sep: Byte)
    ensures Join(Split(s, sep), sep) == s
    ensures Split(s, sep) != []
    decreases |s|
  {
    var i := CursorCodec.IndexByte(s, sep);
    if i < |s| {
      JoinOfSplit(s[i + 1..], sep);
      CursorCodec.CutAtIndex(s, sep);
      assert Split(s, sep)[1..] == Split(s[i + 1..], sep);
    }
  }

  lemma {:induction false} NothingToDrop(segments: seq<GoString>, done: seq<GoString>)
    requires forall i :: 0 <= i < |segments| ==> !IsDots(segments[i])
    ensures DropDots(segments, done) == done + segments
  {
    if segments != [] {
      NothingToDrop(segments[1..], done + [segments[0]]);
      assert done + [segments[0]] + segments[1..] == done + segments;
    }
  }

  /** No dot segment survives, whatever path is resolved. */
  lemma {:induction false} NoDotsLeft(segments: seq<GoString>, done: seq<GoString>)
    requires forall i :: 0 <= i < |done| ==> !IsDots(done[i])
    ensures forall i :: 0 <= i < |DropDots(segments, done)| ==> !IsDots(DropDots(segments, done)[i])
  {
    if segments != [] {
      var rest := segments[1..];
      var tail: seq<GoString> := if rest == [] then [""] else [];
      if segments[0] == "." {
        NoDotsLeft(rest, done + tail);
      } else if segments[0] == ".." {
        NoDotsLeft(rest, (if |done| > 1 then done[..|done| - 1] else done) + tail);
      } else {
        NoDotsLeft(rest, done + [segments[0]]);
      }
    }
  }

  lemma MergeKeepsPath(base: GoString, front: GoString)
    requires base == front + "/bom"
    ensures Merge(base, LINK_PATH) == base
  {
    var i := Keys.LastIndex(base, '/');
    assert base[|front|] == '/';
    assert base[|front| + 1..] == "bom";
    assert i == |front|;
  }

  /**
    * Whatever prefix the client reached the service by: resolving the reference against a request
    * path that ends in the segment `bom` gives that path again, its dot segments removed if any.
    */
  lemma LinkKeepsPath(base: GoString, front: GoString)
    requires base == front + "/bom"
    ensures Resolve(base, LINK_PATH) == RemoveDotSegments(base)
    ensures (forall segment :: segment in Split(base, '/') ==> !IsDots(segment)) ==> Resolve(base, LINK_PATH) == base
  {
    MergeKeepsPath(base, front);
    if forall segment :: segment in Split(base, '/') ==> !IsDots(segment) {
      NothingToDrop(Split(base, '/'), []);
      assert [] + Split(base, '/') == Split(base, '/');
      JoinOfSplit(base, '/');
    }
  }

  lemma DigitsAreNotTrimmed(s: GoString)
    requires s != [] && Decimals.AllDigits(s)
    ensures TrimSpace(s) == s
  {
  }

  lemma LimitParses(query: Values, limit: nat)
    requires 1 <= limit <= MAX_SEARCH_LIMIT
    requires "limit" in query && query["limit"] == [Decimals.FormatInt(limit)]
    ensures ParseSearchLimit(query) == Success(limit)
  {
    Decimals.DecimalCanonical(limit);
    DigitsAreNotTrimmed(Decimals.FormatInt(limit));
    Decimals.ParseOfFormat(limit);
  }

  lemma RequestParses(query: Values, next: Cursor, limit: nat)
    requires CursorCodec.Issuable(next) && 1 <= limit <= MAX_SEARCH_LIMIT
    requires "after" !in query
    requires "cursor" in query && query["cursor"] == [CursorCodec.String(next)]
    requires "limit" in query && query["limit"] == [Decimals.FormatInt(limit)]
    ensures ParseSearchRequest(query) == Success(Feed.SearchRequest(0, Some(next), limit))
  {
    LimitParses(query, limit);
    CursorCodec.ParseOfString(next);
  }

  /** The request the client sends for a Link is the page's own cursor and limit again. */
  lemma LinkRoundTrip(next: Cursor, limit: nat)
    requires CursorCodec.Issuable(next) && 1 <= limit <= MAX_SEARCH_LIMIT
    ensures var query := ParseQuery(Target(NextPageLink(next, limit)).1);
            query.Some? && ParseSearchRequest(query.value) == Success(Feed.SearchRequest(0, Some(next), limit))
  {
    LinkTarget(next, limit);
    NextQueryParses(next, limit);
    RequestParses(ParseQuery(NextQuery(next, limit)).value, next, limit);
  }

  // ---------- every issued cursor is accepted ----------

  /** What S3 guarantees of a listed object: a UTF-8 key of 1 to 1024 bytes; and a stamp in int64 milliseconds. */
  ghost predicate Listable(o: ObjectInfo) {
    && 1 <= |o.key| <= 1024 && Utf8.Valid(o.key)
    && o.Position().millis <= Decimals.MAX_INT64
  }

  /** In a run opened at a non-negative watermark every page's Link is accepted as the fetch of the next page. */
  lemma EveryLinkIsAccepted(
      after: int, limit: nat, envs: seq<Runs.Env>, pages: seq<Pages.Page>, i: nat)
    requires Runs.IsRun(after, limit, envs, pages) && after >= 0 && limit <= MAX_SEARCH_LIMIT
    requires i < |pages| && pages[i].next.Some?
    requires forall j, o :: 0 <= j < |envs| && o in envs[j].listing ==> Listable(o)
    ensures CursorCodec.ParseCursor(CursorCodec.String(pages[i].next.value)) == Success(pages[i].next.value)
    ensures var query := ParseQuery(Target(NextPageLink(pages[i].next.value, limit)).1);
            query.Some? && ParseSearchRequest(query.value) == Success(Feed.SearchRequest(0, pages[i].next, limit))
  {
    var next := pages[i].next.value;
    Runs.RunIsChain(after, limit, envs, pages);
    assert Runs.LinkAt(after, limit, envs, pages, i);
    var last := Pages.Last(pages[i].yielded);
    assert last in pages[i].yielded && envs[i].Offers(last) && Listable(last);
    if last.Second() <= after {
      Runs.BehindIsNeverYielded(after, limit, envs, pages, 0, i, last);
      assert false;
    }
    SecondOfMillis(last.stamp);
    CursorCodec.TokenLengthBound(next);
    CursorCodec.ParseOfString(next);
    LinkRoundTrip(next, limit);
  }
}
