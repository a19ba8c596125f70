/** GET of one document over HTTP, and that whatever a search or a version list shows can be fetched. */
module Fetching {
  import opened Results
  import opened ByteStrings
  import opened Decimals
  import opened Keys
  import opened CursorCodec
  import opened Positions
  import opened Entries
  import opened Pages
  import opened Runs
  import opened Storage
  import opened Uploads
  import opened Versioning
  import opened Documents
  import opened Views

  /** uuid.Parse, as far as it accepts; the library is not part of this model. */
  type UuidParser = GoString -> bool

  /** It accepts the canonical form of 36 characters, and none of 37. */
  ghost predicate ParsesUuids(parses: UuidParser) {
    && (forall urn :: CanonicalUrn(urn) ==> parses(urn[9..]))
    && (forall s :: |s| == 37 ==> !parses(s))
  }

  const COLON: Byte := ':'
  const URN: GoString := "urn"
  const UUID: GoString := "uuid"

  function UrnValid(urn: GoString, parses: UuidParser): bool {
    var subs := SplitN(urn, COLON, |urn| + 1);
    |subs| == 3 && subs[0] == URN && subs[1] == UUID && parses(subs[2])
  }

  lemma UrnValidParts(rest: GoString, parses: UuidParser)
    requires COLON !in rest
    ensures UrnValid("urn:uuid:" + rest, parses) <==> parses(rest)
  {
    var whole := URN + [COLON] + (UUID + [COLON] + rest);
    assert "urn:uuid:" + rest == whole;
    SplitInThree(URN, UUID, rest, |whole| + 1);
  }

  lemma SplitInThree(a: GoString, b: GoString, c: GoString, n: nat)
    requires COLON !in a && COLON !in b && COLON !in c && n >= 4
    ensures SplitN(a + [COLON] + (b + [COLON] + c), COLON, n) == [a, b, c]
  {
    SplitFirst(a, b + [COLON] + c, COLON, n);
    SplitFirst(b, c, COLON, n - 1);
    assert IndexByte(c, COLON) == |c|;
  }

  /** What the check accepts: `urn:uuid:` and then, without another colon, what uuid.Parse accepts. */
  lemma UrnValidExactly(urn: GoString, parses: UuidParser)
    ensures UrnValid(urn, parses) <==>
            exists rest: GoString :: urn == "urn:uuid:" + rest && COLON !in rest && parses(rest)
  {
    if UrnValid(urn, parses) {
      var subs := SplitN(urn, COLON, |urn| + 1);
      ThreeParts(urn, |urn| + 1);
      assert urn == "urn:uuid:" + subs[2];
    }
    if rest: GoString :| urn == "urn:uuid:" + rest && COLON !in rest && parses(rest) {
      UrnValidParts(rest, parses);
    }
  }

  lemma ThreeParts(s: GoString, n: nat)
    requires n >= 4 && |SplitN(s, COLON, n)| == 3
    ensures var parts := SplitN(s, COLON, n);
            s == parts[0] + ([COLON] + (parts[1] + ([COLON] + parts[2]))) && COLON !in parts[2]
  {
    var first, tail := Parts(s, n);
    var second, last := Parts(tail, n - 1);
    var _, _ := Parts(last, n - 2);
    assert SplitN(s, COLON, n) == [first, second, last];
  }

  /** One separator, if there is any, and what is left to split. */
  lemma Parts(s: GoString, n: nat) returns (first: GoString, tail: GoString)
    requires n >= 2
    ensures |SplitN(s, COLON, n)| >= 1
    ensures COLON !in s ==> SplitN(s, COLON, n) == [s]
    ensures COLON in s ==> s == first + ([COLON] + tail) && SplitN(s, COLON, n) == [first] + SplitN(tail, COLON, n - 1)
  {
    var i := IndexByte(s, COLON);
    first, tail := s, [];
    if i < |s| {
      first, tail := s[..i], s[i + 1..];
      CutAtIndex(s, COLON);
    } else {
      assert s[..i] == s;
    }
  }

  /** Canonical URNs pass, and with one more character at the end they do not. */
  lemma CanonicalIsValid(urn: GoString, parses: UuidParser)
    requires CanonicalUrn(urn) && ParsesUuids(parses)
    ensures UrnValid(urn, parses) && !UrnValid(urn + "-", parses)
  {
    var rest := urn[9..];
    assert urn == "urn:uuid:" + rest && urn + "-" == "urn:uuid:" + (rest + "-");
    assert forall i :: 0 <= i < |rest| ==> rest[i] == urn[9 + i];
    UrnValidParts(rest, parses);
    UrnValidParts(rest + "-", parses);
  }

  /** `Crashed` is the recovered panic. */
  datatype Response = BadRequest | NotFoundResponse | InternalError | Crashed | Document(contents: GoString)

  function ResponseTo(r: Result<GoString, FetchError>): Response {
    match r
    case Success(contents) => Document(contents)
    case Failure(NoSuchDocument) => NotFoundResponse
    case Failure(EmptyVersions) => Crashed
    case Failure(_) => InternalError
  }

  /** A request the handler passes on: a valid URN, and no version, a blank one, or one an upload could store. */
  ghost predicate Acceptable(urn: GoString, version: GoString, parses: UuidParser) {
    UrnValid(urn, parses) && (TrimSpace(version) == [] || IsVersion(version))
  }

  ghost predicate Answers(
      r: Response, objects: Objects, urn: GoString, version: GoString,
      listing: seq<KeyPage>, reachable: bool, check: Check, parses: UuidParser)
  {
    if !Acceptable(urn, version, parses) then r == BadRequest
    else exists got :: GetsDocument(got, objects, urn, version, listing, reachable, check) && r == ResponseTo(got)
  }

  /** 404 exactly for a key a reachable store does not have, the document exactly as stored and checked, else 500. */
  ghost predicate Responds(r: Response, objects: Objects, key: GoString, reachable: bool, check: Check) {
    && (r == NotFoundResponse <==> reachable && key !in objects)
    && (forall b :: r == Document(b) <==> reachable && key in objects && objects[key].contents == b && check(b))
    && (r == InternalError <==> !reachable || (key in objects && !check(objects[key].contents)))
  }

  /** The latest version: 500 when the listing fails, 404 without a key, the panic on an empty list, or the highest. */
  ghost predicate RespondsLatest(
      r: Response, objects: Objects, urn: GoString, listing: seq<KeyPage>, reachable: bool, check: Check)
  {
    if Broken in listing then r == InternalError
    else if !SomeKey(objects, urn) then r == NotFoundResponse
    else if SomeForeignKey(objects, urn) then r == InternalError
    else if StoredVersions(objects, urn) == {} then r == Crashed
    else exists n :: IsMax(n, StoredVersions(objects, urn))
                     && Responds(r, objects, urn + "-" + FormatInt(n), reachable, check)
  }

  lemma AskedResponds(
      got: Result<GoString, FetchError>, objects: Objects, key: GoString, reachable: bool, check: Check)
    requires Asked(got, objects, key, reachable, check)
    ensures Responds(ResponseTo(got), objects, key, reachable, check)
  {
    var r := ResponseTo(got);
    if got.Success? {
      assert r == Document(got.value);
    }
    assert key in objects ==> (got == Success(objects[key].contents) <==> reachable && check(objects[key].contents));
  }

  lemma AnswersExactly(
      r: Response, objects: Objects, urn: GoString, version: GoString,
      listing: seq<KeyPage>, reachable: bool, check: Check, parses: UuidParser)
    requires Answers(r, objects, urn, version, listing, reachable, check, parses)
    ensures r == BadRequest <==> !Acceptable(urn, version, parses)
    ensures Acceptable(urn, version, parses) && TrimSpace(version) != [] ==>
              Responds(r, objects, urn + "-" + version, reachable, check)
    ensures Acceptable(urn, version, parses) && TrimSpace(version) == [] ==>
              RespondsLatest(r, objects, urn, listing, reachable, check)
  {
    if Acceptable(urn, version, parses) {
      var got :| GetsDocument(got, objects, urn, version, listing, reachable, check) && r == ResponseTo(got);
      GetsWhatIsAsked(got, objects, urn, version, listing, reachable, check);
      if TrimSpace(version) != [] {
        AskedResponds(got, objects, urn + "-" + version, reachable, check);
      } else if Broken !in listing && SomeKey(objects, urn) && !SomeForeignKey(objects, urn)
                && StoredVersions(objects, urn) != {} {
        var n :| IsMax(n, StoredVersions(objects, urn))
                 && Asked(got, objects, urn + "-" + FormatInt(n), reachable, check);
        AskedResponds(got, objects, urn + "-" + FormatInt(n), reachable, check);
      }
    }
  }

  method GetByURN(
      store: Store, urn: GoString, version: GoString, listing: seq<KeyPage>, reachable: bool,
      check: Check, parses: UuidParser)
    returns (r: Response)
    requires TrimSpace(version) == [] ==> Broken in listing || Enumerates(listing, store.objects, urn)
    ensures Answers(r, store.objects, urn, version, listing, reachable, check, parses)
    ensures r == BadRequest <==> !Acceptable(urn, version, parses)
    ensures Acceptable(urn, version, parses) && TrimSpace(version) != [] ==>
              Responds(r, store.objects, urn + "-" + version, reachable, check)
    ensures Acceptable(urn, version, parses) && TrimSpace(version) == [] ==>
              RespondsLatest(r, store.objects, urn, listing, reachable, check)
  {
    r := Answer(store, urn, version, listing, reachable, check, parses);
    AnswersExactly(r, store.objects, urn, version, listing, reachable, check, parses);
  }

  method Answer(
      store: Store, urn: GoString, version: GoString, listing: seq<KeyPage>, reachable: bool,
      check: Check, parses: UuidParser)
    returns (r: Response)
    requires TrimSpace(version) == [] ==> Broken in listing || Enumerates(listing, store.objects, urn)
    ensures Answers(r, store.objects, urn, version, listing, reachable, check, parses)
  {
    if !UrnValid(urn, parses) {
      return BadRequest;
    }
    if TrimSpace(version) != [] {
      var ok := ValidVersion(version);
      if !ok {
        return BadRequest;
      }
    }
    var got := GetBOMByUrn(store, urn, version, listing, reachable, check);
    r := ResponseTo(got);
  }

  // ---------- what is shown can be fetched ----------

  lemma VersionIsNotBlank(version: GoString)
    requires IsVersion(version)
    ensures TrimSpace(version) == version && version != []
  {
    if n: nat :| n > 0 && version == Decimal(n) {
      DecimalCanonical(n);
    }
    assert !IsSpace(version[0]) && !IsSpace(version[|version| - 1]);
  }

  /** What a request for an existing version leads to. */
  function Served(objects: Objects, key: GoString, check: Check): Response
    requires key in objects
  {
    if check(objects[key].contents) then Document(objects[key].contents) else InternalError
  }

  lemma VersionIsServed(
      objects: Objects, urn: GoString, version: GoString,
      listing: seq<KeyPage>, check: Check, parses: UuidParser, r: Response)
    requires CanonicalUrn(urn) && ParsesUuids(parses) && IsVersion(version) && urn + "-" + version in objects
    requires Answers(r, objects, urn, version, listing, true, check, parses)
    ensures r == Served(objects, urn + "-" + version, check)
  {
    CanonicalIsValid(urn, parses);
    VersionIsNotBlank(version);
  }

  /** Asked for as the searches show it, a stored document is served, unless it is a wrapped version. */
  lemma ShownIsServed(
      objects: Objects, key: GoString, listing: seq<KeyPage>, check: Check, parses: UuidParser, r: Response)
    requires ParsesUuids(parses) && ApiKey(key) && key in objects
    requires Answers(r, objects, ShownAs(key).serialNumber, ShownAs(key).version, listing, true, check, parses)
    ensures r == if key[46..] == WRAPPED then BadRequest else Served(objects, key, check)
  {
    CanonicalIsValid(key[..45], parses);
    if key[46..] != WRAPPED {
      ApiVersion(key);
      VersionIsServed(objects, key[..45], key[46..], listing, check, parses, r);
    }
  }

  lemma ApiVersion(key: GoString)
    requires ApiKey(key)
    ensures key == key[..45] + "-" + key[46..]
    ensures IsVersion(key[46..]) <==> key[46..] != WRAPPED
  {
    var n := ApiSuffix(key);
    if key[46..] == WRAPPED {
      WrappedIsNoVersion();
    } else if key[46..] != ORIGINAL {
      assert n > 0;
    }
  }

  lemma WrappedIsNoVersion()
    ensures !IsVersion(WRAPPED)
  {
    assert WRAPPED[0] == '-';
    if n: nat :| n > 0 && WRAPPED == Decimal(n) {
      DecimalCanonical(n);
      assert IsDigit(WRAPPED[0]);
    }
  }

  /**
    * Every entry of a completed run can be fetched by the serial number and the version it shows, and
    * is answered with the bytes of its own object, exactly when it is not a wrapped version.
    */
  lemma FeedEntriesAreServed(
      objects: Objects, listing: seq<ObjectInfo>, codec: StatsCodec, after: int, limit: nat,
      envs: seq<Env>, pages: seq<Page>, i: nat, document: SplitKey,
      keys: seq<KeyPage>, check: Check, parses: UuidParser, r: Response)
    requires RunAtRest(objects, listing, codec, after, limit, envs, pages) && ParsesUuids(parses)
    requires EntryIs(objects, codec, pages, i, document)
    requires Answers(r, objects, document.serialNumber, document.version, keys, true, check, parses)
    ensures var key := Flat(pages)[i].key;
            key in objects && r == if key == key[..45] + "-" + WRAPPED then BadRequest else Served(objects, key, check)
  {
    var o := Flat(pages)[i];
    RunDelivers(objects, listing, codec, after, limit, envs, pages, o);
    ApiVersion(o.key);
    ShownIsServed(objects, o.key, keys, check, parses, r);
  }

  /** So it is with the legacy search, which shows what it lists under the same names. */
  lemma LegacyEntriesAreServed(
      objects: Objects, codec: StatsCodec, o: ObjectInfo,
      keys: seq<KeyPage>, check: Check, parses: UuidParser, r: Response)
    requires Readable(objects, codec) && ParsesUuids(parses) && o.key in objects
    requires var outcome := Feed.LegacyExaminer(HeadsOf(objects), codec)(o);
             outcome.Yielded?
             && Answers(r, objects, outcome.entry.serialNumber, outcome.entry.version, keys, true, check, parses)
    ensures r == if o.key[46..] == WRAPPED then BadRequest else Served(objects, o.key, check)
  {
    LegacyEntryOf(objects, codec, o);
    ShownIsServed(objects, o.key, keys, check, parses, r);
  }

  /** And with the versions of a URN, under another name for the wrapped one. */
  lemma UrnEntriesAreServed(
      objects: Objects, codec: StatsCodec, urn: GoString, v: Versions, i: nat, version: GoString,
      keys: seq<KeyPage>, check: Check, parses: UuidParser, r: Response)
    requires Readable(objects, codec) && CanonicalUrn(urn) && SomeKey(objects, urn) && ParsesUuids(parses)
    requires ListsVersions(Success(v), objects, urn) && UrnEntryIs(objects, urn, v, codec, i, version)
    requires Answers(r, objects, urn, version, keys, true, check, parses)
    ensures var key := urn + "-" + version;
            key in objects && r == if version == WRAPPED then BadRequest else Served(objects, key, check)
  {
    UrnViewExact(objects, urn, v, codec, version);
    var key := urn + "-" + version;
    assert key[..45] == urn && key[46..] == version;
    ApiVersion(key);
    if version == WRAPPED {
      WrappedIsNotBlank();
    } else {
      VersionIsServed(objects, urn, version, keys, check, parses, r);
    }
  }

  lemma WrappedIsNotBlank()
    ensures TrimSpace(WRAPPED) != []
  {
    DecimalCanonical(-MIN_INT64);
    assert WRAPPED == "-" + WRAPPED_DIGITS;
    assert IsDigit(WRAPPED_DIGITS[|WRAPPED_DIGITS| - 1]);
  }
}
