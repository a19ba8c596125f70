/** Object metadata, HEAD answers, and how a search turns a listed object into an entry. */
module Entries {
  import opened Results
  import opened ByteStrings
  import opened Components
  import opened Positions
  import Keys

  // ---------- stored metadata ----------

  const META_VERSION: GoString := "version"
  const META_CRYPTO_STATS: GoString := "crypto-stats"
  const META_CRYPTO_STATS_VERSION: GoString := "crypto-stats-version"
  const META_CRYPTO_STATS_TRUNCATED: GoString := "crypto-stats-truncated"
  const TRUE: GoString := "true"

  type MetadataMap = map<GoString, GoString>

  /** What one upload attaches to an object. */
  datatype Metadata = Metadata(version: GoString, cryptoStats: GoString, cryptoStatsVersion: GoString, truncated: bool)

  function MapOf(m: Metadata): MetadataMap {
    map[META_VERSION := m.version, META_CRYPTO_STATS := m.cryptoStats]
    + (if m.cryptoStatsVersion != "" then map[META_CRYPTO_STATS_VERSION := m.cryptoStatsVersion] else map[])
    + (if m.truncated then map[META_CRYPTO_STATS_TRUNCATED := TRUE] else map[])
  }

  /** The optional keys are there exactly when there is something to say. */
  lemma MapExactly(m: Metadata)
    ensures MapOf(m).Keys
         == {"version", "crypto-stats"}
            + (if m.cryptoStatsVersion == "" then {} else {"crypto-stats-version"})
            + (if m.truncated then {"crypto-stats-truncated"} else {})
    ensures MapOf(m)["version"] == m.version && MapOf(m)["crypto-stats"] == m.cryptoStats
    ensures m.cryptoStatsVersion != "" ==> MapOf(m)["crypto-stats-version"] == m.cryptoStatsVersion
    ensures m.truncated ==> MapOf(m)["crypto-stats-truncated"] == "true"
  {
    assert |META_VERSION| < |META_CRYPTO_STATS| < |META_CRYPTO_STATS_VERSION| < |META_CRYPTO_STATS_TRUNCATED|;
  }

  method Map(m: Metadata) returns (res: MetadataMap)
    ensures res == MapOf(m)
  {
    res := map[META_VERSION := m.version, META_CRYPTO_STATS := m.cryptoStats];
    if m.cryptoStatsVersion != "" {
      res := res[META_CRYPTO_STATS_VERSION := m.cryptoStatsVersion];
    }
    if m.truncated {
      res := res[META_CRYPTO_STATS_TRUNCATED := TRUE];
    }
  }

  /** The JSON encoding of the statistics is a parameter; uploads and searches share one that round-trips. */
  datatype StatsCodec = StatsCodec(encode: CryptoStats -> GoString, decode: GoString -> Option<CryptoStats>) {
    ghost predicate RoundTrips() {
      forall stats :: decode(encode(stats)) == Some(stats)
    }
  }

  // ---------- HEAD ----------

  /** `lastModified` is None when the answer carries none. */
  datatype HeadObject = HeadObject(lastModified: Option<int>, metadata: MetadataMap)

  datatype HeadAnswer = NotFound | Unavailable | Found(head: HeadObject)

  /** Whatever HEAD answers during one page, key by key. */
  type Heads = GoString -> HeadAnswer

  // ---------- entries ----------

  datatype Warning = StatsMissing | StatsInvalid | StatsShallow | StatsTruncated

  /** `createdAt` is the RFC 3339 timestamp at its precision, whole Unix seconds. */
  datatype SearchRes = SearchRes(
    serialNumber: GoString, version: GoString, createdAt: int, cryptoStats: Option<CryptoStats>, warnings: seq<Warning>)

  function StatsFromMetadata(metadata: MetadataMap, codec: StatsCodec): (Option<CryptoStats>, seq<Warning>) {
    if META_CRYPTO_STATS !in metadata then (None, [StatsMissing])
    else match codec.decode(metadata[META_CRYPTO_STATS])
      case None => (None, [StatsInvalid])
      case Some(stats) => (Some(stats), [])
  }

  function PagedWarnings(metadata: MetadataMap, stats: Option<CryptoStats>, codes: seq<Warning>): seq<Warning> {
    if stats.None? then codes
    else
      codes
      + (if META_CRYPTO_STATS_VERSION !in metadata then [StatsShallow] else [])
      + (if META_CRYPTO_STATS_TRUNCATED in metadata && metadata[META_CRYPTO_STATS_TRUNCATED] == TRUE
         then [StatsTruncated] else [])
  }

  datatype SearchError = HeadFailed | ListFailed | CursorWithoutLimit | UnexpectedKey | StatsUnreadable

  /** What examining one object leads to: a skip, a failed call, or an entry. */
  datatype Outcome = Skipped | Failed(error: SearchError) | Yielded(entry: SearchRes)

  function SecondOf(stamp: Option<int>): int {
    if stamp.None? then -UNIX_TO_INTERNAL else stamp.value / NANOS_PER_SECOND
  }

  function PagedEntry(key: Keys.SplitKey, answer: HeadAnswer, codec: StatsCodec): Outcome {
    match answer
    case NotFound => Skipped
    case Unavailable => Failed(HeadFailed)
    case Found(head) =>
      var (stats, codes) := StatsFromMetadata(head.metadata, codec);
      Yielded(SearchRes(key.serialNumber, key.version, SecondOf(head.lastModified), stats,
                        PagedWarnings(head.metadata, stats, codes)))
  }

  function PagedCandidateEntry(obj: ObjectInfo, answer: HeadAnswer, codec: StatsCodec): Outcome {
    match Keys.PagedKey(obj.key)
    case None => Skipped
    case Some(key) =>
      match PagedEntry(key, answer, codec)
      case Yielded(entry) => Yielded(entry.(createdAt := obj.Second()))
      case other => other
  }

  /**
    * A candidate is yielded exactly when its key is well formed and HEAD finds it, it fails the
    * call exactly when its key is well formed and HEAD is unavailable, and its created_at is the
    * LIST second whatever HEAD reports.
    */
  lemma CandidateFate(obj: ObjectInfo, answer: HeadAnswer, codec: StatsCodec)
    ensures PagedCandidateEntry(obj, answer, codec).Yielded? <==> Keys.WellKeyed(obj.key) && answer.Found?
    ensures PagedCandidateEntry(obj, answer, codec) == Failed(HeadFailed)
            <==> Keys.WellKeyed(obj.key) && answer.Unavailable?
    ensures PagedCandidateEntry(obj, answer, codec).Yielded? ==>
              var entry := PagedCandidateEntry(obj, answer, codec).entry;
              && entry.createdAt == obj.Second()
              && obj.key == entry.serialNumber + "-" + entry.version
  {
    Keys.SplitExactly(obj.key);
  }

  /** The statistics an object's metadata carry, if there are any that decode. */
  ghost predicate Carries(metadata: MetadataMap, codec: StatsCodec, stats: CryptoStats) {
    "crypto-stats" in metadata && codec.decode(metadata["crypto-stats"]) == Some(stats)
  }

  /**
    * An entry shows the statistics the object carries. Each warning is there exactly for its reason,
    * in the documented order: missing or invalid alone and without statistics; with statistics
    * shallow, then truncated.
    */
  lemma WarningsExactly(obj: ObjectInfo, head: HeadObject, codec: StatsCodec)
    requires Keys.WellKeyed(obj.key)
    ensures PagedCandidateEntry(obj, Found(head), codec).Yielded?
    ensures var entry, metadata := PagedCandidateEntry(obj, Found(head), codec).entry, head.metadata;
            var missing := "crypto-stats" !in metadata;
            var invalid := !missing && codec.decode(metadata["crypto-stats"]).None?;
            var shallow := "crypto-stats-version" !in metadata;
            var truncated := "crypto-stats-truncated" in metadata && metadata["crypto-stats-truncated"] == "true";
            && entry.createdAt == obj.Second()
            && (forall stats :: entry.cryptoStats == Some(stats) <==> Carries(metadata, codec, stats))
            && (entry.warnings == [StatsMissing] <==> missing)
            && (entry.warnings == [StatsInvalid] <==> invalid)
            && (!missing && !invalid ==>
                  entry.warnings == if shallow && truncated then [StatsShallow, StatsTruncated]
                                    else if shallow then [StatsShallow]
                                    else if truncated then [StatsTruncated]
                                    else [])
  {
    var (stats, codes) := StatsFromMetadata(head.metadata, codec);
    var warnings := PagedWarnings(head.metadata, stats, codes);
    assert warnings != [] ==> warnings[0] in {StatsMissing, StatsInvalid, StatsShallow, StatsTruncated};
  }

  // ---------- the legacy search ----------

  /** time.Time.IsZero: no stamp, or the first instant of the year 1. */
  predicate ZeroTime(stamp: Option<int>) { stamp.None? || stamp.value == -UNIX_TO_INTERNAL * NANOS_PER_SECOND }

  /** legacyCreatedAt: the HEAD clock, or the listing's when HEAD carries none. */
  function LegacyCreatedAt(head: HeadObject, obj: ObjectInfo): int {
    if ZeroTime(head.lastModified) then obj.Second() else SecondOf(head.lastModified)
  }

  function LegacyEntry(obj: ObjectInfo, answer: HeadAnswer, codec: StatsCodec): Outcome {
    match Keys.SplitObjectKey(obj.key)
    case None => Failed(UnexpectedKey)
    case Some(key) =>
      match answer
      case NotFound => Skipped
      case Unavailable => Failed(HeadFailed)
      case Found(head) =>
        if META_CRYPTO_STATS !in head.metadata then Skipped
        else match codec.decode(head.metadata[META_CRYPTO_STATS])
          case None => Failed(StatsUnreadable)
          case Some(stats) =>
            Yielded(SearchRes(key.serialNumber, key.version, LegacyCreatedAt(head, obj), Some(stats), []))
  }

  ghost predicate HasStats(answer: HeadAnswer) { answer.Found? && META_CRYPTO_STATS in answer.head.metadata }

  ghost predicate HasReadableStats(answer: HeadAnswer, codec: StatsCodec) {
    HasStats(answer) && codec.decode(answer.head.metadata[META_CRYPTO_STATS]).Some?
  }

  /**
    * The legacy call fails on a key without `-`, an unavailable HEAD and unreadable statistics,
    * skips a vanished object and one without statistics, and never warns.
    */
  lemma LegacyFate(obj: ObjectInfo, answer: HeadAnswer, codec: StatsCodec)
    ensures LegacyEntry(obj, answer, codec) == Failed(UnexpectedKey) <==> '-' !in obj.key
    ensures LegacyEntry(obj, answer, codec) == Failed(StatsUnreadable) <==>
            '-' in obj.key && HasStats(answer) && !HasReadableStats(answer, codec)
    ensures LegacyEntry(obj, answer, codec) == Skipped <==>
            '-' in obj.key && (answer.NotFound? || (answer.Found? && !HasStats(answer)))
    ensures LegacyEntry(obj, answer, codec).Yielded? <==> '-' in obj.key && HasReadableStats(answer, codec)
    ensures LegacyEntry(obj, answer, codec).Yielded? ==>
              var entry := LegacyEntry(obj, answer, codec).entry;
              && obj.key == entry.serialNumber + "-" + entry.version
              && entry.warnings == []
              && entry.cryptoStats.Some? && Carries(answer.head.metadata, codec, entry.cryptoStats.value)
              && (ZeroTime(answer.head.lastModified) ==> entry.createdAt == obj.Second())
              && (!ZeroTime(answer.head.lastModified) ==>
                    0 <= answer.head.lastModified.value - entry.createdAt * 1_000_000_000 < 1_000_000_000)
  {
    Keys.SplitExactly(obj.key);
  }

  // ---------- upload to search ----------

  const CRYPTO_STATS_VERSION: GoString := "2"

  /** The metadata an upload of a document with these components stores. */
  ghost predicate UploadMetadata(m: Metadata, components: Option<seq<Component>>, codec: StatsCodec) {
    && m.cryptoStatsVersion == "2"
    && (m.truncated <==> components.Some? && Height(components.value) > MAX_COMPONENT_DEPTH)
    && exists stats :: m.cryptoStats == codec.encode(stats)
         && forall counter :: stats.Get(counter)
              == (if components.None? then 0 else ForestCount(components.value, MAX_COMPONENT_DEPTH, counter))
  }

  /**
    * End to end: an object written by an upload shows its recursive counts, the truncated warning
    * exactly when its document nests deeper than the bound, and never any other warning.
    */
  lemma UploadShownFaithfully(m: Metadata, components: Option<seq<Component>>, codec: StatsCodec)
    requires codec.RoundTrips() && UploadMetadata(m, components, codec)
    ensures var (stats, codes) := StatsFromMetadata(MapOf(m), codec);
            && stats.Some?
            && (forall counter :: stats.value.Get(counter)
                  == (if components.None? then 0 else ForestCount(components.value, MAX_COMPONENT_DEPTH, counter)))
            && PagedWarnings(MapOf(m), stats, codes)
               == (if components.Some? && Height(components.value) > MAX_COMPONENT_DEPTH then [StatsTruncated] else [])
  {
    MapExactly(m);
  }
}
