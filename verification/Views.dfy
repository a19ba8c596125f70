/** What the paged feed, the legacy search and the versions of a URN show of a bucket written by uploads. */
module Views {
  import opened Results
  import opened ByteStrings
  import opened Components
  import opened Decimals
  import opened Keys
  import opened Positions
  import opened Candidates
  import opened Entries
  import opened Pages
  import opened Runs
  import opened Paging
  import opened Consumers
  import Feed
  import opened Storage
  import opened Uploads
  import opened Versioning
  import opened Documents

  /** Written by uploads, with statistics every view can read. */
  ghost predicate Readable(objects: Objects, codec: StatsCodec) {
    && ApiWritten(objects)
    && forall key :: key in objects ==> StatsReadable(objects[key], codec)
  }

  /** HEAD answers of a bucket at rest. */
  function HeadsOf(objects: Objects): Heads {
    (key: GoString) =>
      if key in objects then Found(HeadObject(Some(objects[key].stamp), objects[key].metadata)) else NotFound
  }

  ghost predicate ListingOf(listing: seq<ObjectInfo>, objects: Objects) {
    && DistinctKeys(listing)
    && forall o :: o in listing <==> o.key in objects && o.stamp == objects[o.key].stamp
  }

  function PagedEnv(listing: seq<ObjectInfo>, objects: Objects, codec: StatsCodec): Env {
    Env(listing, Examiner(HeadsOf(objects), codec))
  }

  /** The digits of -2^63. */
  const WRAPPED_DIGITS: GoString := Decimal(-MIN_INT64)

  /**
    * What the two searches show for a key. They split it at its last `-`, so the minus sign of a
    * wrapped version ends up in the serial number.
    */
  function ShownAs(key: GoString): SplitKey
    requires ApiKey(key)
  {
    if key[46..] == WRAPPED then SplitKey(key[..45] + "-", WRAPPED_DIGITS) else SplitKey(key[..45], key[46..])
  }

  lemma ApiKeySplits(key: GoString)
    requires ApiKey(key)
    ensures PagedKey(key) == Some(ShownAs(key)) && SplitObjectKey(key) == Some(ShownAs(key))
  {
    var n := ApiSuffix(key);
    if key[46..] == WRAPPED {
      WrappedSplits(key[..45]);
    } else {
      if key[46..] != ORIGINAL {
        DecimalCanonical(n);
      }
      assert IsVersion(key[46..]);
      PagedKeyExact(key);
    }
  }

  lemma WrappedSplits(urn: GoString)
    ensures PagedKey(urn + "-" + WRAPPED) == Some(SplitKey(urn + "-", WRAPPED_DIGITS))
  {
    var key := urn + "-" + WRAPPED;
    assert key == (urn + "-") + "-" + WRAPPED_DIGITS;
    assert IsVersion(WRAPPED_DIGITS);
    PagedKeyExact(key);
  }

  /** No two keys are shown as the same document. */
  lemma ShownAsInjective(a: GoString, b: GoString)
    requires ApiKey(a) && ApiKey(b) && ShownAs(a) == ShownAs(b)
    ensures a == b
  {
    ApiKeySplits(a);
    ApiKeySplits(b);
    SplitExactly(a);
    SplitExactly(b);
  }

  /** A key other than the wrapped one is shown under its own URN. */
  lemma ShownUnderUrn(key: GoString, urn: GoString, version: GoString)
    requires ApiKey(key) && CanonicalUrn(urn)
    ensures ShownAs(key) == SplitKey(urn, version) <==> key == urn + "-" + version && version != WRAPPED
    ensures ShownAs(key) == SplitKey(urn + "-", version) <==>
            key == urn + "-" + WRAPPED && version == WRAPPED_DIGITS
  {
    var n := ApiSuffix(key);
    assert (urn + "-")[..45] == urn;
    assert key == urn + "-" + version ==> key[..45] == urn && key[46..] == version;
    assert key == urn + "-" + WRAPPED ==> key[..45] == urn && key[46..] == WRAPPED;
  }

  /** What uploads store is readable, once the statistics' encoding round-trips. */
  lemma DescribedIsReadable(obj: StoredObject, bom: Bom, codec: StatsCodec)
    requires codec.RoundTrips() && DescribesDocument(obj, bom, codec)
    ensures StatsReadable(obj, codec)
  {
    var m: Metadata :| obj.metadata == MapOf(m) && UploadMetadata(m, bom.components, codec);
    UploadShownFaithfully(m, bom.components, codec);
  }

  /** Every state of a bucket written by uploads only is readable by all three views. */
  lemma {:induction false} HistoryIsReadable(states: seq<Objects>, steps: seq<Step>, codec: StatsCodec, i: nat)
    requires IsHistory(states, steps) && AllDescribed(steps, codec) && codec.RoundTrips() && i < |states|
    ensures Readable(states[i], codec)
  {
    if i > 0 {
      HistoryIsReadable(states, steps, codec, i - 1);
      assert Versioning.Follows(states[i - 1], steps[i - 1], states[i - 1 + 1]);
      StepStaysReadable(states[i - 1], steps[i - 1], codec);
    }
  }

  ghost predicate StatsReadable(obj: StoredObject, codec: StatsCodec) {
    META_CRYPTO_STATS in obj.metadata && codec.decode(obj.metadata[META_CRYPTO_STATS]).Some?
  }

  lemma StepStaysReadable(objects: Objects, step: Step, codec: StatsCodec)
    requires Readable(objects, codec) && codec.RoundTrips() && StoresDescribed(step, codec)
    requires Enabled(objects, step) && Validated(step)
    ensures Readable(Apply(objects, step), codec)
  {
    StepKeepsForm(objects, step);
    PutsAreTheChange(objects, step);
    PutsAreReadable(step, codec);
  }

  lemma PutsAreReadable(step: Step, codec: StatsCodec)
    requires codec.RoundTrips() && StoresDescribed(step, codec)
    ensures forall key :: key in Puts(step) ==> StatsReadable(Puts(step)[key], codec)
  {
    forall obj, bom | DescribesDocument(obj, bom, codec)
      ensures StatsReadable(obj, codec)
    {
      DescribedIsReadable(obj, bom, codec);
    }
  }

  /**
    * End to end: the paged entry of an uploaded document shows its recursive counts, the truncated
    * warning exactly when it nests deeper than the bound, and never any other warning.
    */
  lemma UploadedDocumentShown(objects: Objects, obj: ObjectInfo, bom: Bom, codec: StatsCodec)
    requires codec.RoundTrips()
    requires obj.key in objects && ApiKey(obj.key) && DescribesDocument(objects[obj.key], bom, codec)
    ensures var outcome := Examiner(HeadsOf(objects), codec)(obj);
            && outcome.Yielded?
            && outcome.entry.cryptoStats.Some?
            && (forall counter :: outcome.entry.cryptoStats.value.Get(counter)
                  == (if bom.components.None? then 0
                      else ForestCount(bom.components.value, MAX_COMPONENT_DEPTH, counter)))
            && (bom.components.Some? ==>
                  CountsByName(outcome.entry.cryptoStats.value, PreOrder(bom.components.value, 1)))
            && outcome.entry.warnings
               == (if bom.components.Some? && Height(bom.components.value) > MAX_COMPONENT_DEPTH
                   then [StatsTruncated] else [])
  {
    var m: Metadata :| objects[obj.key].metadata == MapOf(m) && UploadMetadata(m, bom.components, codec);
    UploadShownFaithfully(m, bom.components, codec);
    ApiKeySplits(obj.key);
    KnownEntry(objects, obj, codec);
    if bom.components.Some? {
      SumsAreByName(Examiner(HeadsOf(objects), codec)(obj).entry.cryptoStats.value, bom.components.value);
    }
  }

  /** What a search makes of a well-keyed object of the bucket. */
  lemma KnownEntry(objects: Objects, obj: ObjectInfo, codec: StatsCodec)
    requires obj.key in objects && WellKeyed(obj.key)
    ensures var outcome := Examiner(HeadsOf(objects), codec)(obj);
            var (stats, codes) := StatsFromMetadata(objects[obj.key].metadata, codec);
            && outcome.Yielded?
            && outcome.entry.cryptoStats == stats
            && outcome.entry.warnings == PagedWarnings(objects[obj.key].metadata, stats, codes)
  {
  }

  // ---------- the paged feed ----------

  lemma EveryObjectIsOffered(objects: Objects, listing: seq<ObjectInfo>, codec: StatsCodec, o: ObjectInfo)
    requires Readable(objects, codec) && ListingOf(listing, objects)
    ensures PagedEnv(listing, objects, codec).Offers(o) <==> o in listing
    ensures o in listing ==>
              var entry := PagedEnv(listing, objects, codec).exam(o).entry;
              SplitKey(entry.serialNumber, entry.version) == ShownAs(o.key)
  {
    OffersExactly(listing, HeadsOf(objects), codec, o);
    if o in listing {
      ApiKeySplits(o.key);
    }
  }

  lemma PagedViewExact(objects: Objects, listing: seq<ObjectInfo>, codec: StatsCodec, after: int, o: ObjectInfo)
    requires Readable(objects, codec) && ListingOf(listing, objects)
    ensures o in Eligible(PagedEnv(listing, objects, codec), after) <==> o in listing && o.Second() > after
  {
    EligibleElements(PagedEnv(listing, objects, codec), after);
    EveryObjectIsOffered(objects, listing, codec, o);
  }

  // ---------- the legacy search ----------

  lemma LegacyEntryOf(objects: Objects, codec: StatsCodec, o: ObjectInfo)
    requires Readable(objects, codec) && o.key in objects
    ensures var outcome := Feed.LegacyExaminer(HeadsOf(objects), codec)(o);
            outcome.Yielded? && SplitKey(outcome.entry.serialNumber, outcome.entry.version) == ShownAs(o.key)
  {
    ApiKeySplits(o.key);
    LegacyFate(o, HeadsOf(objects)(o.key), codec);
  }

  /** The legacy search shows an uploaded document with its counts and the second it was stored in, without warnings. */
  lemma UploadedLegacyShown(objects: Objects, o: ObjectInfo, bom: Bom, codec: StatsCodec)
    requires Readable(objects, codec) && codec.RoundTrips() && o.key in objects
    requires DescribesDocument(objects[o.key], bom, codec) && o.stamp == objects[o.key].stamp
    ensures var outcome := Feed.LegacyExaminer(HeadsOf(objects), codec)(o);
            && outcome.Yielded? && outcome.entry.warnings == [] && outcome.entry.cryptoStats.Some?
            && 0 <= o.stamp - outcome.entry.createdAt * 1_000_000_000 < 1_000_000_000
            && (bom.components.None? ==> forall counter :: outcome.entry.cryptoStats.value.Get(counter) == 0)
            && (bom.components.Some? ==>
                  CountsByName(outcome.entry.cryptoStats.value, PreOrder(bom.components.value, 1)))
  {
    LegacyEntryOf(objects, codec, o);
    LegacyFate(o, HeadsOf(objects)(o.key), codec);
    var stats := Feed.LegacyExaminer(HeadsOf(objects), codec)(o).entry.cryptoStats.value;
    StatsOfUpload(objects[o.key], bom, codec, stats);
    if bom.components.Some? {
      SumsAreByName(stats, bom.components.value);
    }
  }

  lemma {:induction false} NoLegacyFailure(objects: seq<ObjectInfo>, exam: Exam)
    requires forall o :: o in objects ==> exam(o).Yielded?
    ensures Feed.FirstFailure(objects, exam) == None
  {
    if objects != [] {
      assert objects[0] in objects;
      NoLegacyFailure(objects[1..], exam);
    }
  }

  /**
    * The legacy search succeeds with the objects stamped after the instant time.Unix makes of the
    * watermark. Up to where that wraps around, they are the paged objects plus those stamped
    * strictly inside the `after` second.
    */
  lemma LegacyViewExact(objects: Objects, listing: seq<ObjectInfo>, codec: StatsCodec, after: int, o: ObjectInfo)
    requires Readable(objects, codec) && ListingOf(listing, objects)
    ensures var listed := Feed.ModifiedAfter(listing, after);
            var exam := Feed.LegacyExaminer(HeadsOf(objects), codec);
            && Feed.FirstFailure(listed, exam) == None
            && (o in Yields(listed, exam) <==> o in listing && o.stamp > Feed.Instant(after) * NANOS_PER_SECOND)
            && (after + UNIX_TO_INTERNAL <= MAX_INT64 ==>
                  (o in Yields(listed, exam) <==>
                    || o in Eligible(PagedEnv(listing, objects, codec), after)
                    || (o in listing && o.Second() == after && o.stamp > after * NANOS_PER_SECOND)))
  {
    var listed := Feed.ModifiedAfter(listing, after);
    var exam := Feed.LegacyExaminer(HeadsOf(objects), codec);
    Feed.ModifiedAfterElements(listing, after);
    forall x | x in listed
      ensures exam(x).Yielded?
    {
      LegacyEntryOf(objects, codec, x);
    }
    NoLegacyFailure(listed, exam);
    YieldsElements(listed, exam);
    PagedViewExact(objects, listing, codec, after, o);
    assert o.stamp > after * NANOS_PER_SECOND <==>
           o.Second() > after || (o.Second() == after && o.stamp > after * NANOS_PER_SECOND);
  }

  /** A stamp Go can represent, not before the year 1. */
  predicate GoStamp(o: ObjectInfo) { 0 <= o.Second() + UNIX_TO_INTERNAL <= MAX_INT64 }

  /** From there on the two part: the legacy search shows the whole bucket, the feed nothing of it. */
  lemma LegacyWrapsAround(objects: Objects, listing: seq<ObjectInfo>, codec: StatsCodec, after: int, o: ObjectInfo)
    requires Readable(objects, codec) && ListingOf(listing, objects)
    requires MAX_INT64 - UNIX_TO_INTERNAL < after <= MAX_INT64 && o in listing && GoStamp(o)
    ensures o in Yields(Feed.ModifiedAfter(listing, after), Feed.LegacyExaminer(HeadsOf(objects), codec))
    ensures o !in Eligible(PagedEnv(listing, objects, codec), after)
  {
    LegacyViewExact(objects, listing, codec, after, o);
    PagedViewExact(objects, listing, codec, after, o);
    Feed.InstantExactly(after);
  }

  // ---------- the versions of a URN ----------

  lemma ProcessedElements(v: Versions, version: GoString)
    ensures version in ToProcess(v) <==>
            (exists n :: n in v.versions && FormatInt(n) == version) || (v.hasOriginal && version == ORIGINAL)
  {
    var numbered := seq(|v.versions|, i requires 0 <= i < |v.versions| => FormatInt(v.versions[i]));
    if n :| n in v.versions && FormatInt(n) == version {
      var i :| 0 <= i < |v.versions| && v.versions[i] == n;
      assert numbered[i] == version;
    }
    if version in numbered {
      var i :| 0 <= i < |numbered| && numbered[i] == version;
      assert v.versions[i] in v.versions;
    }
  }

  lemma KeyOfVersion(objects: Objects, urn: GoString, version: GoString)
    requires ApiWritten(objects) && CanonicalUrn(urn)
    ensures urn + "-" + version in objects <==>
            || (version == ORIGINAL && UploadKeyOriginal(urn) in objects)
            || exists n :: n in StoredVersions(objects, urn) && FormatInt(n) == version
  {
    var key := urn + "-" + version;
    if key in objects {
      assert HasPrefix(key, urn) && key[46..] == version;
      ApiKeyReads(key, urn);
      OriginalSuffix(key, urn);
      if SuffixOf(key, urn).Number? {
        var n := SuffixOf(key, urn).n;
        assert UploadKey(urn, n)[46..] == FormatInt(n);
        StoredVersionsExact(objects, urn, n);
      }
    }
    if n :| n in StoredVersions(objects, urn) && FormatInt(n) == version {
      StoredVersionsExact(objects, urn, n);
    }
  }

  /** The listed versions are the version parts of the URN's keys. */
  lemma ProcessedExactly(objects: Objects, urn: GoString, v: Versions, version: GoString)
    requires ApiWritten(objects) && CanonicalUrn(urn) && SomeKey(objects, urn)
    requires ListsVersions(Success(v), objects, urn)
    ensures version in ToProcess(v) <==> urn + "-" + version in objects
  {
    SomeVersionExists(objects, urn);
    ProcessedElements(v, version);
    KeyOfVersion(objects, urn, version);
  }

  /** No version is asked for twice. */
  lemma ProcessedOnce(objects: Objects, urn: GoString, v: Versions)
    requires ApiWritten(objects) && CanonicalUrn(urn) && SomeKey(objects, urn)
    requires ListsVersions(Success(v), objects, urn)
    ensures forall i, j :: 0 <= i < j < |ToProcess(v)| ==> ToProcess(v)[i] != ToProcess(v)[j]
  {
    VersionsAscend(objects, urn, v);
    forall i, j | 0 <= i < j < |ToProcess(v)|
      ensures ToProcess(v)[i] != ToProcess(v)[j]
    {
      if j < |v.versions| {
        if ToProcess(v)[i] == ToProcess(v)[j] {
          FormatInjective(v.versions[i], v.versions[j]);
        }
      } else {
        VersionIsNotOriginal(urn, v.versions[i]);
        assert UploadKey(urn, v.versions[i]) != UploadKeyOriginal(urn);
      }
    }
  }

  /** Entry i of what UrnVersions shows is this version. */
  ghost predicate UrnEntryIs(
      objects: Objects, urn: GoString, v: Versions, codec: StatsCodec, i: int, version: GoString)
  {
    var shown := ShownOf(ToProcess(v), Shower(urn, HeadsOf(objects), codec));
    0 <= i < |shown| && shown[i].version == version
  }

  ghost predicate UrnAtMostOnce(objects: Objects, urn: GoString, v: Versions, codec: StatsCodec, version: GoString) {
    forall i, j ::
      UrnEntryIs(objects, urn, v, codec, i, version) && UrnEntryIs(objects, urn, v, codec, j, version) ==> i == j
  }

  lemma ShowsStoredVersion(objects: Objects, urn: GoString, codec: StatsCodec, version: GoString)
    requires Readable(objects, codec) && urn + "-" + version in objects
    ensures var shown := Shower(urn, HeadsOf(objects), codec)(version); shown.Shows? && shown.entry.version == version
  {
    assert StatsReadable(objects[urn + "-" + version], codec);
  }

  lemma ProcessedAreShown(objects: Objects, urn: GoString, v: Versions, codec: StatsCodec)
    requires Readable(objects, codec) && CanonicalUrn(urn) && SomeKey(objects, urn)
    requires ListsVersions(Success(v), objects, urn)
    ensures forall i :: 0 <= i < |ToProcess(v)| ==>
              var shown := Shower(urn, HeadsOf(objects), codec)(ToProcess(v)[i]);
              shown.Shows? && shown.entry.version == ToProcess(v)[i]
  {
    var show := Shower(urn, HeadsOf(objects), codec);
    forall i | 0 <= i < |ToProcess(v)|
      ensures show(ToProcess(v)[i]).Shows? && show(ToProcess(v)[i]).entry.version == ToProcess(v)[i]
    {
      ProcessedExactly(objects, urn, v, ToProcess(v)[i]);
      ShowsStoredVersion(objects, urn, codec, ToProcess(v)[i]);
    }
  }

  lemma {:induction false} NoneFails(versions: seq<GoString>, show: Showing)
    requires forall i :: 0 <= i < |versions| ==> show(versions[i]).Shows?
    ensures FirstFails(versions, show) == None
  {
    if versions != [] {
      NoneFails(versions[1..], show);
    }
  }

  /** Without anything left out, the entries are the versions one for one. */
  lemma {:induction false} ShownOneForOne(versions: seq<GoString>, show: Showing)
    requires forall i :: 0 <= i < |versions| ==>
               show(versions[i]).Shows? && show(versions[i]).entry.version == versions[i]
    ensures |ShownOf(versions, show)| == |versions|
    ensures forall i :: 0 <= i < |versions| ==>
              && ShownOf(versions, show)[i].version == versions[i]
              && Shows(ShownOf(versions, show)[i]) == show(versions[i])
  {
    if versions != [] {
      ShownOneForOne(versions[..|versions| - 1], show);
    }
  }

  /**
    * UrnVersions succeeds and shows exactly the versions stored under the URN, `original` included,
    * and each of them once.
    */
  lemma UrnViewExact(objects: Objects, urn: GoString, v: Versions, codec: StatsCodec, version: GoString)
    requires Readable(objects, codec) && CanonicalUrn(urn) && SomeKey(objects, urn)
    requires ListsVersions(Success(v), objects, urn)
    ensures FirstFails(ToProcess(v), Shower(urn, HeadsOf(objects), codec)) == None
    ensures (exists i :: UrnEntryIs(objects, urn, v, codec, i, version)) <==> urn + "-" + version in objects
    ensures UrnAtMostOnce(objects, urn, v, codec, version)
  {
    ProcessedAreShown(objects, urn, v, codec);
    NoneFails(ToProcess(v), Shower(urn, HeadsOf(objects), codec));
    EntriesAreProcessed(objects, urn, v, codec);
    ProcessedExactly(objects, urn, v, version);
    ProcessedOnce(objects, urn, v);
    if version in ToProcess(v) {
      var i :| 0 <= i < |ToProcess(v)| && ToProcess(v)[i] == version;
      assert UrnEntryIs(objects, urn, v, codec, i, version);
    }
  }

  lemma EntriesAreProcessed(objects: Objects, urn: GoString, v: Versions, codec: StatsCodec)
    requires Readable(objects, codec) && CanonicalUrn(urn) && SomeKey(objects, urn)
    requires ListsVersions(Success(v), objects, urn)
    ensures forall i, version ::
              UrnEntryIs(objects, urn, v, codec, i, version) <==> 0 <= i < |ToProcess(v)| && ToProcess(v)[i] == version
  {
    ProcessedAreShown(objects, urn, v, codec);
    ShownOneForOne(ToProcess(v), Shower(urn, HeadsOf(objects), codec));
  }

  /** The version list shows an uploaded document with its counts and the second it was stored in. */
  lemma UploadedVersionShown(
      objects: Objects, urn: GoString, v: Versions, codec: StatsCodec, i: nat, version: GoString, bom: Bom)
    requires Readable(objects, codec) && CanonicalUrn(urn) && SomeKey(objects, urn) && codec.RoundTrips()
    requires ListsVersions(Success(v), objects, urn) && UrnEntryIs(objects, urn, v, codec, i, version)
    requires urn + "-" + version in objects && DescribesDocument(objects[urn + "-" + version], bom, codec)
    ensures var entry := ShownOf(ToProcess(v), Shower(urn, HeadsOf(objects), codec))[i];
            && 0 <= objects[urn + "-" + version].stamp - entry.createdAt * 1_000_000_000 < 1_000_000_000
            && (bom.components.None? ==> forall counter :: entry.cryptoStats.Get(counter) == 0)
            && (bom.components.Some? ==> CountsByName(entry.cryptoStats, PreOrder(bom.components.value, 1)))
  {
    var key, show := urn + "-" + version, Shower(urn, HeadsOf(objects), codec);
    EntriesAreProcessed(objects, urn, v, codec);
    ProcessedAreShown(objects, urn, v, codec);
    ShownOneForOne(ToProcess(v), show);
    var entry := ShownOf(ToProcess(v), show)[i];
    assert show(version) == Shows(entry);
    ShowVersionExactly(urn, version, HeadsOf(objects), codec);
    StatsOfUpload(objects[key], bom, codec, entry.cryptoStats);
    if bom.components.Some? {
      SumsAreByName(entry.cryptoStats, bom.components.value);
    }
  }

  lemma StatsOfUpload(obj: StoredObject, bom: Bom, codec: StatsCodec, stats: CryptoStats)
    requires codec.RoundTrips() && DescribesDocument(obj, bom, codec) && Carries(obj.metadata, codec, stats)
    ensures forall counter :: stats.Get(counter)
              == (if bom.components.None? then 0
                  else ForestCount(bom.components.value, MAX_COMPONENT_DEPTH, counter))
  {
    var m: Metadata :| obj.metadata == MapOf(m) && UploadMetadata(m, bom.components, codec);
    MapExactly(m);
  }

  // ---------- a completed run of the feed ----------

  /** A run of the feed that found the bucket at rest. */
  ghost predicate RunAtRest(
      objects: Objects, listing: seq<ObjectInfo>, codec: StatsCodec, after: int, limit: nat,
      envs: seq<Env>, pages: seq<Page>)
  {
    && Readable(objects, codec) && ListingOf(listing, objects)
    && Completed(after, limit, envs, pages) && Still(envs, PagedEnv(listing, objects, codec))
  }

  /** The bucket holds this key with a stamp in a second after the watermark. */
  predicate StoredAfter(objects: Objects, key: GoString, after: int) {
    key in objects && objects[key].stamp / NANOS_PER_SECOND > after
  }

  /** Entry i of what a run delivers is this document. */
  ghost predicate EntryIs(objects: Objects, codec: StatsCodec, pages: seq<Page>, i: int, document: SplitKey) {
    && 0 <= i < |Flat(pages)|
    && var outcome := Examiner(HeadsOf(objects), codec)(Flat(pages)[i]);
       outcome.Yielded? && SplitKey(outcome.entry.serialNumber, outcome.entry.version) == document
  }

  ghost predicate AtMostOnce(objects: Objects, codec: StatsCodec, pages: seq<Page>, document: SplitKey) {
    forall i, j ::
      EntryIs(objects, codec, pages, i, document) && EntryIs(objects, codec, pages, j, document) ==> i == j
  }

  /** A run delivers the objects stored in a second after its watermark, each as its key reads. */
  lemma RunDelivers(
      objects: Objects, listing: seq<ObjectInfo>, codec: StatsCodec, after: int, limit: nat,
      envs: seq<Env>, pages: seq<Page>, o: ObjectInfo)
    requires RunAtRest(objects, listing, codec, after, limit, envs, pages)
    ensures Ascending(Flat(pages))
    ensures o in Flat(pages) <==> o.key in objects && o.stamp == objects[o.key].stamp && o.Second() > after
    ensures o in Flat(pages) ==>
              var outcome := Examiner(HeadsOf(objects), codec)(o);
              outcome.Yielded? && SplitKey(outcome.entry.serialNumber, outcome.entry.version) == ShownAs(o.key)
  {
    PagingIsInvisible(after, limit, envs, pages, PagedEnv(listing, objects, codec));
    RunStrictlyIncreasing(after, limit, envs, pages);
    PagedViewExact(objects, listing, codec, after, o);
    EveryObjectIsOffered(objects, listing, codec, o);
  }

  /** No document comes twice in a run. */
  lemma NoDocumentTwice(
      objects: Objects, listing: seq<ObjectInfo>, codec: StatsCodec, after: int, limit: nat,
      envs: seq<Env>, pages: seq<Page>, i: int, j: int, document: SplitKey)
    requires RunAtRest(objects, listing, codec, after, limit, envs, pages)
    requires EntryIs(objects, codec, pages, i, document) && EntryIs(objects, codec, pages, j, document)
    ensures i == j
  {
    var all := Flat(pages);
    RunDelivers(objects, listing, codec, after, limit, envs, pages, all[i]);
    RunDelivers(objects, listing, codec, after, limit, envs, pages, all[j]);
    ShownAsInjective(all[i].key, all[j].key);
    AscendingNoDuplicates(all);
  }

  /** An object after the watermark is an entry of the run, and the entry comes from it. */
  lemma EntryOf(
      objects: Objects, listing: seq<ObjectInfo>, codec: StatsCodec, after: int, limit: nat,
      envs: seq<Env>, pages: seq<Page>, key: GoString)
    requires RunAtRest(objects, listing, codec, after, limit, envs, pages) && ApiKey(key)
    ensures (exists i :: EntryIs(objects, codec, pages, i, ShownAs(key))) <==> StoredAfter(objects, key, after)
  {
    var all, shown := Flat(pages), ShownAs(key);
    if StoredAfter(objects, key, after) {
      var o := ObjectInfo(key, objects[key].stamp);
      RunDelivers(objects, listing, codec, after, limit, envs, pages, o);
      var i :| 0 <= i < |all| && all[i] == o;
      assert EntryIs(objects, codec, pages, i, shown);
    }
    if i :| EntryIs(objects, codec, pages, i, shown) {
      EntryHasKey(objects, listing, codec, after, limit, envs, pages, key, i);
    }
  }

  lemma EntryHasKey(
      objects: Objects, listing: seq<ObjectInfo>, codec: StatsCodec, after: int, limit: nat,
      envs: seq<Env>, pages: seq<Page>, key: GoString, i: int)
    requires RunAtRest(objects, listing, codec, after, limit, envs, pages) && ApiKey(key)
    requires EntryIs(objects, codec, pages, i, ShownAs(key))
    ensures StoredAfter(objects, key, after)
  {
    var o := Flat(pages)[i];
    RunDelivers(objects, listing, codec, after, limit, envs, pages, o);
    ShownAsInjective(o.key, key);
  }

  /**
    * A completed run has exactly one entry for every document of a canonical URN stored in a second
    * after its watermark, but for a wrapped version: that one it has under another name.
    */
  lemma FeedViewExact(
      objects: Objects, listing: seq<ObjectInfo>, codec: StatsCodec, after: int, limit: nat,
      envs: seq<Env>, pages: seq<Page>, urn: GoString, version: GoString)
    requires RunAtRest(objects, listing, codec, after, limit, envs, pages) && CanonicalUrn(urn)
    ensures var key := urn + "-" + version;
            && ((exists i :: EntryIs(objects, codec, pages, i, SplitKey(urn, version))) <==>
                  StoredAfter(objects, key, after) && version != WRAPPED)
            && AtMostOnce(objects, codec, pages, SplitKey(urn, version))
  {
    var key, document := urn + "-" + version, SplitKey(urn, version);
    if key in objects && version != WRAPPED {
      ShownUnderUrn(key, urn, version);
      EntryOf(objects, listing, codec, after, limit, envs, pages, key);
    }
    if i :| EntryIs(objects, codec, pages, i, document) {
      RunDelivers(objects, listing, codec, after, limit, envs, pages, Flat(pages)[i]);
      ShownUnderUrn(Flat(pages)[i].key, urn, version);
    }
    forall i, j | EntryIs(objects, codec, pages, i, document) && EntryIs(objects, codec, pages, j, document)
      ensures i == j
    {
      NoDocumentTwice(objects, listing, codec, after, limit, envs, pages, i, j, document);
    }
  }

  /** The name a wrapped version goes by in the feed: the minus sign belongs to the serial number. */
  lemma WrappedInFeed(
      objects: Objects, listing: seq<ObjectInfo>, codec: StatsCodec, after: int, limit: nat,
      envs: seq<Env>, pages: seq<Page>, urn: GoString)
    requires RunAtRest(objects, listing, codec, after, limit, envs, pages) && CanonicalUrn(urn)
    ensures (exists i :: EntryIs(objects, codec, pages, i, SplitKey(urn + "-", WRAPPED_DIGITS))) <==>
            StoredAfter(objects, UploadKey(urn, MIN_INT64), after)
  {
    var key := urn + "-" + WRAPPED;
    UploadKeyIsApiKey(urn, MIN_INT64);
    ShownUnderUrn(key, urn, WRAPPED_DIGITS);
    EntryOf(objects, listing, codec, after, limit, envs, pages, key);
  }

  /** The run has this version of the URN exactly when UrnVersions has it and it is stored after the watermark. */
  ghost predicate AgreeOn(
      objects: Objects, codec: StatsCodec, after: int, pages: seq<Page>, urn: GoString, v: Versions, version: GoString)
  {
    (exists i :: EntryIs(objects, codec, pages, i, SplitKey(urn, version))) <==>
    (exists i :: UrnEntryIs(objects, urn, v, codec, i, version)) && StoredAfter(objects, urn + "-" + version, after)
  }

  /**
    * A completed run of the feed and the versions of a URN enumerate the same documents after the
    * watermark, each of them once, exactly as long as none of them is a wrapped version.
    */
  lemma ViewsAgree(
      objects: Objects, listing: seq<ObjectInfo>, codec: StatsCodec, after: int, limit: nat,
      envs: seq<Env>, pages: seq<Page>, urn: GoString, v: Versions)
    requires RunAtRest(objects, listing, codec, after, limit, envs, pages)
    requires CanonicalUrn(urn) && SomeKey(objects, urn) && ListsVersions(Success(v), objects, urn)
    ensures forall version: GoString ::
              && AtMostOnce(objects, codec, pages, SplitKey(urn, version))
              && UrnAtMostOnce(objects, urn, v, codec, version)
    ensures (forall version: GoString :: AgreeOn(objects, codec, after, pages, urn, v, version)) <==>
            !StoredAfter(objects, UploadKey(urn, MIN_INT64), after)
  {
    forall version: GoString
      ensures AtMostOnce(objects, codec, pages, SplitKey(urn, version))
      ensures UrnAtMostOnce(objects, urn, v, codec, version)
      ensures AgreeOn(objects, codec, after, pages, urn, v, version) <==>
              !(version == WRAPPED && StoredAfter(objects, urn + "-" + version, after))
    {
      FeedViewExact(objects, listing, codec, after, limit, envs, pages, urn, version);
      UrnViewExact(objects, urn, v, codec, version);
    }
    assert UploadKey(urn, MIN_INT64) == urn + "-" + WRAPPED;
    assert AgreeOn(objects, codec, after, pages, urn, v, WRAPPED) <==>
           !StoredAfter(objects, urn + "-" + WRAPPED, after);
  }
}
