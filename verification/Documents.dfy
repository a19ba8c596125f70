/** Reading documents back: one version, the latest version, and the versions of a URN. */
module Documents {
  import opened Results
  import opened ByteStrings
  import opened Components
  import opened Entries
  import opened Decimals
  import opened Keys
  import opened Storage
  import opened Uploads
  import opened Versioning

  datatype FetchError = NoSuchDocument | FetchFailed | EmptyVersions | Malformed | BadStatistics

  /** What CheckOnFetch lets through; everything when it is off. */
  type Check = GoString -> bool

  function Fetch(objects: Objects, key: GoString, reachable: bool, check: Check): Result<GoString, FetchError> {
    if !reachable then Failure(FetchFailed)
    else if key !in objects then Failure(NoSuchDocument)
    else if !check(objects[key].contents) then Failure(Malformed)
    else Success(objects[key].contents)
  }

  /** EmptyVersions is the index out of range on an empty version list. */
  ghost predicate SelectsLatest(r: Result<int, FetchError>, objects: Objects, urn: GoString) {
    if !SomeKey(objects, urn) then r == Failure(NoSuchDocument)
    else if SomeForeignKey(objects, urn) then r == Failure(FetchFailed)
    else if StoredVersions(objects, urn) == {} then r == Failure(EmptyVersions)
    else r.Success? && IsMax(r.value, StoredVersions(objects, urn))
  }

  method LatestVersion(store: Store, urn: GoString, listing: seq<KeyPage>) returns (r: Result<int, FetchError>)
    requires Broken in listing || Enumerates(listing, store.objects, urn)
    ensures if Broken in listing then r == Failure(FetchFailed) else SelectsLatest(r, store.objects, urn)
  {
    var listed := GetObjectVersions(urn, listing);
    if Broken !in listing {
      VersionsOfBucket(listed, listing, store.objects, urn);
    }
    if listed == Failure(NoSuchObject) {
      return Failure(NoSuchDocument);
    }
    if listed.Failure? {
      return Failure(FetchFailed);
    }
    var versions := listed.value.versions;
    if |versions| == 0 {
      return Failure(EmptyVersions);
    }
    LastIsMax(versions, StoredVersions(store.objects, urn));
    r := Success(versions[|versions| - 1]);
  }

  function FetchSelected(
      latest: Result<int, FetchError>, objects: Objects, urn: GoString, reachable: bool, check: Check)
    : Result<GoString, FetchError>
  {
    match latest
    case Failure(error) => Failure(error)
    case Success(n) => Fetch(objects, UploadKey(urn, n), reachable, check)
  }

  /** A blank version selects the latest one. */
  ghost predicate GetsDocument(
      r: Result<GoString, FetchError>, objects: Objects, urn: GoString, version: GoString,
      listing: seq<KeyPage>, reachable: bool, check: Check)
  {
    if TrimSpace(version) != [] then r == Fetch(objects, urn + "-" + version, reachable, check)
    else if Broken in listing then r == Failure(FetchFailed)
    else
      exists latest ::
        SelectsLatest(latest, objects, urn) && r == FetchSelected(latest, objects, urn, reachable, check)
  }

  /**
    * One key asked for: not found exactly when the store answers and has no such key, served exactly
    * when it is stored and passes the check.
    */
  ghost predicate Asked(
      r: Result<GoString, FetchError>, objects: Objects, key: GoString, reachable: bool, check: Check)
  {
    && (r == Failure(FetchFailed) <==> !reachable)
    && (r == Failure(NoSuchDocument) <==> reachable && key !in objects)
    && (r == Failure(Malformed) <==> reachable && key in objects && !check(objects[key].contents))
    && (forall b :: r == Success(b) <==>
          reachable && key in objects && objects[key].contents == b && check(b))
  }

  /** Without a version: the outcome of the listing, then the highest of the listed versions asked for. */
  ghost predicate AskedLatest(
      r: Result<GoString, FetchError>, objects: Objects, urn: GoString, reachable: bool, check: Check)
  {
    if !SomeKey(objects, urn) then r == Failure(NoSuchDocument)
    else if SomeForeignKey(objects, urn) then r == Failure(FetchFailed)
    else if StoredVersions(objects, urn) == {} then r == Failure(EmptyVersions)
    else exists n :: IsMax(n, StoredVersions(objects, urn))
                     && Asked(r, objects, urn + "-" + FormatInt(n), reachable, check)
  }

  lemma GetsWhatIsAsked(
      r: Result<GoString, FetchError>, objects: Objects, urn: GoString, version: GoString,
      listing: seq<KeyPage>, reachable: bool, check: Check)
    requires GetsDocument(r, objects, urn, version, listing, reachable, check)
    ensures TrimSpace(version) != [] ==> Asked(r, objects, urn + "-" + version, reachable, check)
    ensures TrimSpace(version) == [] && Broken in listing ==> r == Failure(FetchFailed)
    ensures TrimSpace(version) == [] && Broken !in listing ==> AskedLatest(r, objects, urn, reachable, check)
  {
    if TrimSpace(version) == [] && Broken !in listing {
      var latest :| SelectsLatest(latest, objects, urn) && r == FetchSelected(latest, objects, urn, reachable, check);
      if latest.Success? {
        assert Asked(r, objects, urn + "-" + FormatInt(latest.value), reachable, check);
      }
    }
  }

  method GetBOMByUrn(
      store: Store, urn: GoString, version: GoString, listing: seq<KeyPage>, reachable: bool, check: Check)
    returns (r: Result<GoString, FetchError>)
    requires TrimSpace(version) == [] ==> Broken in listing || Enumerates(listing, store.objects, urn)
    ensures GetsDocument(r, store.objects, urn, version, listing, reachable, check)
    ensures TrimSpace(version) != [] ==> Asked(r, store.objects, urn + "-" + version, reachable, check)
    ensures TrimSpace(version) == [] && Broken in listing ==> r == Failure(FetchFailed)
    ensures TrimSpace(version) == [] && Broken !in listing ==> AskedLatest(r, store.objects, urn, reachable, check)
  {
    r := SelectAndFetch(store, urn, version, listing, reachable, check);
    GetsWhatIsAsked(r, store.objects, urn, version, listing, reachable, check);
  }

  method SelectAndFetch(
      store: Store, urn: GoString, version: GoString, listing: seq<KeyPage>, reachable: bool, check: Check)
    returns (r: Result<GoString, FetchError>)
    requires TrimSpace(version) == [] ==> Broken in listing || Enumerates(listing, store.objects, urn)
    ensures GetsDocument(r, store.objects, urn, version, listing, reachable, check)
  {
    var selected := version;
    if TrimSpace(version) == [] {
      var latest := LatestVersion(store, urn, listing);
      if latest.Failure? {
        return Failure(latest.error);
      }
      selected := FormatInt(latest.value);
    }
    var contents := store.GetObject(urn + "-" + selected, reachable);
    match contents {
      case Success(b) => r := if check(b) then Success(b) else Failure(Malformed);
      case Failure(NoSuchObject) => r := Failure(NoSuchDocument);
      case Failure(_) => r := Failure(FetchFailed);
    }
  }

  /** The URN's original is stored and none of its versions. */
  ghost predicate OriginalAlone(objects: Objects, urn: GoString) {
    UploadKeyOriginal(urn) in objects && forall n :: 1 <= n <= MAX_INT64 ==> UploadKey(urn, n) !in objects
  }

  /** Version n is the highest one the bucket holds for the URN. */
  ghost predicate IsLatest(objects: Objects, urn: GoString, n: int) {
    && UploadKey(urn, n) in objects
    && forall m :: 1 <= m <= MAX_INT64 && UploadKey(urn, m) in objects ==> m <= n
  }

  /**
    * On any bucket written by uploads, for each URN by itself, a GET without a version finds nothing
    * exactly when the URN has no key, meets the empty list exactly when its original stands alone,
    * and gets the numerically highest version in all other cases.
    */
  lemma LatestIsHighest(
      objects: Objects, urn: GoString, listing: seq<KeyPage>, check: Check, r: Result<GoString, FetchError>)
    requires Broken !in listing
    requires ApiWritten(objects) && CanonicalUrn(urn)
    requires GetsDocument(r, objects, urn, "", listing, true, check)
    ensures r == Failure(NoSuchDocument) <==> !SomeKey(objects, urn)
    ensures r == Failure(EmptyVersions) <==> OriginalAlone(objects, urn)
    ensures r != Failure(NoSuchDocument) && r != Failure(EmptyVersions) ==>
              exists n :: 1 <= n <= MAX_INT64 && IsLatest(objects, urn, n)
                && r == Fetch(objects, UploadKey(urn, n), true, check)
  {
    EmptyVersionsExactlyWhen(objects, urn, listing, check, r);
    if SomeKey(objects, urn) {
      SomeVersionExists(objects, urn);
      if StoredVersions(objects, urn) != {} {
        var n := LatestOutcome(objects, urn, listing, check, r);
        MaxIsLatest(objects, urn, n);
      }
    }
  }

  /** Where originals are paired with their first versions, a known URN always has a latest document. */
  lemma PairedHasLatest(
      objects: Objects, urn: GoString, listing: seq<KeyPage>, check: Check, r: Result<GoString, FetchError>)
    requires Broken !in listing
    requires ApiWritten(objects) && Paired(objects) && CanonicalUrn(urn)
    requires GetsDocument(r, objects, urn, "", listing, true, check)
    ensures r != Failure(EmptyVersions)
    ensures r == Failure(NoSuchDocument) <==> forall n :: 1 <= n <= MAX_INT64 ==> UploadKey(urn, n) !in objects
  {
    LatestIsHighest(objects, urn, listing, check, r);
    assert OriginalAlone(objects, urn) ==> UploadKey(urn, 1) in objects;
    if SomeKey(objects, urn) {
      var n :| 1 <= n <= MAX_INT64 && IsLatest(objects, urn, n);
      assert UploadKey(urn, n) in objects;
    } else {
      forall n: int
        ensures UploadKey(urn, n) !in objects
      {
        assert HasPrefix(UploadKey(urn, n), urn);
      }
    }
  }

  /** The maximum of the listed numbers is the highest positive version: a wrapped one never is. */
  lemma MaxIsLatest(objects: Objects, urn: GoString, n: int)
    requires ApiWritten(objects) && CanonicalUrn(urn) && IsMax(n, StoredVersions(objects, urn))
    ensures 1 <= n <= MAX_INT64 && IsLatest(objects, urn, n)
  {
    StoredVersionsExact(objects, urn, n);
    StoredVersionsExact(objects, urn, MAX_INT64);
    forall m | 1 <= m <= MAX_INT64 && UploadKey(urn, m) in objects
      ensures m <= n
    {
      StoredVersionsExact(objects, urn, m);
    }
  }

  lemma LatestOutcome(
      objects: Objects, urn: GoString, listing: seq<KeyPage>, check: Check, r: Result<GoString, FetchError>)
    returns (n: int)
    requires Broken !in listing && SomeKey(objects, urn) && !SomeForeignKey(objects, urn)
    requires StoredVersions(objects, urn) != {}
    requires GetsDocument(r, objects, urn, "", listing, true, check)
    ensures IsMax(n, StoredVersions(objects, urn)) && r == Fetch(objects, UploadKey(urn, n), true, check)
  {
    var latest :| SelectsLatest(latest, objects, urn) && r == FetchSelected(latest, objects, urn, true, check);
    n := latest.value;
  }

  /** The run-time panic is reached exactly when the URN's original stands alone. */
  lemma EmptyVersionsExactlyWhen(
      objects: Objects, urn: GoString, listing: seq<KeyPage>, check: Check, r: Result<GoString, FetchError>)
    requires Broken !in listing
    requires ApiWritten(objects) && CanonicalUrn(urn)
    requires GetsDocument(r, objects, urn, "", listing, true, check)
    ensures r == Failure(EmptyVersions) <==> OriginalAlone(objects, urn)
  {
    EmptyOutcome(objects, urn, listing, check, r);
    if SomeKey(objects, urn) {
      SomeVersionExists(objects, urn);
    } else {
      assert HasPrefix(UploadKeyOriginal(urn), urn);
    }
  }

  lemma EmptyOutcome(
      objects: Objects, urn: GoString, listing: seq<KeyPage>, check: Check, r: Result<GoString, FetchError>)
    requires Broken !in listing
    requires GetsDocument(r, objects, urn, "", listing, true, check)
    ensures r == Failure(EmptyVersions) <==>
            SomeKey(objects, urn) && !SomeForeignKey(objects, urn) && StoredVersions(objects, urn) == {}
  {
    var latest :| SelectsLatest(latest, objects, urn) && r == FetchSelected(latest, objects, urn, true, check);
  }

  // ---------- UrnVersions ----------

  datatype VersionRes = VersionRes(version: GoString, createdAt: int, cryptoStats: CryptoStats)

  /** Leaving out, failing, or showing one listed version. */
  datatype Shown = LeftOut | Fails(error: FetchError) | Shows(entry: VersionRes)

  function ShowVersion(urn: GoString, version: GoString, heads: Heads, codec: StatsCodec): Shown {
    match heads(urn + "-" + version)
    case NotFound => LeftOut
    case Unavailable => Fails(FetchFailed)
    case Found(head) =>
      if META_CRYPTO_STATS !in head.metadata then LeftOut
      else match codec.decode(head.metadata[META_CRYPTO_STATS])
        case None => Fails(BadStatistics)
        case Some(stats) => Shows(VersionRes(version, SecondOf(head.lastModified), stats))
  }

  type Showing = GoString -> Shown

  function Shower(urn: GoString, heads: Heads, codec: StatsCodec): Showing {
    (version: GoString) => ShowVersion(urn, version, heads, codec)
  }

  /** The versions in order, then the original. */
  function ToProcess(v: Versions): seq<GoString> {
    seq(|v.versions|, i requires 0 <= i < |v.versions| => FormatInt(v.versions[i]))
    + (if v.hasOriginal then [ORIGINAL] else [])
  }

  function ShownOf(versions: seq<GoString>, show: Showing): seq<VersionRes> {
    if versions == [] then []
    else
      ShownOf(versions[..|versions| - 1], show)
      + (match show(versions[|versions| - 1]) case Shows(entry) => [entry] case _ => [])
  }

  function FirstFails(versions: seq<GoString>, show: Showing): Option<FetchError> {
    if versions == [] then None
    else if show(versions[0]).Fails? then Some(show(versions[0]).error)
    else FirstFails(versions[1..], show)
  }

  /** Every version but those left out, in order, unless one fails the call: the first such one does. */
  ghost predicate ShowsAll(r: Result<seq<VersionRes>, FetchError>, versions: seq<GoString>, show: Showing) {
    match FirstFails(versions, show)
    case Some(error) => r == Failure(error)
    case None => r == Success(ShownOf(versions, show))
  }

  // What each version leads to, by its HEAD answer alone.

  ghost predicate Omitted(answer: HeadAnswer) {
    answer.NotFound? || (answer.Found? && "crypto-stats" !in answer.head.metadata)
  }

  ghost predicate FailsCall(answer: HeadAnswer, codec: StatsCodec) {
    || answer.Unavailable?
    || (answer.Found? && "crypto-stats" in answer.head.metadata
        && codec.decode(answer.head.metadata["crypto-stats"]).None?)
  }

  /** The entry is this version with the statistics and the second HEAD reports. */
  ghost predicate Tells(entry: VersionRes, version: GoString, answer: HeadAnswer, codec: StatsCodec) {
    && entry.version == version
    && answer.Found? && Carries(answer.head.metadata, codec, entry.cryptoStats)
    && match answer.head.lastModified
       case None => entry.createdAt == -62_135_596_800
       case Some(t) => 0 <= t - entry.createdAt * 1_000_000_000 < 1_000_000_000
  }

  /** The entries tell these versions: all that are not omitted, in their order. */
  ghost predicate TellAt(
      entries: seq<VersionRes>, versions: seq<GoString>, urn: GoString, heads: Heads, codec: StatsCodec, at: seq<int>)
  {
    && |at| == |entries|
    && (forall i, j :: 0 <= i < j < |at| ==> at[i] < at[j])
    && (forall i :: 0 <= i < |at| ==>
          0 <= at[i] < |versions| && Tells(entries[i], versions[at[i]], heads(urn + "-" + versions[at[i]]), codec))
    && (forall k :: 0 <= k < |versions| && !Omitted(heads(urn + "-" + versions[k])) ==> k in at)
  }

  ghost predicate FailsFirstAt(versions: seq<GoString>, urn: GoString, heads: Heads, codec: StatsCodec, i: int) {
    && 0 <= i < |versions| && FailsCall(heads(urn + "-" + versions[i]), codec)
    && forall j :: 0 <= j < i ==> !FailsCall(heads(urn + "-" + versions[j]), codec)
  }

  /** The first version that fails decides the error; if none does, every version not omitted is told, in order. */
  ghost predicate VersionsTold(
      r: Result<seq<VersionRes>, FetchError>, versions: seq<GoString>, urn: GoString, heads: Heads, codec: StatsCodec)
  {
    match r
    case Failure(error) =>
      exists i :: FailsFirstAt(versions, urn, heads, codec, i)
        && error == if heads(urn + "-" + versions[i]).Unavailable? then FetchFailed else BadStatistics
    case Success(entries) =>
      && (forall i :: 0 <= i < |versions| ==> !FailsCall(heads(urn + "-" + versions[i]), codec))
      && exists at :: TellAt(entries, versions, urn, heads, codec, at)
  }

  lemma ShowVersionExactly(urn: GoString, version: GoString, heads: Heads, codec: StatsCodec)
    ensures var shown, answer := ShowVersion(urn, version, heads, codec), heads(urn + "-" + version);
            && (shown.LeftOut? <==> Omitted(answer))
            && (shown.Fails? <==> FailsCall(answer, codec))
            && (shown.Fails? ==> shown.error == if answer.Unavailable? then FetchFailed else BadStatistics)
            && (shown.Shows? ==> Tells(shown.entry, version, answer, codec))
  {
  }

  /** The entries come from the versions at these indices: all that are shown, in their order. */
  ghost predicate ComeFrom(entries: seq<VersionRes>, versions: seq<GoString>, show: Showing, at: seq<int>) {
    && |at| == |entries|
    && (forall i, j :: 0 <= i < j < |at| ==> at[i] < at[j])
    && (forall i :: 0 <= i < |at| ==> 0 <= at[i] < |versions| && show(versions[at[i]]) == Shows(entries[i]))
    && (forall k :: 0 <= k < |versions| && show(versions[k]).Shows? ==> k in at)
  }

  lemma ComeFromOneMore(
      entries: seq<VersionRes>, versions: seq<GoString>, show: Showing, at: seq<int>, version: GoString)
    returns (more: seq<int>)
    requires ComeFrom(entries, versions, show, at)
    ensures match show(version)
            case Shows(entry) => ComeFrom(entries + [entry], versions + [version], show, more)
            case _ => ComeFrom(entries, versions + [version], show, more)
  {
    more := if show(version).Shows? then at + [|versions|] else at;
    forall k | 0 <= k < |versions| + 1 && show((versions + [version])[k]).Shows?
      ensures k in more
    {
      if k == |versions| {
        assert more[|at|] == k;
      }
    }
  }

  lemma {:induction false} ShownAt(versions: seq<GoString>, show: Showing) returns (at: seq<int>)
    ensures ComeFrom(ShownOf(versions, show), versions, show, at)
  {
    if versions == [] {
      at := [];
    } else {
      var front, last := versions[..|versions| - 1], versions[|versions| - 1];
      at := ShownAt(front, show);
      at := ComeFromOneMore(ShownOf(front, show), front, show, at, last);
      assert versions == front + [last];
    }
  }

  lemma {:induction false} FirstFailsExactly(versions: seq<GoString>, show: Showing) returns (i: int)
    ensures FirstFails(versions, show) == None ==> forall k :: 0 <= k < |versions| ==> !show(versions[k]).Fails?
    ensures FirstFails(versions, show).Some? ==>
              && 0 <= i < |versions| && show(versions[i]) == Fails(FirstFails(versions, show).value)
              && forall k :: 0 <= k < i ==> !show(versions[k]).Fails?
  {
    i := 0;
    if versions != [] && !show(versions[0]).Fails? {
      i := FirstFailsExactly(versions[1..], show);
      i := i + 1;
      assert forall k :: 1 <= k < |versions| ==> versions[k] == versions[1..][k - 1];
    }
  }

  lemma ShowsAllTells(
      r: Result<seq<VersionRes>, FetchError>, versions: seq<GoString>, urn: GoString, heads: Heads, codec: StatsCodec)
    requires ShowsAll(r, versions, Shower(urn, heads, codec))
    ensures VersionsTold(r, versions, urn, heads, codec)
  {
    var show := Shower(urn, heads, codec);
    forall k | 0 <= k < |versions|
      ensures show(versions[k]).Fails? <==> FailsCall(heads(urn + "-" + versions[k]), codec)
      ensures show(versions[k]).LeftOut? <==> Omitted(heads(urn + "-" + versions[k]))
    {
      ShowVersionExactly(urn, versions[k], heads, codec);
    }
    var i := FirstFailsExactly(versions, show);
    if r.Failure? {
      ShowVersionExactly(urn, versions[i], heads, codec);
      assert FailsFirstAt(versions, urn, heads, codec, i);
    } else {
      var at := ShownAt(versions, show);
      forall m | 0 <= m < |at|
        ensures Tells(r.value[m], versions[at[m]], heads(urn + "-" + versions[at[m]]), codec)
      {
        ShowVersionExactly(urn, versions[at[m]], heads, codec);
      }
      assert TellAt(r.value, versions, urn, heads, codec, at);
    }
  }

  /** The numbers in ascending order, and then the original. */
  ghost predicate IsVersionList(list: seq<GoString>, v: Versions) {
    && |list| == |v.versions| + (if v.hasOriginal then 1 else 0)
    && (forall i :: 0 <= i < |v.versions| ==> list[i] == FormatInt(v.versions[i]))
    && (v.hasOriginal ==> list[|list| - 1] == "original")
  }

  method ShowVersions(toProcess: seq<GoString>, show: Showing) returns (r: Result<seq<VersionRes>, FetchError>)
    ensures ShowsAll(r, toProcess, show)
  {
    var res: seq<VersionRes> := [];
    for i := 0 to |toProcess|
      invariant FirstFails(toProcess, show) == FirstFails(toProcess[i..], show)
      invariant res == ShownOf(toProcess[..i], show)
    {
      assert toProcess[..i + 1][..i] == toProcess[..i];
      assert toProcess[i..][1..] == toProcess[i + 1..];
      match show(toProcess[i]) {
        case Fails(error) => return Failure(error);
        case LeftOut =>
        case Shows(entry) => res := res + [entry];
      }
    }
    assert toProcess[..|toProcess|] == toProcess;
    r := Success(res);
  }

  method UrnVersions(store: Store, urn: GoString, listing: seq<KeyPage>, heads: Heads, codec: StatsCodec)
    returns (r: Result<seq<VersionRes>, FetchError>)
    requires Broken in listing || Enumerates(listing, store.objects, urn)
    ensures Broken in listing ==> r == Failure(FetchFailed)
    ensures Broken !in listing && !SomeKey(store.objects, urn) ==> r == Failure(NoSuchDocument)
    ensures Broken !in listing && SomeForeignKey(store.objects, urn) ==> r == Failure(FetchFailed)
    ensures Broken !in listing && SomeKey(store.objects, urn) && !SomeForeignKey(store.objects, urn) ==>
              exists v :: ListsVersions(Success(v), store.objects, urn)
                && ShowsAll(r, ToProcess(v), Shower(urn, heads, codec))
                && IsVersionList(ToProcess(v), v) && VersionsTold(r, ToProcess(v), urn, heads, codec)
  {
    var listed := GetObjectVersions(urn, listing);
    if Broken !in listing {
      VersionsOfBucket(listed, listing, store.objects, urn);
    }
    if listed == Failure(NoSuchObject) {
      return Failure(NoSuchDocument);
    }
    if listed.Failure? {
      return Failure(FetchFailed);
    }
    r := ShowVersions(ToProcess(listed.value), Shower(urn, heads, codec));
    ShowsAllTells(r, ToProcess(listed.value), urn, heads, codec);
  }
}
