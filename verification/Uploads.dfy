/** The three upload cases as steps of a state machine over the bucket, and what every run of uploads keeps. */
module Uploads {
  import opened Results
  import opened ByteStrings
  import opened Components
  import opened Entries
  import opened Decimals
  import opened Keys
  import opened Storage

  /** A decoded document that passed validation; `rest` is everything the cases do not look at. */
  datatype Bom = Bom(serialNumber: GoString, version: int, components: Option<seq<Component>>, rest: GoString)

  predicate IsHex(c: Byte) { '0' <= c <= '9' || 'a' <= c <= 'f' }

  /** `urn:uuid:` and 36 characters, as the schemas' pattern and uuid.NewString have it. */
  predicate CanonicalUrn(s: GoString) {
    && |s| == 45
    && s[..9] == "urn:uuid:"
    && forall i :: 9 <= i < 45 ==> (if i in {17, 22, 27, 32} then s[i] == '-' else IsHex(s[i]))
  }

  // ---------- the steps ----------

  /** What an upload does to the bucket, with the choices of the generator, the encoder and the network. */
  datatype Step =
    | CreateNew(
        urn: GoString, first: StoredObject, firstPut: PutOutcome, second: Option<StoredObject>, secondPut: PutOutcome)
    | AppendVersion(urn: GoString, version: int, obj: StoredObject, put: PutOutcome)
    | StoreVersion(urn: GoString, version: int, obj: StoredObject, put: PutOutcome)
    | NoEffect

  function Apply(objects: Objects, step: Step): Objects {
    match step
    case CreateNew(urn, first, firstPut, second, secondPut) =>
      var one := Put(objects, UploadKeyOriginal(urn), first, firstPut);
      // the second object is put only after the first put was acknowledged
      if firstPut.Acked? && second.Some? then Put(one, UploadKey(urn, 1), second.value, secondPut) else one
    case AppendVersion(urn, version, obj, put) => Put(objects, UploadKey(urn, version), obj, put)
    case StoreVersion(urn, version, obj, put) => Put(objects, UploadKey(urn, version), obj, put)
    case NoEffect => objects
  }

  ghost predicate IsMax(n: int, s: set<int>) { n in s && forall m :: m in s ==> m <= n }

  /** The version case 2 assigns: 1 for a new URN, else one more than the highest, in Go's 64 bits. */
  ghost predicate Assigned(objects: Objects, urn: GoString, version: int) {
    if !SomeKey(objects, urn) then version == 1
    else exists n :: IsMax(n, StoredVersions(objects, urn)) && version == WrapInt64(n + 1)
  }

  /** The checks an upload has made before it puts anything. */
  ghost predicate Enabled(objects: Objects, step: Step) {
    match step
    case CreateNew(urn, _, _, _, _) => UploadKey(urn, 1) !in objects
    case AppendVersion(urn, version, _, _) => Assigned(objects, urn, version)
    case StoreVersion(urn, version, _, _) => version >= 1 && UploadKey(urn, version) !in objects
    case NoEffect => true
  }

  // ---------- the methods ----------

  datatype UploadError = StoreFailed | AlreadyExists | EncodingFailed | IndexOutOfRange

  datatype Created = Created(serialNumber: GoString, version: int)

  /** What surrounds one upload: the clock, the encoder, the generator, and what the network lets through. */
  datatype Surroundings = Surroundings(
    now: int, encode: Bom -> Option<GoString>, uuids: nat -> GoString, answered: nat -> bool,
    listing: seq<KeyPage>, firstPut: PutOutcome, secondPut: PutOutcome)

  /** The first n generated URNs are distinct. */
  ghost predicate Distinct(uuids: nat -> GoString, n: nat) {
    forall i: nat, j: nat :: i < j < n ==> uuids(i) != uuids(j)
  }

  function StoredAs(version: GoString, stats: GoString, truncated: bool, contents: GoString, now: int): StoredObject {
    StoredObject(now, MapOf(Metadata(version, stats, CRYPTO_STATS_VERSION, truncated)), contents)
  }

  ghost function Tried(uuids: nat -> GoString, n: nat): set<GoString> {
    if n == 0 then {} else Tried(uuids, n - 1) + {UploadKey(uuids(n - 1), 1)}
  }

  lemma {:induction false} NotTriedYet(uuids: nat -> GoString, n: nat, k: nat)
    requires Distinct(uuids, k + 1) && n <= k
    ensures UploadKey(uuids(k), 1) !in Tried(uuids, n)
  {
    if n > 0 {
      NotTriedYet(uuids, n - 1, k);
      if UploadKey(uuids(k), 1) == UploadKey(uuids(n - 1), 1) {
        KeyInjective(uuids(k), 1, uuids(n - 1), 1);
      }
    }
  }

  lemma {:induction false} TriedAreStored(uuids: nat -> GoString, n: nat, keys: set<GoString>)
    requires Distinct(uuids, n)
    requires forall j: nat :: j < n ==> UploadKey(uuids(j), 1) in keys
    ensures Tried(uuids, n) <= keys && |Tried(uuids, n)| == n
  {
    if n > 0 {
      TriedAreStored(uuids, n - 1, keys);
      NotTriedYet(uuids, n - 1, n - 1);
    }
  }

  lemma KeyInjective(u: GoString, m: int, v: GoString, n: int)
    requires UploadKey(u, m) == UploadKey(v, n) && (m == n || |u| == |v|)
    ensures u == v && m == n
  {
    var k := UploadKey(u, m);
    assert k[..|u|] == u && k[..|v|] == v;
    if m != n {
      assert k[|u| + 1..] == FormatInt(m) && k[|v| + 1..] == FormatInt(n);
      FormatInjective(m, n);
    }
  }

  /** As long as the generator does not repeat, no more tries are taken than the bucket has keys. */
  lemma TriesAreBounded(uuids: nat -> GoString, n: nat, objects: Objects)
    requires Distinct(uuids, n)
    requires forall j: nat :: j < n ==> UploadKey(uuids(j), 1) in objects
    ensures n <= |objects|
  {
    TriedAreStored(uuids, n, objects.Keys);
    assert objects.Keys == Tried(uuids, n) + (objects.Keys - Tried(uuids, n));
  }

  /** The retry loop ends at this try: earlier URNs are taken, this one is free or its check got no answer. */
  ghost predicate EndsAt(objects: Objects, s: Surroundings, tries: nat) {
    && (forall j: nat :: j < tries ==> s.answered(j) && UploadKey(s.uuids(j), 1) in objects)
    && (s.answered(tries) ==> UploadKey(s.uuids(tries), 1) !in objects)
  }

  /** The retry loop: the first generated URN whose version 1 does not exist yet. */
  method NewSerialNumber(store: Store, s: Surroundings)
    returns (urn: Result<GoString, UploadError>, ghost tries: nat)
    requires Distinct(s.uuids, |store.objects| + 1)
    ensures EndsAt(store.objects, s, tries)
    ensures urn == if s.answered(tries) then Success(s.uuids(tries)) else Failure(StoreFailed)
    ensures tries <= |store.objects|
  {
    var i: nat := 0;
    while true
      invariant forall j: nat :: j < i ==> s.answered(j) && UploadKey(s.uuids(j), 1) in store.objects
      invariant i <= |store.objects|
      decreases |store.objects| + 1 - i
    {
      var found := store.KeyExists(UploadKey(s.uuids(i), 1), s.answered(i));
      if found.Failure? {
        return Failure(StoreFailed), i;
      }
      if !found.value {
        return Success(s.uuids(i)), i;
      }
      i := i + 1;
      TriesAreBounded(s.uuids, i, store.objects);
    }
  }

  /** The normalised document as it is stored, once it can be encoded. */
  function Normalised(named: Bom, stats: GoString, truncated: bool, s: Surroundings): Option<StoredObject> {
    match s.encode(named)
    case None => None
    case Some(contents) => Some(StoredAs(FormatInt(named.version), stats, truncated, contents, s.now))
  }

  /** Every put of the step was reached and acknowledged. */
  predicate Acknowledged(step: Step) {
    match step
    case CreateNew(_, _, firstPut, second, secondPut) => firstPut.Acked? && second.Some? && secondPut.Acked?
    case AppendVersion(_, _, _, put) => put.Acked?
    case StoreVersion(_, _, _, put) => put.Acked?
    case NoEffect => false
  }

  /** Missing serial number: a new one, version 1, the original kept beside the normalised document. */
  method UploadCaseSNInvalid(
      store: Store, bom: Bom, original: GoString, stats: GoString, truncated: bool, s: Surroundings)
    returns (r: Result<Created, UploadError>, ghost step: Step, ghost tries: nat)
    requires Distinct(s.uuids, |store.objects| + 1)
    modifies store
    ensures Enabled(old(store.objects), step) && store.objects == Apply(old(store.objects), step)
    ensures EndsAt(old(store.objects), s, tries)
    ensures var named := bom.(serialNumber := s.uuids(tries), version := 1);
            && step == (if !s.answered(tries) then NoEffect
                        else CreateNew(named.serialNumber, StoredAs(ORIGINAL, stats, truncated, original, s.now),
                                       s.firstPut, Normalised(named, stats, truncated, s), s.secondPut))
            && (r.Success? <==> s.answered(tries) && s.firstPut.Acked? && s.encode(named).Some? && s.secondPut.Acked?)
            && (r.Success? ==> r.value == Created(named.serialNumber, 1))
            && (r == Failure(EncodingFailed) <==> s.answered(tries) && s.firstPut.Acked? && s.encode(named).None?)
    ensures r.Failure? ==> r.error in {StoreFailed, EncodingFailed}
  {
    step := NoEffect;
    var urn;
    urn, tries := NewSerialNumber(store, s);
    if urn.Failure? {
      return Failure(urn.error), step, tries;
    }
    var named := bom.(serialNumber := urn.value, version := 1);
    step := CreateNew(named.serialNumber, StoredAs(ORIGINAL, stats, truncated, original, s.now),
                      s.firstPut, Normalised(named, stats, truncated, s), s.secondPut);
    var metaOriginal := Metadata(ORIGINAL, stats, CRYPTO_STATS_VERSION, truncated);
    var ok := store.Upload(UploadKeyOriginal(named.serialNumber), metaOriginal, original, s.now, s.firstPut);
    if !ok {
      return Failure(StoreFailed), step, tries;
    }
    var encoded := s.encode(named);
    if encoded.None? {
      return Failure(EncodingFailed), step, tries;
    }
    var meta := Metadata(FormatInt(named.version), stats, CRYPTO_STATS_VERSION, truncated);
    ok := store.Upload(UploadKey(named.serialNumber, named.version), meta, encoded.value, s.now, s.secondPut);
    if !ok {
      return Failure(StoreFailed), step, tries;
    }
    r := Success(Created(named.serialNumber, named.version));
  }

  /** The listing of the URN fails, or a key of it does not read as a version. */
  ghost predicate ListingFails(objects: Objects, listing: seq<KeyPage>, urn: GoString) {
    Broken in listing || SomeForeignKey(objects, urn)
  }

  /** The listing of the URN succeeds without any version. */
  ghost predicate ListsNoVersion(objects: Objects, listing: seq<KeyPage>, urn: GoString) {
    && !ListingFails(objects, listing, urn)
    && SomeKey(objects, urn) && StoredVersions(objects, urn) == {}
  }

  /** Case 2 gets to know which version comes next. */
  ghost predicate NextVersionKnown(objects: Objects, listing: seq<KeyPage>, urn: GoString) {
    !ListingFails(objects, listing, urn) && !ListsNoVersion(objects, listing, urn)
  }

  /** Serial number without a version: the latest version plus one, or 1. */
  method UploadCaseVersionInvalid(store: Store, bom: Bom, stats: GoString, truncated: bool, s: Surroundings)
    returns (r: Result<Created, UploadError>, ghost step: Step, ghost version: int)
    requires Broken in s.listing || Enumerates(s.listing, store.objects, bom.serialNumber)
    modifies store
    ensures Enabled(old(store.objects), step) && store.objects == Apply(old(store.objects), step)
    ensures var known := NextVersionKnown(old(store.objects), s.listing, bom.serialNumber);
            var named := bom.(version := version);
            && (known ==> Assigned(old(store.objects), bom.serialNumber, version))
            && step == (if !known || s.encode(named).None? then NoEffect
                        else AppendVersion(bom.serialNumber, version,
                                           Normalised(named, stats, truncated, s).value, s.firstPut))
            && (r.Success? <==> known && s.encode(named).Some? && s.firstPut.Acked?)
            && (r.Success? ==> r.value == Created(bom.serialNumber, version))
            && (r == Failure(EncodingFailed) <==> known && s.encode(named).None?)
    ensures r == Failure(IndexOutOfRange) <==> ListsNoVersion(old(store.objects), s.listing, bom.serialNumber)
    ensures r != Failure(AlreadyExists)
  {
    step, version := NoEffect, 1;
    var listed := GetObjectVersions(bom.serialNumber, s.listing);
    if Broken !in s.listing {
      VersionsOfBucket(listed, s.listing, store.objects, bom.serialNumber);
    }
    var named := bom;
    if listed == Failure(NoSuchObject) {
      named := bom.(version := 1);
    } else if listed.Failure? {
      return Failure(StoreFailed), step, version;
    } else {
      var versions := listed.value.versions;
      if |versions| == 0 {
        return Failure(IndexOutOfRange), step, version;
      }
      LastIsMax(versions, StoredVersions(store.objects, bom.serialNumber));
      named := bom.(version := WrapInt64(versions[|versions| - 1] + 1));
    }
    version := named.version;
    var encoded := s.encode(named);
    if encoded.None? {
      return Failure(EncodingFailed), step, version;
    }
    step := AppendVersion(named.serialNumber, version, Normalised(named, stats, truncated, s).value, s.firstPut);
    var meta := Metadata(FormatInt(named.version), stats, CRYPTO_STATS_VERSION, truncated);
    var ok := store.Upload(UploadKey(named.serialNumber, named.version), meta, encoded.value, s.now, s.firstPut);
    if !ok {
      return Failure(StoreFailed), step, version;
    }
    r := Success(Created(named.serialNumber, named.version));
  }

  lemma LastIsMax(sorted: seq<int>, s: set<int>)
    requires Sorted(sorted) && sorted != [] && forall n :: n in sorted <==> n in s
    ensures IsMax(sorted[|sorted| - 1], s)
  {
    forall m | m in s
      ensures m <= sorted[|sorted| - 1]
    {
      assert m in sorted;
    }
  }

  /** Serial number and version: stored as it is, unless that version exists. */
  method UploadCaseValid(store: Store, bom: Bom, original: GoString, stats: GoString, truncated: bool, s: Surroundings)
    returns (r: Result<Created, UploadError>, ghost step: Step)
    requires bom.version >= 1
    modifies store
    ensures Enabled(old(store.objects), step) && store.objects == Apply(old(store.objects), step)
    ensures var free := UploadKey(bom.serialNumber, bom.version) !in old(store.objects);
            && step == (if !s.answered(0) || !free then NoEffect
                        else StoreVersion(
                               bom.serialNumber, bom.version,
                               StoredAs(FormatInt(bom.version), stats, truncated, original, s.now), s.firstPut))
            && (r.Success? <==> s.answered(0) && free && s.firstPut.Acked?)
            && (r.Success? ==> r.value == Created(bom.serialNumber, bom.version))
            && (r == Failure(AlreadyExists) <==> s.answered(0) && !free)
    ensures r.Failure? ==> r.error in {StoreFailed, AlreadyExists}
  {
    step := NoEffect;
    var key := UploadKey(bom.serialNumber, bom.version);
    var found := store.KeyExists(key, s.answered(0));
    if found.Failure? {
      return Failure(StoreFailed), step;
    }
    if found.value {
      return Failure(AlreadyExists), step;
    }
    var meta := Metadata(FormatInt(bom.version), stats, CRYPTO_STATS_VERSION, truncated);
    var ok := store.Upload(key, meta, original, s.now, s.firstPut);
    step := StoreVersion(bom.serialNumber, bom.version,
                         StoredAs(FormatInt(bom.version), stats, truncated, original, s.now), s.firstPut);
    if !ok {
      return Failure(StoreFailed), step;
    }
    r := Success(Created(bom.serialNumber, bom.version));
  }

  /** An object as an upload of this document stores it: statistics, their version, and the truncation marker. */
  ghost predicate DescribesDocument(obj: StoredObject, bom: Bom, codec: StatsCodec) {
    exists m: Metadata :: obj.metadata == MapOf(m) && UploadMetadata(m, bom.components, codec)
  }

  /** The object's metadata say it is this version. */
  ghost predicate Labelled(obj: StoredObject, version: GoString) {
    "version" in obj.metadata && obj.metadata["version"] == version
  }

  /** The document as the upload names it. */
  function Named(bom: Bom, step: Step): Bom {
    match step
    case NoEffect => bom
    case CreateNew(urn, _, _, _, _) => bom.(serialNumber := urn, version := 1)
    case AppendVersion(urn, version, _, _) => bom.(serialNumber := urn, version := version)
    case StoreVersion(urn, version, _, _) => bom.(serialNumber := urn, version := version)
  }

  /** Which step an upload of this document makes, and that it makes one. */
  ghost predicate TakesStep(objects: Objects, bom: Bom, s: Surroundings, step: Step) {
    if bom.serialNumber == "" then exists tries: nat :: CreatesAt(objects, s, tries, step)
    else if bom.version < 1 then
      if NextVersionKnown(objects, s.listing, bom.serialNumber)
      then exists version :: AppendsAs(objects, bom, s, version, step)
      else step.NoEffect?
    else if s.answered(0) && UploadKey(bom.serialNumber, bom.version) !in objects then
      step.StoreVersion? && step.urn == bom.serialNumber && step.version == bom.version && step.put == s.firstPut
    else step.NoEffect?
  }

  ghost predicate CreatesAt(objects: Objects, s: Surroundings, tries: nat, step: Step) {
    && EndsAt(objects, s, tries)
    && if s.answered(tries)
       then && step.CreateNew? && step.urn == s.uuids(tries)
            && step.firstPut == s.firstPut && step.secondPut == s.secondPut
       else step.NoEffect?
  }

  ghost predicate AppendsAs(objects: Objects, bom: Bom, s: Surroundings, version: int, step: Step) {
    && Assigned(objects, bom.serialNumber, version)
    && if s.encode(bom.(version := version)).Some?
       then step.AppendVersion? && step.urn == bom.serialNumber && step.version == version && step.put == s.firstPut
       else step.NoEffect?
  }

  /** The objects of the step hold this document: as it came, or as encoded under its new name. */
  ghost predicate StoresDocument(bom: Bom, original: GoString, codec: StatsCodec, s: Surroundings, step: Step) {
    match step
    case NoEffect => true
    case CreateNew(_, first, _, second, _) =>
      && first.stamp == s.now && first.contents == original && DescribesDocument(first, bom, codec)
      && Labelled(first, "original")
      && (s.encode(Named(bom, step)).Some? <==> second.Some?)
      && (second.Some? ==> HoldsEncoding(second.value, bom, codec, s, step))
    case AppendVersion(_, _, obj, _) => HoldsEncoding(obj, bom, codec, s, step)
    case StoreVersion(_, _, obj, _) =>
      && obj.stamp == s.now && obj.contents == original && DescribesDocument(obj, bom, codec)
      && Labelled(obj, FormatInt(bom.version))
  }

  ghost predicate HoldsEncoding(obj: StoredObject, bom: Bom, codec: StatsCodec, s: Surroundings, step: Step) {
    && obj.stamp == s.now && s.encode(Named(bom, step)) == Some(obj.contents) && DescribesDocument(obj, bom, codec)
    && Labelled(obj, FormatInt(Named(bom, step).version))
  }

  /** A step that stores objects as uploads of some documents do. */
  ghost predicate StoresDescribed(step: Step, codec: StatsCodec) {
    match step
    case NoEffect => true
    case CreateNew(_, first, _, second, _) =>
      && (exists bom :: DescribesDocument(first, bom, codec))
      && (second.Some? ==> exists bom :: DescribesDocument(second.value, bom, codec))
    case AppendVersion(_, _, obj, _) => exists bom :: DescribesDocument(obj, bom, codec)
    case StoreVersion(_, _, obj, _) => exists bom :: DescribesDocument(obj, bom, codec)
  }

  method UploadBOM(store: Store, bom: Bom, original: GoString, codec: StatsCodec, s: Surroundings)
    returns (r: Result<Created, UploadError>, ghost step: Step)
    requires bom.serialNumber == "" ==> Distinct(s.uuids, |store.objects| + 1)
    requires bom.serialNumber != "" && bom.version < 1 ==>
               Broken in s.listing || Enumerates(s.listing, store.objects, bom.serialNumber)
    modifies store
    ensures Enabled(old(store.objects), step) && store.objects == Apply(old(store.objects), step)
    ensures TakesStep(old(store.objects), bom, s, step) && StoresDocument(bom, original, codec, s, step)
    ensures r.Success? <==> Acknowledged(step)
    ensures r.Success? ==>
              var named := Named(bom, step);
              r.value == Created(named.serialNumber, named.version)
              && UploadKey(named.serialNumber, named.version) in store.objects
    ensures r == Failure(AlreadyExists) <==>
              && bom.serialNumber != "" && bom.version >= 1 && s.answered(0)
              && UploadKey(bom.serialNumber, bom.version) in old(store.objects)
    ensures r == Failure(IndexOutOfRange) <==>
              && bom.serialNumber != "" && bom.version < 1
              && ListsNoVersion(old(store.objects), s.listing, bom.serialNumber)
    ensures r == Failure(EncodingFailed) <==>
              if bom.serialNumber == "" then step.CreateNew? && step.firstPut.Acked? && step.second.None?
              else && bom.version < 1 && step.NoEffect?
                   && NextVersionKnown(old(store.objects), s.listing, bom.serialNumber)
  {
    var stats, truncated := CountCryptoStats(bom.components);
    var statsJson := codec.encode(stats);
    StatsDescribe(bom, codec, stats, truncated);
    if bom.serialNumber == "" {
      ghost var tries;
      r, step, tries := UploadCaseSNInvalid(store, bom, original, statsJson, truncated, s);
      assert CreatesAt(old(store.objects), s, tries, step);
    } else if bom.version < 1 {
      ghost var version;
      r, step, version := UploadCaseVersionInvalid(store, bom, statsJson, truncated, s);
      assert NextVersionKnown(old(store.objects), s.listing, bom.serialNumber) ==>
               AppendsAs(old(store.objects), bom, s, version, step);
    } else {
      r, step := UploadCaseValid(store, bom, original, statsJson, truncated, s);
    }
  }

  lemma StatsDescribe(bom: Bom, codec: StatsCodec, stats: CryptoStats, truncated: bool)
    requires truncated <==> bom.components.Some? && Height(bom.components.value) > MAX_COMPONENT_DEPTH
    requires forall counter :: stats.Get(counter)
               == (if bom.components.None? then 0 else ForestCount(bom.components.value, MAX_COMPONENT_DEPTH, counter))
    ensures forall version, contents, now ::
              var obj := StoredAs(version, codec.encode(stats), truncated, contents, now);
              DescribesDocument(obj, bom, codec) && Labelled(obj, version)
  {
    forall version: GoString, contents: GoString, now: int
      ensures var obj := StoredAs(version, codec.encode(stats), truncated, contents, now);
              DescribesDocument(obj, bom, codec) && Labelled(obj, version)
    {
      var m := Metadata(version, codec.encode(stats), CRYPTO_STATS_VERSION, truncated);
      assert UploadMetadata(m, bom.components, codec);
    }
  }
}
