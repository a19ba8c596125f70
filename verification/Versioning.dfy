/** What every run of uploads keeps: nothing is overwritten, versions increase, the latest version is found. */
module Versioning {
  import opened Results
  import opened ByteStrings
  import opened Decimals
  import opened Keys
  import opened Entries
  import opened Storage
  import opened Uploads

  // ---------- keys of uploads ----------

  /** The numbers uploads store under: the positive ones, and what 2^63 - 1 plus one wraps around to. */
  predicate IsVersionNumber(n: int) { 1 <= n <= MAX_INT64 || n == MIN_INT64 }

  const WRAPPED: GoString := FormatInt(MIN_INT64)

  predicate VersionSuffix(s: GoString) {
    CanonicalDigits(s) && s[0] != '0' && Value(s) <= MAX_INT64
  }

  /** A key an upload writes: a canonical URN, and `original` or a version number. */
  predicate ApiKey(key: GoString) {
    && |key| > 46 && CanonicalUrn(key[..45]) && key[45] == '-'
    && (key[46..] == ORIGINAL || VersionSuffix(key[46..]) || key[46..] == WRAPPED)
  }

  /** The form uploads keep: such keys only, and a wrapped version only beside version 2^63 - 1. */
  ghost predicate ApiWritten(objects: Objects) {
    && (forall key :: key in objects ==> ApiKey(key))
    && (forall urn ::
          CanonicalUrn(urn) && UploadKey(urn, MIN_INT64) in objects ==> UploadKey(urn, MAX_INT64) in objects)
  }

  /** The original of a document never stands alone: its normalised first version is beside it. */
  ghost predicate Paired(objects: Objects) {
    forall urn :: UploadKeyOriginal(urn) in objects ==> UploadKey(urn, 1) in objects
  }

  lemma UploadKeyIsApiKey(urn: GoString, n: int)
    requires CanonicalUrn(urn) && IsVersionNumber(n)
    ensures ApiKey(UploadKey(urn, n)) && ApiKey(UploadKeyOriginal(urn))
  {
    if n > 0 {
      DecimalCanonical(n);
    }
    assert UploadKey(urn, n)[..45] == urn && UploadKey(urn, n)[46..] == FormatInt(n);
    assert UploadKeyOriginal(urn)[..45] == urn && UploadKeyOriginal(urn)[46..] == ORIGINAL;
  }

  /** The suffix of an API key is `original` or a printed version number. */
  lemma ApiSuffix(key: GoString) returns (n: int)
    requires ApiKey(key)
    ensures key == key[..45] + "-" + key[46..]
    ensures key[46..] != ORIGINAL ==> IsVersionNumber(n) && key[46..] == FormatInt(n) && key == UploadKey(key[..45], n)
  {
    var suffix := key[46..];
    n := MIN_INT64;
    if VersionSuffix(suffix) {
      DecimalOfValue(suffix);
      n := Value(suffix);
    }
  }

  /** No canonical URN is a prefix of another: a listing by URN meets that URN's keys only, and reads them all. */
  lemma ApiKeyReads(key: GoString, urn: GoString)
    requires ApiKey(key) && CanonicalUrn(urn) && HasPrefix(key, urn)
    ensures SuffixOf(key, urn) != Bad
    ensures SuffixOf(key, urn) == Original <==> key == UploadKeyOriginal(urn)
    ensures SuffixOf(key, urn).Number? ==>
              IsVersionNumber(SuffixOf(key, urn).n) && key == UploadKey(urn, SuffixOf(key, urn).n)
  {
    OriginalSuffix(key, urn);
    var n := ApiSuffix(key);
    if key[46..] != ORIGINAL {
      ReadBack(urn, n);
    }
  }

  lemma StoredVersionsExact(objects: Objects, urn: GoString, n: int)
    requires ApiWritten(objects) && CanonicalUrn(urn)
    ensures n in StoredVersions(objects, urn) <==> IsVersionNumber(n) && UploadKey(urn, n) in objects
  {
    if n in StoredVersions(objects, urn) {
      var key :| key in objects && SuffixOf(key, urn).Number? && SuffixOf(key, urn).n == n;
      PrefixOfPrefix(key, urn);
      ApiKeyReads(key, urn);
    }
    if IsVersionNumber(n) && UploadKey(urn, n) in objects {
      ReadBack(urn, n);
    }
  }

  lemma ReadBack(urn: GoString, n: int)
    requires IsInt64(n)
    ensures SuffixOf(UploadKey(urn, n), urn) == Number(n)
  {
    var key := UploadKey(urn, n);
    assert key[..|urn| + 1] == urn + "-" && key[|urn| + 1..] == FormatInt(n);
    DecimalCanonical(if n < 0 then -n else n);
    if n >= 0 {
      assert IsDigit(FormatInt(n)[0]);
    } else {
      assert FormatInt(n)[0] == '-';
    }
    assert FormatInt(n) != ORIGINAL;
    ParseOfFormat(n);
  }

  // ---------- one step ----------

  /** What validation leaves to be uploaded: a canonical URN, a version that fits Go's int. */
  predicate Validated(step: Step) {
    match step
    case CreateNew(urn, _, _, _, _) => CanonicalUrn(urn)
    case AppendVersion(urn, _, _, _) => CanonicalUrn(urn)
    case StoreVersion(urn, version, _, _) => CanonicalUrn(urn) && version <= MAX_INT64
    case NoEffect => true
  }

  /** Everything stored stays stored, with its bytes and metadata. */
  ghost predicate Extends(before: Objects, after: Objects) {
    forall key :: key in before ==> key in after && after[key] == before[key]
  }

  /**
    * The version an upload without one gets is above every stored one unless those reach 2^63 - 1;
    * then it is -2^63. It is taken exactly when the URN has wrapped around before.
    */
  lemma AssignedVersion(objects: Objects, urn: GoString, version: int)
    requires ApiWritten(objects) && CanonicalUrn(urn) && Assigned(objects, urn, version)
    ensures MAX_INT64 !in StoredVersions(objects, urn) <==>
            1 <= version <= MAX_INT64 && forall m :: m in StoredVersions(objects, urn) ==> m < version
    ensures MAX_INT64 in StoredVersions(objects, urn) ==> version == MIN_INT64
    ensures UploadKey(urn, version) in objects <==> UploadKey(urn, MIN_INT64) in objects
  {
    StoredVersionsExact(objects, urn, version);
    StoredVersionsExact(objects, urn, MIN_INT64);
    StoredVersionsExact(objects, urn, MAX_INT64);
    if SomeKey(objects, urn) {
      var n :| IsMax(n, StoredVersions(objects, urn)) && version == WrapInt64(n + 1);
      StoredVersionsExact(objects, urn, n);
    } else {
      forall m: int
        ensures m !in StoredVersions(objects, urn) && UploadKey(urn, m) !in objects
      {
        NumberIsStored(objects, urn, m);
        assert HasPrefix(UploadKey(urn, m), urn);
      }
    }
  }

  /** What a step stores. */
  function Puts(step: Step): Objects {
    match step
    case NoEffect => map[]
    case CreateNew(urn, first, firstPut, second, secondPut) =>
      (if firstPut.NotStored? then map[] else map[UploadKeyOriginal(urn) := first])
      + (if firstPut.Acked? && second.Some? && !secondPut.NotStored?
         then map[UploadKey(urn, 1) := second.value] else map[])
    case AppendVersion(urn, version, obj, put) => if put.NotStored? then map[] else map[UploadKey(urn, version) := obj]
    case StoreVersion(urn, version, obj, put) => if put.NotStored? then map[] else map[UploadKey(urn, version) := obj]
  }

  /** What a step changes is what it puts, no more and no less. */
  lemma PutsAreTheChange(objects: Objects, step: Step)
    ensures Apply(objects, step) == objects + Puts(step)
  {
    if step.CreateNew? {
      VersionIsNotOriginal(step.urn, 1);
    }
  }

  lemma PutsAreApiKeys(objects: Objects, step: Step)
    requires ApiWritten(objects) && Enabled(objects, step) && Validated(step)
    ensures forall key :: key in Puts(step) ==> ApiKey(key)
  {
    match step {
      case NoEffect =>
      case CreateNew(urn, _, _, _, _) => UploadKeyIsApiKey(urn, 1);
      case AppendVersion(urn, version, _, _) =>
        AssignedVersion(objects, urn, version);
        UploadKeyIsApiKey(urn, version);
      case StoreVersion(urn, version, _, _) => UploadKeyIsApiKey(urn, version);
    }
  }

  /** Every upload keeps the form of the bucket, whatever fails during it. */
  lemma StepKeepsForm(objects: Objects, step: Step)
    requires ApiWritten(objects) && Enabled(objects, step) && Validated(step)
    ensures ApiWritten(Apply(objects, step))
  {
    PutsAreTheChange(objects, step);
    PutsAreApiKeys(objects, step);
    forall urn | CanonicalUrn(urn) && UploadKey(urn, MIN_INT64) in Puts(step)
      ensures UploadKey(urn, MAX_INT64) in objects
    {
      WhoPutsVersion(step, urn, MIN_INT64);
      AssignedVersion(objects, urn, MIN_INT64);
      StoredVersionsExact(objects, urn, MAX_INT64);
    }
  }

  /** A version key is put by an upload to that URN with that version, or by case 1 as version 1. */
  lemma WhoPutsVersion(step: Step, urn: GoString, n: int)
    requires Validated(step) && CanonicalUrn(urn) && UploadKey(urn, n) in Puts(step)
    ensures !step.NoEffect? && step.urn == urn
    ensures if step.CreateNew? then n == 1 else n == step.version
  {
    VersionIsNotOriginal(urn, n);
    KeyInjective(urn, n, step.urn, if step.CreateNew? then 1 else step.version);
  }

  /** The original of a URN is put by case 1 only. */
  lemma WhoPutsOriginal(step: Step, urn: GoString)
    requires UploadKeyOriginal(urn) in Puts(step)
    ensures step.CreateNew? && step.urn == urn && !step.firstPut.NotStored?
  {
    VersionIsNotOriginal(step.urn, if step.CreateNew? then 1 else step.version);
    assert UploadKeyOriginal(urn) == UploadKeyOriginal(step.urn);
    assert UploadKeyOriginal(urn)[..|urn|] == urn && UploadKeyOriginal(step.urn)[..|step.urn|] == step.urn;
  }

  /** No version key is the original of any URN. */
  lemma VersionIsNotOriginal(urn: GoString, n: int)
    ensures forall u :: UploadKeyOriginal(u) != UploadKey(urn, n)
  {
    DecimalCanonical(if n < 0 then -n else n);
    var digits := FormatInt(n);
    assert IsDigit(digits[|digits| - 1]);
    forall u
      ensures UploadKeyOriginal(u) != UploadKey(urn, n)
    {
      assert UploadKeyOriginal(u)[|UploadKeyOriginal(u)| - 1] == 'l';
      assert UploadKey(urn, n)[|UploadKey(urn, n)| - 1] == digits[|digits| - 1];
    }
  }

  /** Case 1 stores the original, or may have, and not the first version. */
  predicate LeavesOriginalAlone(step: Step) {
    step.CreateNew? && !step.firstPut.NotStored?
    && !(step.firstPut.Acked? && step.second.Some? && !step.secondPut.NotStored?)
  }

  /** Nothing else breaks the pairing of originals with their first versions, and this does. */
  lemma PairingExactlyWhen(objects: Objects, step: Step)
    requires Paired(objects) && Enabled(objects, step)
    ensures Paired(Apply(objects, step)) <==> !LeavesOriginalAlone(step)
  {
    PutsAreTheChange(objects, step);
    var after := Apply(objects, step);
    forall urn | UploadKeyOriginal(urn) in after && !LeavesOriginalAlone(step)
      ensures UploadKey(urn, 1) in after
    {
      if UploadKeyOriginal(urn) !in objects {
        WhoPutsOriginal(step, urn);
      }
    }
    if LeavesOriginalAlone(step) {
      VersionIsNotOriginal(step.urn, 1);
      assert UploadKeyOriginal(step.urn) in after && UploadKey(step.urn, 1) !in after;
    }
  }

  // ---------- when an upload overwrites ----------

  /** The step stores under a key that is taken. */
  ghost predicate Overwrites(objects: Objects, step: Step) {
    exists key :: key in Puts(step) && key in objects
  }

  /**
    * Two situations: a generated URN whose original is stored while its version 1, the only key
    * that case checks, is not; and an upload without a version to a URN that has wrapped around.
    */
  predicate Collides(objects: Objects, step: Step) {
    match step
    case CreateNew(urn, _, firstPut, _, _) => !firstPut.NotStored? && UploadKeyOriginal(urn) in objects
    case AppendVersion(urn, _, _, put) => !put.NotStored? && UploadKey(urn, MIN_INT64) in objects
    case _ => false
  }

  /** The object a colliding step meets differs from the one it stores. */
  predicate Replaces(objects: Objects, step: Step) {
    Collides(objects, step)
    && if step.CreateNew? then objects[UploadKeyOriginal(step.urn)] != step.first
       else objects[UploadKey(step.urn, MIN_INT64)] != step.obj
  }

  /** These two and no others, on any bucket of the form uploads keep, paired or not. */
  lemma OverwritesExactlyWhen(objects: Objects, step: Step)
    requires ApiWritten(objects) && Enabled(objects, step) && Validated(step)
    ensures Overwrites(objects, step) <==> Collides(objects, step)
    ensures !Extends(objects, Apply(objects, step)) <==> Replaces(objects, step)
    ensures Collides(objects, step) && step.AppendVersion? ==>
              MAX_INT64 in StoredVersions(objects, step.urn) && step.version == MIN_INT64
  {
    PutsAreTheChange(objects, step);
    if step.CreateNew? {
      CreateCollides(objects, step);
    } else if step.AppendVersion? {
      AppendCollides(objects, step);
    }
  }

  lemma CreateCollides(objects: Objects, step: Step)
    requires step.CreateNew? && Enabled(objects, step)
    ensures Overwrites(objects, step) <==> Collides(objects, step)
    ensures !Extends(objects, objects + Puts(step)) <==> Replaces(objects, step)
  {
    VersionIsNotOriginal(step.urn, 1);
    var original := UploadKeyOriginal(step.urn);
    assert original in Puts(step) <==> !step.firstPut.NotStored?;
    assert original in Puts(step) ==> (objects + Puts(step))[original] == step.first;
  }

  lemma AppendCollides(objects: Objects, step: Step)
    requires step.AppendVersion? && ApiWritten(objects) && Enabled(objects, step) && CanonicalUrn(step.urn)
    ensures Overwrites(objects, step) <==> Collides(objects, step)
    ensures !Extends(objects, objects + Puts(step)) <==> Replaces(objects, step)
    ensures Collides(objects, step) ==> MAX_INT64 in StoredVersions(objects, step.urn) && step.version == MIN_INT64
  {
    TakenMeansWrapped(objects, step.urn, step.version);
    var key := UploadKey(step.urn, step.version);
    if !step.put.NotStored? {
      assert Puts(step) == map[key := step.obj];
      PutOne(objects, key, step.obj);
    }
  }

  lemma TakenMeansWrapped(objects: Objects, urn: GoString, version: int)
    requires ApiWritten(objects) && CanonicalUrn(urn) && Assigned(objects, urn, version)
    ensures UploadKey(urn, version) in objects <==> UploadKey(urn, MIN_INT64) in objects
    ensures UploadKey(urn, version) in objects ==> MAX_INT64 in StoredVersions(objects, urn) && version == MIN_INT64
  {
    AssignedVersion(objects, urn, version);
    StoredVersionsExact(objects, urn, MAX_INT64);
  }

  lemma PutOne(objects: Objects, key: GoString, obj: StoredObject)
    ensures Extends(objects, objects + map[key := obj]) <==> (key in objects ==> objects[key] == obj)
  {
    assert (objects + map[key := obj])[key] == obj;
  }

  // ---------- runs of uploads ----------

  /** The states of a bucket that started empty and was written by serialised uploads only, failed ones included. */
  ghost predicate IsHistory(states: seq<Objects>, steps: seq<Step>) {
    && |states| == |steps| + 1
    && states[0] == map[]
    && forall i :: 0 <= i < |steps| ==> Follows(states[i], steps[i], states[i + 1])
  }

  ghost predicate Follows(before: Objects, step: Step, after: Objects) {
    Enabled(before, step) && Validated(step) && after == Apply(before, step)
  }

  /** Every step of the run stores objects as uploads of some documents do. */
  ghost predicate AllDescribed(steps: seq<Step>, codec: StatsCodec) {
    forall k :: 0 <= k < |steps| ==> StoresDescribed(steps[k], codec)
  }

  /** Uploading a validated document, the generator's URNs being canonical, is a step of a history. */
  lemma UploadContinues(
      states: seq<Objects>, steps: seq<Step>, bom: Bom, original: GoString, codec: StatsCodec, s: Surroundings,
      step: Step, after: Objects)
    requires IsHistory(states, steps) && AllDescribed(steps, codec)
    requires bom.serialNumber == "" || CanonicalUrn(bom.serialNumber)
    requires bom.version <= MAX_INT64 && forall i: nat :: CanonicalUrn(s.uuids(i))
    requires TakesStep(states[|steps|], bom, s, step) && StoresDocument(bom, original, codec, s, step)
    requires Enabled(states[|steps|], step) && after == Apply(states[|steps|], step)
    ensures IsHistory(states + [after], steps + [step]) && AllDescribed(steps + [step], codec)
  {
    var longer, all := states + [after], steps + [step];
    forall i | 0 <= i < |all|
      ensures Follows(longer[i], all[i], longer[i + 1])
    {
      if i < |steps| {
        assert Follows(states[i], steps[i], states[i + 1]);
      }
    }
    assert StoresDescribed(step, codec);
  }

  /**
    * One more upload to a bucket written by uploads: whatever becomes of it, the bucket stays one,
    * and every result about histories holds of it.
    */
  method UploadNext(
      store: Store, bom: Bom, original: GoString, codec: StatsCodec, s: Surroundings,
      ghost states: seq<Objects>, ghost steps: seq<Step>)
    returns (r: Result<Created, UploadError>, ghost step: Step)
    requires IsHistory(states, steps) && AllDescribed(steps, codec) && store.objects == states[|steps|]
    requires bom.serialNumber == "" || CanonicalUrn(bom.serialNumber)
    requires bom.version <= MAX_INT64 && forall i: nat :: CanonicalUrn(s.uuids(i))
    requires bom.serialNumber == "" ==> Distinct(s.uuids, |store.objects| + 1)
    requires bom.serialNumber != "" && bom.version < 1 ==>
               Broken in s.listing || Enumerates(s.listing, store.objects, bom.serialNumber)
    modifies store
    ensures IsHistory(states + [store.objects], steps + [step]) && AllDescribed(steps + [step], codec)
    ensures TakesStep(old(store.objects), bom, s, step) && StoresDocument(bom, original, codec, s, step)
    ensures r.Success? <==> Acknowledged(step)
  {
    r, step := UploadBOM(store, bom, original, codec, s);
    UploadContinues(states, steps, bom, original, codec, s, step, store.objects);
  }

  lemma {:induction false} HistoryInvariant(states: seq<Objects>, steps: seq<Step>, i: nat)
    requires IsHistory(states, steps) && i < |states|
    ensures ApiWritten(states[i])
  {
    if i > 0 {
      HistoryInvariant(states, steps, i - 1);
      assert Follows(states[i - 1], steps[i - 1], states[i - 1 + 1]);
      StepKeepsForm(states[i - 1], steps[i - 1]);
    }
  }

  /** The pairing holds as long as no upload leaves an original alone. */
  lemma {:induction false} HistoryPairing(states: seq<Objects>, steps: seq<Step>, i: nat)
    requires IsHistory(states, steps) && i < |states|
    requires forall k :: 0 <= k < i ==> !LeavesOriginalAlone(steps[k])
    ensures Paired(states[i])
  {
    if i > 0 {
      HistoryPairing(states, steps, i - 1);
      assert Follows(states[i - 1], steps[i - 1], states[i - 1 + 1]);
      PairingExactlyWhen(states[i - 1], steps[i - 1]);
    }
  }

  lemma HistoryStep(states: seq<Objects>, steps: seq<Step>, k: nat)
    requires IsHistory(states, steps) && k < |steps|
    ensures Extends(states[k], states[k + 1]) <==> !Replaces(states[k], steps[k])
  {
    HistoryInvariant(states, steps, k);
    assert Follows(states[k], steps[k], states[k + 1]);
    OverwritesExactlyWhen(states[k], steps[k]);
  }

  lemma ExtendsTransitive(a: Objects, b: Objects, c: Objects)
    requires Extends(a, b) && Extends(b, c)
    ensures Extends(a, c)
  {
  }

  lemma {:induction false} StoredStays(states: seq<Objects>, i: nat, j: nat)
    requires i <= j < |states|
    requires forall k :: i <= k < j ==> Extends(states[k], states[k + 1])
    ensures Extends(states[i], states[j])
    decreases j
  {
    if i < j {
      StoredStays(states, i, j - 1);
      assert Extends(states[j - 1], states[j - 1 + 1]);
      ExtendsTransitive(states[i], states[j - 1], states[j]);
    }
  }

  ghost predicate AllStays(states: seq<Objects>) {
    forall i, j :: 0 <= i <= j < |states| ==> Extends(states[i], states[j])
  }

  /**
    * Over a run of uploads, what is stored once is stored for good, with its bytes and metadata,
    * exactly when no upload of the run meets one of the two collisions with different contents.
    */
  lemma NothingIsEverOverwritten(states: seq<Objects>, steps: seq<Step>)
    requires IsHistory(states, steps)
    ensures AllStays(states) <==> forall k :: 0 <= k < |steps| ==> !Replaces(states[k], steps[k])
  {
    if AllStays(states) {
      forall k | 0 <= k < |steps|
        ensures !Replaces(states[k], steps[k])
      {
        HistoryStep(states, steps, k);
        assert Extends(states[k], states[k + 1]);
      }
    }
    if forall k :: 0 <= k < |steps| ==> !Replaces(states[k], steps[k]) {
      forall k | 0 <= k < |steps|
        ensures Extends(states[k], states[k + 1])
      {
        HistoryStep(states, steps, k);
      }
      forall i, j | 0 <= i <= j < |states|
        ensures Extends(states[i], states[j])
      {
        StoredStays(states, i, j);
      }
    }
  }

  /** Whatever a bucket holds, some upload put there. */
  lemma {:induction false} SomeStepPut(states: seq<Objects>, steps: seq<Step>, i: nat, key: GoString) returns (k: nat)
    requires IsHistory(states, steps) && i < |states| && key in states[i]
    ensures k < i && key in Puts(steps[k])
  {
    assert Follows(states[i - 1], steps[i - 1], states[i - 1 + 1]);
    PutsAreTheChange(states[i - 1], steps[i - 1]);
    if key in Puts(steps[i - 1]) {
      k := i - 1;
    } else {
      k := SomeStepPut(states, steps, i - 1, key);
    }
  }

  /** Over the whole run the generator produces no URN twice. */
  ghost predicate GeneratorNeverRepeats(steps: seq<Step>) {
    forall i, j :: 0 <= i < j < |steps| && steps[i].CreateNew? && steps[j].CreateNew? ==> steps[i].urn != steps[j].urn
  }

  /** No upload brings or gets the version 2^63 - 1. */
  ghost predicate StaysBelowMax(steps: seq<Step>) {
    forall k :: 0 <= k < |steps| && (steps[k].StoreVersion? || steps[k].AppendVersion?) ==>
      steps[k].version != MAX_INT64
  }

  /** What a deployment can rely on: with these two nothing is ever overwritten, whatever puts are lost. */
  lemma SafeWithoutRepetition(states: seq<Objects>, steps: seq<Step>)
    requires IsHistory(states, steps) && GeneratorNeverRepeats(steps) && StaysBelowMax(steps)
    ensures forall k :: 0 <= k < |steps| ==> !Overwrites(states[k], steps[k])
    ensures AllStays(states)
  {
    forall k | 0 <= k < |steps|
      ensures !Collides(states[k], steps[k]) && !Overwrites(states[k], steps[k])
    {
      HistoryInvariant(states, steps, k);
      assert Follows(states[k], steps[k], states[k + 1]);
      OverwritesExactlyWhen(states[k], steps[k]);
      if Collides(states[k], steps[k]) {
        var urn := steps[k].urn;
        if steps[k].CreateNew? {
          var j := SomeStepPut(states, steps, k, UploadKeyOriginal(urn));
          WhoPutsOriginal(steps[j], urn);
        } else {
          var j := SomeStepPut(states, steps, k, UploadKey(urn, MAX_INT64));
          assert Follows(states[j], steps[j], states[j + 1]);
          WhoPutsVersion(steps[j], urn, MAX_INT64);
        }
      }
    }
    NothingIsEverOverwritten(states, steps);
  }

  /** On a bucket of uploads a URN that has any key has a version, and its listing is well formed. */
  lemma SomeVersionExists(objects: Objects, urn: GoString)
    requires ApiWritten(objects) && CanonicalUrn(urn) && SomeKey(objects, urn)
    ensures !SomeForeignKey(objects, urn)
    ensures StoredVersions(objects, urn) == {} <==>
            UploadKeyOriginal(urn) in objects && forall n :: 1 <= n <= MAX_INT64 ==> UploadKey(urn, n) !in objects
    ensures Paired(objects) ==> StoredVersions(objects, urn) != {}
  {
    forall key | key in objects && HasPrefix(key, urn)
      ensures SuffixOf(key, urn) != Bad
    {
      ApiKeyReads(key, urn);
    }
    forall n
      ensures n in StoredVersions(objects, urn) <==> IsVersionNumber(n) && UploadKey(urn, n) in objects
    {
      StoredVersionsExact(objects, urn, n);
    }
    var key :| key in objects && HasPrefix(key, urn);
    ApiKeyReads(key, urn);
  }

  /** On a bucket of uploads no version is listed twice: the listed versions ascend strictly. */
  lemma VersionsAscend(objects: Objects, urn: GoString, v: Versions)
    requires ApiWritten(objects) && CanonicalUrn(urn) && SomeKey(objects, urn)
    requires ListsVersions(Success(v), objects, urn)
    ensures forall i, j :: 0 <= i < j < |v.versions| ==> v.versions[i] < v.versions[j]
  {
    SomeVersionExists(objects, urn);
    var s := v.versions;
    forall i, j | 0 <= i < j < |s|
      ensures s[i] < s[j]
    {
      if s[i] == s[j] {
        TwiceInMultiset(s, i, j);
        OneKeyReads(objects, urn, s[i]);
      }
    }
  }

  lemma TwiceInMultiset(s: seq<int>, i: int, j: int)
    requires 0 <= i < j < |s| && s[i] == s[j]
    ensures multiset(s)[s[i]] >= 2
  {
    assert s == s[..i] + [s[i]] + s[i + 1..j] + [s[j]] + s[j + 1..];
  }

  lemma OneKeyReads(objects: Objects, urn: GoString, n: int)
    requires ApiWritten(objects) && CanonicalUrn(urn)
    ensures |KeysReading(objects, urn, n)| <= 1
  {
    var keys := KeysReading(objects, urn, n);
    forall key | key in keys
      ensures key == UploadKey(urn, n)
    {
      PrefixOfPrefix(key, urn);
      ApiKeyReads(key, urn);
    }
    assert keys <= {UploadKey(urn, n)};
    SubsetIsSmaller(keys, {UploadKey(urn, n)});
  }

  lemma SubsetIsSmaller(a: set<GoString>, b: set<GoString>)
    requires a <= b
    ensures |a| <= |b|
  {
    assert b == a + (b - a);
  }

  // ---------- both situations are reached ----------

  /**
    * A first put whose second is lost: the original stands alone, listing the URN succeeds with no
    * version, and a generator that repeats the URN replaces the original.
    */
  lemma LostSecondPut(urn: GoString, first: StoredObject, again: StoredObject, second: StoredObject)
    returns (states: seq<Objects>, steps: seq<Step>)
    requires CanonicalUrn(urn) && first != again
    ensures IsHistory(states, steps)
    ensures steps == [CreateNew(urn, first, Acked, Some(second), NotStored),
                      CreateNew(urn, again, Acked, Some(second), Acked)]
    ensures !Paired(states[1]) && SomeKey(states[1], urn) && !SomeForeignKey(states[1], urn)
    ensures StoredVersions(states[1], urn) == {}
    ensures Replaces(states[1], steps[1]) && !Extends(states[1], states[2])
  {
    steps := [CreateNew(urn, first, Acked, Some(second), NotStored), CreateNew(urn, again, Acked, Some(second), Acked)];
    var objects: Objects := map[UploadKeyOriginal(urn) := first];
    states := [map[], objects, Apply(objects, steps[1])];
    forall n: int
      ensures UploadKey(urn, n) !in objects
    {
      VersionIsNotOriginal(urn, n);
    }
    assert Follows(states[0], steps[0], states[1]);
    assert Follows(states[1], steps[1], states[2]);
    HistoryInvariant(states, steps, 1);
    assert HasPrefix(UploadKeyOriginal(urn), urn);
    SomeVersionExists(objects, urn);
    HistoryStep(states, steps, 1);
    assert UploadKeyOriginal(urn) in objects && UploadKey(urn, 1) !in objects;
  }

  /**
    * Three acknowledged uploads: version 2^63 - 1, then two without a version. Both of these are
    * given -2^63, and the last replaces the document of the one before.
    */
  lemma SecondWrapReplaces(urn: GoString, top: int, low: int, a: StoredObject, b: StoredObject, c: StoredObject)
    returns (states: seq<Objects>, steps: seq<Step>)
    requires CanonicalUrn(urn) && top == MAX_INT64 && low == MIN_INT64 && b != c
    ensures IsHistory(states, steps)
    ensures steps == [StoreVersion(urn, top, a, Acked),
                      AppendVersion(urn, low, b, Acked), AppendVersion(urn, low, c, Acked)]
    ensures Replaces(states[2], steps[2]) && !Extends(states[2], states[3])
  {
    var key := UploadKey(urn, low);
    var one: Objects := map[UploadKey(urn, top) := a];
    var two := one[key := b];
    var three := two[key := c];
    steps := [StoreVersion(urn, top, a, Acked), AppendVersion(urn, low, b, Acked), AppendVersion(urn, low, c, Acked)];
    StoreFollows(urn, top, a);
    WrapFollows(urn, top, low, one, b);
    WrapFollows(urn, top, low, two, c);
    states := ThreeSteps(one, two, three, steps);
    WrapReplaces(two, three, urn, low, c);
  }

  lemma StoreFollows(urn: GoString, n: int, obj: StoredObject)
    requires CanonicalUrn(urn) && 1 <= n <= MAX_INT64
    ensures Follows(map[], StoreVersion(urn, n, obj, Acked), map[UploadKey(urn, n) := obj])
  {
  }

  lemma ThreeSteps(one: Objects, two: Objects, three: Objects, steps: seq<Step>) returns (states: seq<Objects>)
    requires |steps| == 3
    requires Follows(map[], steps[0], one) && Follows(one, steps[1], two) && Follows(two, steps[2], three)
    ensures states == [map[], one, two, three] && IsHistory(states, steps)
  {
    states := [map[], one, two, three];
  }

  lemma WrapReplaces(before: Objects, after: Objects, urn: GoString, low: int, obj: StoredObject)
    requires low == MIN_INT64 && UploadKey(urn, low) in before && before[UploadKey(urn, low)] != obj
    requires after == before[UploadKey(urn, low) := obj]
    ensures Replaces(before, AppendVersion(urn, low, obj, Acked)) && !Extends(before, after)
  {
    assert after[UploadKey(urn, low)] == obj;
  }

  lemma WrapFollows(urn: GoString, top: int, low: int, objects: Objects, obj: StoredObject)
    requires CanonicalUrn(urn) && top == MAX_INT64 && low == MIN_INT64
    requires UploadKey(urn, top) in objects && objects.Keys <= {UploadKey(urn, top), UploadKey(urn, low)}
    ensures Follows(objects, AppendVersion(urn, low, obj, Acked), objects[UploadKey(urn, low) := obj])
  {
    TopIsHighest(urn, top, low, objects);
    assert WrapInt64(top + 1) == low;
  }

  lemma TopIsHighest(urn: GoString, top: int, low: int, objects: Objects)
    requires low < top && IsInt64(top) && IsInt64(low)
    requires UploadKey(urn, top) in objects && objects.Keys <= {UploadKey(urn, top), UploadKey(urn, low)}
    ensures SomeKey(objects, urn) && IsMax(top, StoredVersions(objects, urn))
  {
    ReadBack(urn, top);
    ReadBack(urn, low);
    assert HasPrefix(UploadKey(urn, top), urn);
    forall m | m in StoredVersions(objects, urn)
      ensures m <= top
    {
      var key :| key in objects && SuffixOf(key, urn).Number? && SuffixOf(key, urn).n == m;
      assert key == UploadKey(urn, top) || key == UploadKey(urn, low);
    }
  }
}
