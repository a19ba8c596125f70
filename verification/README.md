# A model of the CBOM repository

The CBOM repository stores CycloneDX documents as objects of an S3 bucket and serves them over
HTTP. This project models four parts of it in Dafny and proves what they keep. `dafny verify
dfyconfig.toml` checks all of it.

* **The paged change feed.** `Positions`, `Candidates`, `Entries`, `Pages`, `Feed` follow one call of
  `GET /v1/bom`: the store's nanosecond filter over listing pages, the candidates in (millisecond,
  key) order, the opening page with its soft limit, the continued page with its hard one, the
  legacy call. `Runs` puts pages together: each page of a run meets its own environment, a
  listing that may differ from the previous one in any way and an arbitrary outcome of examining each object,
  so that uploads, overwrites and deletions between pages and every HEAD answer are covered.
  `Paging` has the shape of an opening page, `Consumers` the two documented client loops on a
  bucket at rest, `Watermark` the protocol between runs.
* **The cursor token.** `Base64`, `Utf8`, `Decimals` and `CursorCodec` model the wire form byte by
  byte; `Links` takes it through the Link header, the client's resolution and the request parser.
* **The component walk.** `Components` has the explicit stack with its 1000-level bound and the
  statistics counted along it.
* **The versioned document store.** `Storage`, `Uploads`, `Versioning` and `Documents` model the
  bucket, the three upload cases as steps of a state machine, and reading back; `Views` relates
  the feed, the legacy search and the versions of a URN, and `Fetching` what they show to what a GET serves.

A Go string is a sequence of bytes; here a byte is a character below 256. Stamps are nanoseconds
since the epoch, `created_at` is a whole second. `None` stands for nil, `Result` for an error return.
A loop of the source is a method with a loop, proved against a function or a predicate of its
inputs; the lemmas then say what that function means. Library sorting is an insertion sort here,
and the results are shown not to depend on it.

## Where the code and its documentation differ

* The comments give an opening page the size max(limit, entries in its last second). The loop gives
  k + m, with k < limit entries of earlier seconds and all m of the boundary second.
  `Paging.DocumentedSizeExactlyWhen` says when the two agree, `Paging.DocumentedSizeFails` has an
  input where they do not.
* The documented overlap between runs is skew + upload duration + 1 s. One nanosecond less is exactly
  enough: `Watermark.NothingLostAcrossRuns` and `Watermark.LostWithLess`.
* Case 1 of an upload stores `-original` before `-1`, and so does not always leave both: the second
  put, the encoding before it, or the acknowledgement of the first put can fail.
  Then the listing of that URN succeeds with no version and `versions[len(versions)-1]` is out of
  range. The model keeps this outcome (`IndexOutOfRange`, `EmptyVersions`); `Versioning.LostSecondPut`
  reaches it, `Documents.EmptyVersionsExactlyWhen` says when, and `Versioning.HistoryPairing` that
  uploads which leave no such state behind never meet it.
* No-overwrite holds for serialised uploads, and not for all of those. `Versioning.OverwritesExactlyWhen`
  names the two situations in which one overwrites, `Versioning.LostSecondPut` and
  `Versioning.SecondWrapReplaces` reach them, and `Versioning.SafeWithoutRepetition` says what keeps clear of both.
* "The next version number" after 2^63 - 1 is -2^63: `Versioning.AssignedVersion`. Case 2 does not check
  whether it is taken. The searches show such a version under another serial number than the versions of the
  URN do (`Views.WrappedInFeed`, `Views.ViewsAgree`), and neither can be fetched as shown, though the feed is
  meant to leave out what cannot (`Fetching.FeedEntriesAreServed`, `Fetching.UrnEntriesAreServed`).
* "Strictly after the specified Unix timestamp" fails for the largest timestamps the request parser accepts:
  `time.Unix` wraps around in 64 bits and the legacy search lists everything (`Views.LegacyWrapsAround`). The
  paged feed is not affected (`Feed.PrefilterKeepsCandidates`).

## Model

| member | source | states |
|---|---|---|
| Positions.CursorTrichotomy | internal/service/cursor.go:123-129 | exactly one of before, same and after holds for two positions, and compare is antisymmetric |
| Positions.CursorTransitive | internal/service/cursor.go:123-129 | the paged order is transitive |
| Positions.PositionExactly | internal/service/cursor.go:112-135 | seconds and milliseconds round down; positions order by millisecond and then by key, byte by byte |
| Candidates.SelectCorrect | internal/service/service.go:411-426 | the candidates are exactly the kept objects, strictly ascending |
| Candidates.SelectDeterminedBySet | internal/service/service.go:411-426 | they depend on the set of objects only, not on listing order or sorting algorithm |
| Candidates.SelectCandidates | internal/service/service.go:417-426 | the filter loop and the sort compute that sequence |
| Decimals.ParseOfFormat | internal/service/cursor.go:92-95 | printing and parsing an int64 are inverse |
| Decimals.DecimalDigits | internal/service/cursor.go:53-57 | each printed digit is that place of the number |
| Decimals.ParseIntExactly | internal/service/cursor.go:92-95 | exactly what parses: a sign, zeros and the printed number, within 64 bits |
| Decimals.DecimalOfValue | internal/service/service.go:638-655 | digits without a leading zero are the printed form of their value |
| Keys.ValidVersion | internal/service/service.go:638-655 | the scan accepts exactly `original` and the printed positive integers |
| Keys.PagedKeyExact | internal/service/service.go:555-573 | the feed surfaces exactly the keys `<urn>-<version>`, with that URN and that version |
| Components.PushChildren | internal/service/stats.go:138-146 | after the reverse pushes the stack pops the new forest in document order, before what was pending |
| Components.WalkComponents | internal/service/stats.go:124-168 | the walk ends with the components of the first 1000 levels, by their paths in document order and each once, truncated exactly when one sits on level 1001 |
| Components.CutVersusFull | internal/service/stats.go:128-134 | not truncated means the whole document, truncated means strictly less |
| Components.PreOrderIsDocumentOrder | internal/service/stats.go:117-134 | the recursive traversal is what sits at the paths of the first 1000 levels, in document order |
| Components.HeightExactly | internal/service/stats.go:131-134 | the height is the level of the deepest component |
| Components.CountCryptoStats | internal/service/stats.go:78-115 | each field, by name, is the number of crypto assets of its type on the first 1000 levels; nil components give zero |
| Components.TallyOfPreOrder | internal/service/stats.go:88-113 | counting along the traversal is the recursive sum |
| Components.RecordedCountIsLowerBound | internal/service/stats.go:78-80 | the recorded counts are a lower bound on the whole document, exact when not truncated |
| Components.TotalIsBucketsPlusUntyped | internal/service/stats.go:98-112 | the total exceeds the four buckets by exactly the assets of no listed type |
| Entries.WarningsExactly | internal/service/service.go:600-636 | an entry shows the statistics the object carries; each warning appears exactly for its reason, in the documented order |
| Pages.SearchPaged | internal/service/service.go:434-482 | the opening page's loop, from `pageFull` to `Next`, produces the specified page or fails with HEAD |
| Pages.SearchCursor | internal/service/service.go:484-510 | the continued page's loop produces the specified page or fails with HEAD |
| Feed.StoreSearch | internal/store/store.go:108-148 | by place in the pages: every entry with a key and a stamp after the instant time.Unix makes of the watermark, wrap-around included, each once, in listing order; a broken page fails it |
| Feed.BucketIsListing | internal/store/store.go:130-146 | the objects of a listing are exactly its entries with both a key and a stamp, page by page and in order |
| Feed.PrefilterKeepsCandidates | internal/service/cursor.go:103-110 | the store's nanosecond filter never drops a candidate, for any watermark, cursor and stamps |
| Feed.SearchLegacy | internal/service/service.go:323-361 | one row for each object that becomes an entry, in listing order, or the failure of the first object that fails |
| Feed.Search | internal/service/service.go:260-309 | the dispatch of the three modes and their errors, end to end from listing pages |
| Runs.PageSound | internal/service/service.go:434-510 | a page yields wanted objects only, ascending; its cursor is its last entry's position and only a full page has one |
| Runs.PageDropsNothing | internal/service/service.go:446-453 | what a page wants and does not skip is yielded or strictly ahead of its cursor, and of its last second on an opening page |
| Runs.ContinuedPageIsExact | internal/service/service.go:484-489 | a continued page holds at most limit entries, exactly limit when it has a cursor |
| Runs.RunStrictlyIncreasing | internal/service/service.go:403-426 | over a whole run, whatever changes between pages, positions increase strictly: nothing comes twice |
| Runs.MidRunUploadFate | internal/service/service.go:484-510 | an object landing before page L is yielded once if its position is ahead of page L's cursor, else never |
| Runs.StableObjectExactlyOnce | README.md:137 | an object present throughout is yielded exactly once, if its second is after the watermark |
| Runs.PagesAreFull | internal/service/service.go:448-453 | P pages have yielded at least (P - 1) * limit entries |
| Paging.BoundaryIsFixed | internal/service/service.go:457-478 | once a page is full its boundary second never changes, whether the page ends with a cursor or with the candidates |
| Paging.OpeningPageShape | internal/service/service.go:434-482 | a full opening page is fewer than limit entries of earlier seconds, then every eligible object of the boundary second |
| Paging.DocumentedSizeExactlyWhen | internal/service/service.go:55-61 | when the documented size max(limit, entries in that second) holds |
| Paging.DocumentedSizeFails | internal/service/service.go:55-61 | an input for which it does not |
| Paging.NextExactlyWhen | internal/service/service.go:249-258 | a cursor is handed out exactly when a candidate is left unexamined, never by a short page |
| Paging.ExaminedTwice | internal/service/service.go:448-453 | only the skipped tail of an opening page's last second can be examined again |
| Consumers.PagingIsInvisible | internal/service/service.go:417-510 | on a bucket at rest the pages of any run, for any limit, are together the one sorted eligible list |
| Consumers.FollowLinks | README.md:121-131 | the documented loop ends, fails exactly when an object it must examine fails, else delivers that list |
| Consumers.AdvanceAfter | README.md:135 | the earlier loop over created_at, which comes from the listing whatever HEAD answers, ends and delivers the same list |
| Consumers.PageSplitsEligible | internal/service/service.go:434-445 | a page never splits a second: what is left is exactly what lies after its last second |
| Watermark.NothingLostAcrossRuns | README.md:121-137 | an object visible at a successful run's first listing and left alone was yielded by it or by an earlier successful run |
| Watermark.LostWithLess | README.md:130 | with any overlap below that bound there is an object that stays in the bucket and that no successful run ever delivers, however the consumer goes on with a clock that does not fall back |
| Base64.DecodeOfEncode | internal/service/cursor.go:53-57 | encoded bytes decode to themselves |
| Base64.EncodeOfDecode | internal/service/cursor.go:77-83 | nothing but encoder output decodes: no padding, stray characters or trailing bits |
| Base64.EncodedLength | internal/service/cursor.go:24-29 | the unpadded length |
| Base64.EncodedGroup | internal/service/cursor.go:53-57 | three bytes are one 24-bit number and four entries of the alphabet of section 5 of RFC 4648, most significant six bits first |
| Base64.EncodedTailOfOne | internal/service/cursor.go:53-57 | a last byte makes two characters, filled up with zero bits, without padding |
| Base64.EncodedTailOfTwo | internal/service/cursor.go:53-57 | two last bytes make three |
| Utf8.ValidExactly | internal/service/cursor.go:96-99 | the accepted keys are exactly the encodings of Unicode scalar values (sections 3 and 4 of RFC 3629) |
| Utf8.RuneBits | internal/service/cursor.go:96-99 | the payload bits of each encoding are its scalar value (section 3 of RFC 3629) |
| CursorCodec.ParseOfString | internal/service/cursor.go:53-101 | a token parses back to its cursor exactly when the cursor is issuable |
| CursorCodec.StringOfParse | internal/service/cursor.go:59-101 | an accepted token is the very token its cursor is issued as |
| CursorCodec.CodecIsBijection | internal/service/cursor.go:53-101 | accepted tokens and issuable cursors correspond one to one |
| CursorCodec.TokenText | internal/service/cursor.go:19-57 | what a token encodes, word for word, and the 2048-character cap |
| CursorCodec.TokenLengthBound | internal/service/cursor.go:24-29 | a token for an S3 key and an int64 stamp has at most 1396 characters |
| Links.CursorRequestExactlyWhen | internal/http/handlers.go:254-287 | which requests with a cursor are accepted, and with which cursor |
| Links.OpeningRequestExactlyWhen | internal/http/handlers.go:225-252 | which requests without a cursor are accepted, and as what |
| Links.LimitExactly | internal/http/handlers.go:289-302 | an absent limit is the legacy call, any other must be a number from 1 to 1000 |
| Links.OpeningRequestParses | internal/http/handlers.go:225-252 | opening and legacy requests are read back as rendered |
| Links.ParsedRequestIsConsistent | internal/http/handlers.go:225-302 | a parsed request is never the inconsistent one Search rejects |
| Links.LinkKeepsPath | internal/http/handlers.go:313-321 | resolving the Link against a path ending in `bom` gives that path (section 5.2 of RFC 3986) |
| Links.NoDotsLeft | internal/http/handlers.go:313-321 | resolving leaves no dot segment (section 5.2.4 of RFC 3986) |
| Links.TokenNeedsNoEscaping | internal/http/handlers.go:321-323 | the token is never percent-encoded |
| Links.LinkText | internal/http/handlers.go:324-329 | the Link header, word for word |
| Links.ParseOfRender | internal/http/handlers.go:325-329 | any rendered query is read back, every key with its values in order |
| Links.LinkRoundTrip | internal/http/handlers.go:313-329 | the request a Link leads to carries the same cursor and limit |
| Links.EveryLinkIsAccepted | internal/service/cursor.go:24-29 | every Link of every run from a non-negative watermark is accepted |
| Storage.Store.Upload | internal/store/store.go:340-366 | the new bucket under each outcome of the put |
| Storage.GetObjectVersions | internal/store/store.go:150-221 | the listing, parsing and sorting loops: not found, a malformed key, or the parsed numbers in order, each as often as read, and whether there is an original |
| Storage.ResultIsListed | internal/store/store.go:160-221 | the same by the keys the pages hold: not found without any, malformed exactly when one is, else the numbers and the original they read as |
| Storage.SuffixExactly | internal/store/store.go:195-218 | what a key reads as: `original` or a 64-bit number after the URN and a dash |
| Storage.AllKeysAt | internal/store/store.go:179-186 | the keys of all pages are listed, one for one and in order |
| Storage.VersionsOfBucket | internal/store/store.go:150-221 | on a faithful listing these are exactly the versions the bucket stores for the URN, each listed as often as keys read so |
| Uploads.NewSerialNumber | internal/service/upload.go:162-172 | the retry loop picks the first unused generated URN within |bucket| + 1 tries, if those tries do not repeat |
| Uploads.UploadCaseSNInvalid | internal/service/upload.go:156-212 | case 1: the exact step, which URN it takes, when it succeeds, and what each failure leaves and reports |
| Uploads.UploadCaseVersionInvalid | internal/service/upload.go:214-253 | case 2: the latest version plus one, or 1; the exact step, when it succeeds, when encoding fails it and when the index is out of range |
| Uploads.UploadCaseValid | internal/service/upload.go:255-285 | case 3: stored as it is when the version is free and the store answers, refused exactly when that version exists |
| Uploads.UploadBOM | internal/service/upload.go:121-145 | which case a document takes and the step it makes, success exactly when every put is acknowledged, the cause of each error, and what the stored objects hold |
| Versioning.ApiKeyReads | internal/store/store.go:195-218 | no canonical URN is a prefix of another: a listing by URN reads that URN's keys, all of them |
| Versioning.StoredVersionsExact | internal/store/store.go:150-168 | on a bucket of uploads the listed numbers are exactly the stored version keys, a wrapped one included |
| Versioning.AssignedVersion | internal/service/upload.go:223-230 | the assigned version is above all stored ones exactly when 2^63 - 1 is not stored, else -2^63; it is taken exactly when the URN has wrapped around before |
| Versioning.StepKeepsForm | internal/service/upload.go:156-285 | every upload, failed puts included, keeps the form of the bucket: keys of canonical URNs, a wrapped version only beside 2^63 - 1 |
| Versioning.PairingExactlyWhen | internal/service/upload.go:183-206 | an upload breaks the pairing of originals with their first versions exactly when it stores the one and not the other |
| Versioning.OverwritesExactlyWhen | internal/service/upload.go:162-245 | an upload puts on a taken key in exactly two situations, and changes what is stored exactly when the contents differ there |
| Versioning.UploadNext | internal/service/upload.go:121-145 | an upload of a validated document to a bucket written by uploads, whatever becomes of it, leaves one: the results over histories apply to it |
| Versioning.HistoryInvariant | internal/service/upload.go:156-285 | the form holds after any run of serialised uploads, whatever fails in it |
| Versioning.HistoryPairing | internal/service/upload.go:183-206 | the pairing holds as long as no upload leaves an original alone |
| Versioning.NothingIsEverOverwritten | internal/service/upload.go:156-285 | over any run of uploads everything stored stays, with its bytes and metadata, exactly when no upload of the run meets one of the two situations with other contents |
| Versioning.SafeWithoutRepetition | internal/service/upload.go:162-172 | a generator that never repeats and versions below 2^63 - 1 are enough for that, lost puts or not |
| Versioning.SomeVersionExists | internal/service/upload.go:223-224 | a known URN lists well, and has a version unless its original stands alone |
| Versioning.VersionsAscend | internal/store/store.go:195-221 | on a bucket of uploads the listed versions ascend strictly, so none is listed twice |
| Versioning.LostSecondPut | internal/service/upload.go:183-206 | first situation: a lost second put leaves a URN with an empty version list, and the URN repeated replaces its original |
| Versioning.SecondWrapReplaces | internal/service/upload.go:223-245 | second situation: after version 2^63 - 1, two uploads without a version get -2^63 and the later replaces the earlier |
| Documents.GetBOMByUrn | internal/service/service.go:695-744 | not found exactly when the store answers and lacks the key, the contents exactly when they are stored and pass `CheckOnFetch`, for a given version and for the highest listed one, with every error of the listing |
| Documents.LatestIsHighest | internal/service/service.go:682-712 | for each URN by itself, without a version: nothing found exactly without a key, the empty list exactly when the original stands alone, else the numerically highest document |
| Documents.PairedHasLatest | internal/service/service.go:682-712 | where originals are paired, nothing is found exactly when the URN has no version, and the empty list is never met |
| Documents.EmptyVersionsExactlyWhen | internal/service/service.go:712 | the out-of-range index is reached exactly when an original stands alone |
| Documents.UrnVersions | internal/service/service.go:756-829 | by the HEAD answers: the numbers ascending, then the original, each with the statistics and second HEAD reports; what is left out, and the error of the first version that fails |
| Views.UploadedDocumentShown | internal/service/service.go:575-636 | an uploaded document shows its recursive counts and the truncated warning exactly when it nests too deep, no other |
| Views.UploadedLegacyShown | internal/service/service.go:323-393 | the legacy search shows an uploaded document with its counts, by name, and its second |
| Views.UploadedVersionShown | internal/service/service.go:793-825 | so does the version list |
| Views.HistoryIsReadable | internal/service/upload.go:41-44 | whatever uploads wrote can be read by all three views |
| Views.FeedViewExact | internal/service/service.go:395-510 | a completed run has exactly one entry for each document of a canonical URN stored after the watermark, a wrapped version excepted |
| Views.WrappedInFeed | internal/service/service.go:555-573 | a wrapped version is in the run under another name: its minus sign ends up in the serial number |
| Views.LegacyViewExact | internal/service/service.go:323-361 | the legacy search shows what is stamped after the instant of the watermark: the paged documents plus those strictly inside the `after` second, until the instant wraps around |
| Views.LegacyWrapsAround | internal/store/store.go:125-143 | beyond that the legacy search shows the whole bucket and the feed nothing |
| Views.UrnViewExact | internal/service/service.go:774-829 | the versions of a URN are exactly its stored keys, each shown once |
| Views.ViewsAgree | internal/service/service.go:756-829 | a completed run and the versions of the URN enumerate the same documents after the watermark, each once, exactly when no wrapped version is among them |
| Fetching.GetByURN | internal/http/handlers.go:75-116 | 400 exactly for a bad URN or version; else 404, the document or 500, each exactly when it is due, and the panic on an empty version list |
| Fetching.CanonicalIsValid | internal/service/service.go:836-848 | the URN check accepts canonical URNs and refuses them with a `-` appended |
| Fetching.UrnValidExactly | internal/service/service.go:836-848 | a valid URN is `urn:uuid:` followed, without another colon, by what `uuid.Parse` accepts |
| Fetching.FeedEntriesAreServed | internal/service/service.go:550-553 | every entry of a run is answered with its own object when asked for as shown, exactly when it is not a wrapped version |
| Fetching.LegacyEntriesAreServed | internal/service/service.go:323-361 | the same of the legacy search |
| Fetching.UrnEntriesAreServed | internal/service/service.go:774-829 | the same of the versions of a URN |

## Left out

- AWS SDK calls, paginator, transfer manager, timeouts: a listing is a sequence of pages, HEAD and put outcomes are arbitrary inputs.
- A listing is a snapshot of the bucket; a listing that changes while its pages are read is not modelled.
- Document decoding, JSON Schema validation and encoding: a document arrives decoded, the encoder is a parameter that may fail, and accepted serial numbers follow the schemas' URN pattern.
- The JSON form of the statistics: an encoder and a decoder are parameters; round-tripping is assumed where a lemma says so.
- UUID generation: an arbitrary generator, assumed not to repeat within one upload's first |bucket| + 1 tries, where the retry loop has to end.
- `uuid.Parse`: a parameter, assumed to accept canonical UUIDs of 36 characters and no text of 37.
- Two uploads at the same time: check-then-put is not atomic in the source, and uploads are serialised here.
- Uploads.UploadBOM: oversized bodies, transport failures and validation errors end before the part modelled here.
- Feed.SearchLegacy: the entries collected before a failure, which the handler drops, are not part of the result.
- Links.ParseSearchLimit: white space around `limit` is trimmed for the ASCII characters only.
- Positions: `UnixMilli` is unbounded here; the int64 range enters where tokens are printed and parsed.
- RFC 3339 formatting of created_at, logging, problem+json bodies, routing, CORS, configuration, `health.go` and the Helm chart: they hold none of the four parts.
