# Little Treasures: thumbnail cache, hotel index and hotel summary in Dafny

This project models three pieces of the Little Treasures hotel service and
proves properties about them.

- **The thumbnail request path** (`HotelImagesController.image`). A request for
  an image name first adds one to the request counter. Next it looks in the
  thumbnail cache. A hit answers the cached bytes. On a miss, four things
  happen in order:
  1. the miss counter goes up, but only when trace logging evaluates the
     miss-ratio message;
  2. the raw image is read from the bundled resources;
  3. a missing or empty raw image gives 404;
  4. the generated thumbnail is stored in the cache and then answered.

  `images.dfy` models this twice. `ImageStep` is a pure step function over the
  cache map and the two counters. The class `HotelImagesController` has those
  three as fields, and its `Image` method updates them in place. The method is
  proved to agree with `ImageStep`. The lemmas are about histories of requests
  and evictions (`Run`).
- **The hotel index** (`HotelsService`). It starts with a version check. Then
  one loop puts every hotel into a case-insensitive name map, where the last
  write wins. A second loop appends every hotel to the list for its
  lower-cased geographic order. `hotels.dfy` turns each loop into a method
  with loop invariants. These methods are proved against two filters over the
  hotel list: `LastNamed` and `WithGeographicOrder`. The lookups are specified
  by the same two filters.
- **The summary projection** (`HotelSummary.get`). It capitalizes the name,
  joins the architects with `" | "` and turns the image name into a link under
  `http://localhost:8080/images/`. It copies the address and the geographic
  order unchanged. A field that is absent in the hotel stays absent in the
  summary. This is in `summary.dfy`. `uri.dfy` defines the path encoding the
  link uses: UTF-8 (RFC 3629), then percent-encoding (section 2.1 of RFC 3986)
  of every byte outside `pchar` and "/" (section 3.3 of RFC 3986).

Shared pieces: `wrappers.dfy` (Option, Result), `bytes.dfy` (the byte type),
`ascii.dfy` (case folding), `data.dfy` (the `Hotel` record; Java's nullable
fields become `Option`).

The image store and the thumbnail generator are not modelled. They are
parameters: the store is a function from a name to `Missing`, `Contents(bytes)`
or `ReadFailure`, and the generator is a function from raw bytes to an optional
thumbnail. `traceEnabled` stands for the log level at which
`logger.trace(LogMessage.of(...))` runs its supplier.

Two details of the code that the model keeps:
- The miss counter does not go up on every miss. It goes up only inside
  `getCacheMissRatio`, which runs only when the lazy trace message is built
  (HotelImagesController.java:72-89).
- Undecodable bytes are a generator failure: `ImageIO.read` returns null and
  the next call throws NullPointerException. The model calls every generator
  failure `GenerationError`.

## Model

| member | source | states |
|---|---|---|
| Images.Uncached | src/main/java/com/example/littletreasures/web/HotelImagesController.java:74-80 | What the uncached path answers. Absent or empty raw bytes give NotFound. A read exception gives ReadError. The answer is a thumbnail exactly when the raw bytes are non-empty and the generator succeeds on them. |
| Images.ImageStep | src/main/java/com/example/littletreasures/web/HotelImagesController.java:64-81 | Every request adds exactly 1 to totalRequests. A hit answers the cached bytes and leaves the cache and cacheMisses alone. A miss adds 1 to cacheMisses exactly when trace is enabled, and answers what the uncached path answers. On a failure the cache does not change. On a successful miss the cache changes only at `name`, and the answered bytes are the stored bytes. |
| Images.EvictStep | src/main/java/com/example/littletreasures/web/HotelImagesController.java:55 | A soft-reference eviction removes only `name` and leaves the other entries and both counters unchanged. |
| Images.RunCountsRequests | src/main/java/com/example/littletreasures/web/HotelImagesController.java:65 | After any history, totalRequests has grown by exactly the number of requests in it. Evictions do not count. |
| Images.RunCountersMonotonic | src/main/java/com/example/littletreasures/web/HotelImagesController.java:64-90 | Neither counter ever decreases. |
| Images.RunKeepsMissesBounded | src/main/java/com/example/littletreasures/web/HotelImagesController.java:72-89 | When cacheMisses <= totalRequests holds before a history, it also holds after it. |
| Images.MissesNeverExceedRequests | src/main/java/com/example/littletreasures/web/HotelImagesController.java:59-61 | From the initial zero counters and empty cache, every sequential history keeps cacheMisses <= totalRequests. |
| Images.CachedEntrySurvives | src/main/java/com/example/littletreasures/web/HotelImagesController.java:66-79 | A cached entry survives, byte for byte, every history that does not evict its name. |
| Images.HitAfterSuccess | src/main/java/com/example/littletreasures/web/HotelImagesController.java:66-79 | Take a successful request for `name`, then any history that does not evict `name`. The next request for `name` is a hit. It answers byte-identical bytes, leaves the cache unchanged and counts no miss. |
| Images.RunKeepsConsistent | src/main/java/com/example/littletreasures/web/HotelImagesController.java:75-79 | Every cached thumbnail is what the generator makes from the non-empty raw image of that name. Requests and evictions keep this true, so no partial or failed result is ever cached. |
| Images.CacheIsTransparent | src/main/java/com/example/littletreasures/web/HotelImagesController.java:66-80 | From a consistent cache, a request answers exactly what the uncached fetch-and-generate path answers. |
| Images.UnservableNeverCached | src/main/java/com/example/littletreasures/web/HotelImagesController.java:74-77 | A name whose raw image is absent, empty or unreadable is never cached, after any history from start-up. |
| Images.HotelImagesController.constructor | src/main/java/com/example/littletreasures/web/HotelImagesController.java:55-61 | A new controller has an empty cache and both counters at 0. |
| Images.HotelImagesController.CacheMissRatio | src/main/java/com/example/littletreasures/web/HotelImagesController.java:87-90 | Adds exactly 1 to cacheMisses. Returns the new miss count and the request number given, which are the numerator and denominator of the ratio. |
| Images.HotelImagesController.Image | src/main/java/com/example/littletreasures/web/HotelImagesController.java:64-81 | The fields after the call and the answer equal those of ImageStep applied to the fields before. The invariant (cacheMisses <= totalRequests, consistent cache) is kept. The generator runs once on a miss with non-empty raw bytes, and never on a hit. |
| Images.HotelImagesController.Evict | src/main/java/com/example/littletreasures/web/HotelImagesController.java:55 | Removes only the entry for `name`, as EvictStep does, and keeps the invariant. |
| Hotels.LastNamed | src/main/java/com/example/littletreasures/service/HotelsService.java:47-49 | The result is absent exactly when no hotel has the folded name. Otherwise it is a hotel with that name, and no later hotel in the list has it. |
| Hotels.WithGeographicOrder | src/main/java/com/example/littletreasures/service/HotelsService.java:50-51 | A hotel is in the result exactly when it is in the list and its lower-cased geographic order is the key. The result is never longer than the list. |
| Hotels.LastNamedSnoc | src/main/java/com/example/littletreasures/service/HotelsService.java:49 | Putting one more hotel replaces the entry for its folded name, and no other entry. |
| Hotels.WithGeographicOrderSnoc | src/main/java/com/example/littletreasures/service/HotelsService.java:51 | Adding one more hotel appends it to the list for its geographic order, and to no other list. |
| Hotels.LastNamedIsLastMatch | src/main/java/com/example/littletreasures/service/HotelsService.java:49 | Of several hotels whose names are equal ignoring case, the name index keeps the last in the list. |
| Hotels.WithGeographicOrderAppend | src/main/java/com/example/littletreasures/service/HotelsService.java:51 | Filtering a concatenation gives the concatenation of the filters, so the grouping keeps input order. |
| Hotels.AllInGeographicOrder | src/main/java/com/example/littletreasures/service/HotelsService.java:51 | When every hotel is of the queried geographic order, the grouping gives back the whole list, in order. |
| Hotels.HotelsService.IndexByName | src/main/java/com/example/littletreasures/service/HotelsService.java:47-49 | The put loop fails with NullPointer exactly when some hotel has no name. Otherwise, for every key, the map built agrees with LastNamed over the whole list. |
| Hotels.HotelsService.IndexByGeographicOrder | src/main/java/com/example/littletreasures/service/HotelsService.java:50-51 | The add loop fails with NullPointer exactly when some hotel has no geographic order. Otherwise, for every key, the list built (empty when the key is absent) equals WithGeographicOrder over the whole list. |
| Hotels.HotelsService.Create | src/main/java/com/example/littletreasures/service/HotelsService.java:45-59 | A file version other than 1 is exactly the UnsupportedVersion error. With version 1, construction succeeds exactly when every hotel has a name and a geographic order. A new service keeps both indexes in agreement with the list. Its getAll is the input hotel list, in order and at full length. |
| Hotels.HotelsService.GetAll | src/main/java/com/example/littletreasures/service/HotelsService.java:57-59 | Every hotel getAll returns has a name and a geographic order. Together with Create's ensures, getAll is the input hotel list, in order and at full length. |
| Hotels.HotelsService.FindByName | src/main/java/com/example/littletreasures/service/HotelsService.java:61-64 | Null or "" gives an argument error, and every other query does not. Otherwise the result is LastNamed of the lower-cased query over all hotels. |
| Hotels.HotelsService.FindByGeographicOrder | src/main/java/com/example/littletreasures/service/HotelsService.java:66-69 | Null or "" gives an argument error, and every other query does not. Otherwise the result is WithGeographicOrder of the lower-cased query over all hotels. |
| Hotels.FindByNameIgnoresCase | src/main/java/com/example/littletreasures/service/HotelsService.java:63 | Two queries that are equal ignoring case find the same hotel. |
| Hotels.FoundHotelMatches | src/main/java/com/example/littletreasures/service/HotelsService.java:63 | A hotel that findByName finds is in getAll, and its name equals the query ignoring case. |
| Hotels.NotFoundMeansNoMatch | src/main/java/com/example/littletreasures/service/HotelsService.java:63 | findByName finds nothing exactly when no hotel's name equals the query ignoring case. |
| Hotels.GeographicOrderExact | src/main/java/com/example/littletreasures/service/HotelsService.java:68 | A hotel is in findByGeographicOrder's result exactly when it is in getAll and its geographic order equals the query ignoring case. |
| Hotels.SampleHotels | src/test/java/com/example/littletreasures/service/HotelsServiceTests.java:108-116 | The five sample hotels, built field for field as the tests build them (name, address, opening year, operator, theme, geographic order), all have a name and a geographic order. |
| Hotels.SampleNameLookups | src/test/java/com/example/littletreasures/service/HotelsServiceTests.java:71-83 | In the sample, "n3" and "N3" both find the third hotel, and "missing" finds none. |
| Hotels.SampleGeographicOrderFound | src/test/java/com/example/littletreasures/service/HotelsServiceTests.java:92-101 | In the sample, "east" and "EAsT" both give exactly the fourth and fifth hotels, in that order. |
| Hotels.SampleGeographicOrderMissing | src/test/java/com/example/littletreasures/service/HotelsServiceTests.java:104-106 | In the sample, "north" gives the empty list. |
| Ascii.ToLower | src/main/java/com/example/littletreasures/service/HotelsService.java:51 | Lower-casing keeps the length. Each upper-case letter becomes its lower-case letter, 32 code points up. Every other character stays in place. |
| Ascii.Capitalize | src/main/java/com/example/littletreasures/web/HotelSummary.java:94 | Capitalizing keeps the length and the tail. The first character is no longer lower case. The result equals the input ignoring case. |
| Ascii.CapitalizeIdempotent | src/main/java/com/example/littletreasures/web/HotelSummary.java:94 | Capitalizing twice gives the same result as capitalizing once. |
| UriEncoding.PercentEncode | src/main/java/com/example/littletreasures/web/HotelSummary.java:97 | The encoding contains only path characters and '%'. It is between one and three times as long as the bytes. |
| UriEncoding.PercentRoundTrip | src/main/java/com/example/littletreasures/web/HotelSummary.java:97 | Percent-decoding inverts percent-encoding. |
| UriEncoding.Utf8RoundTrip | src/main/java/com/example/littletreasures/web/HotelSummary.java:97 | UTF-8 decoding inverts UTF-8 encoding. |
| UriEncoding.DecodeScalarInverts | src/main/java/com/example/littletreasures/web/HotelSummary.java:97 | The scalar value at the front of an encoding is decoded back, with its byte count. |
| UriEncoding.EncodePath | src/main/java/com/example/littletreasures/web/HotelSummary.java:97 | The encoded path decodes back to the original string, through its UTF-8 bytes. It contains only path characters and '%'. |
| UriEncoding.EncodePathKeepsAllowed | src/main/java/com/example/littletreasures/web/HotelSummary.java:97 | A name made only of path characters is returned unchanged. |
| UriEncoding.PercentEncodeGrows | src/main/java/com/example/littletreasures/web/HotelSummary.java:97 | A byte outside the path characters makes the encoding at least two characters longer than the bytes. |
| UriEncoding.Utf8KeepsDisallowed | src/main/java/com/example/littletreasures/web/HotelSummary.java:97 | A character outside the path characters leaves a byte outside them in its UTF-8 encoding. |
| UriEncoding.EncodePathChangesDisallowed | src/main/java/com/example/littletreasures/web/HotelSummary.java:97 | A name with any other character, '%' included, comes out changed, because the encoding is longer than the name. |
| Summaries.Join | src/main/java/com/example/littletreasures/web/HotelSummary.java:100-102 | The empty list joins to "", a single element joins to itself, and the join starts with the first element. |
| Summaries.JoinSnoc | src/main/java/com/example/littletreasures/web/HotelSummary.java:100-102 | Appending an element appends the delimiter and then that element. This is the StringBuilder form of the join. |
| Summaries.JoinLength | src/main/java/com/example/littletreasures/web/HotelSummary.java:100-102 | The join is as long as all the elements together plus one delimiter between each pair of neighbours. |
| Summaries.ImageUrl | src/main/java/com/example/littletreasures/web/HotelSummary.java:96-99 | The link starts with "http://localhost:8080/images/", and the rest decodes back to the image name. |
| Summaries.PlainImageUrl | src/main/java/com/example/littletreasures/web/HotelSummary.java:96-99 | An image name made only of path characters is appended to the prefix as it is. |
| Summaries.Get | src/main/java/com/example/littletreasures/web/HotelSummary.java:88-105 | Null maps to null, and each field is present exactly when the hotel's is. The name keeps its length and its tail, equals the original ignoring case, and its first letter is not lower case. Address and geographic order are copied verbatim. The image becomes the encoded link. The architects are joined in order with " \| ". |
| Summaries.GetIgnoresOtherFields | src/main/java/com/example/littletreasures/web/HotelSummary.java:38-46 | Rooms, opening year, operator and theme never affect the summary. |
| Summaries.GetKeepsAbsentFields | src/test/java/com/example/littletreasures/web/HotelSummaryJsonTests.java:56-63 | A hotel without an address, image or architects gives a summary without them. |

## Left out

- `createThumbnail` and `simulateSlowOperation` (HotelImagesController.java:92-110) are ImageIO decoding, AWT scaling, JPEG encoding and a one-second `Thread.sleep`. They are foreign calls. The generator is a function parameter that may fail, so the model says nothing about 200×200 or JPEG, and nothing about the delay.
- Reading `/images/<name>` from the classpath is also a parameter, the store. It is fixed for the life of the controller.
- Images.RunKeepsConsistent: the generator is a deterministic function of the raw bytes, including whether it fails. `ImageIO.read` can also fail for reasons outside the bytes, such as its disk cache. So the consistency invariant and `Images.CacheIsTransparent` hold only for a fixed store and a deterministic generator.
- Concurrency: the thread safety of `AtomicInteger` and `ConcurrentReferenceHashMap`, and concurrent misses on one key, where the last write wins. Only sequential histories are modelled. Reclamation of soft references is an explicit `Evict` step.
- The floating-point miss ratio (HotelImagesController.java:89) and all logging, including `getImageUrl` (83-85). Only the counter side effect of `getCacheMissRatio` is kept.
- Images.HotelImagesController.Image: the counters are unbounded naturals. The 32-bit `AtomicInteger` wrap after 2^31-1 requests is not modelled, so `cacheMisses <= totalRequests` is proved only for the unbounded counters.
- Ascii.ToLower: folds only ASCII letters. Locale-sensitive `toLowerCase` and the folding of `LinkedCaseInsensitiveMap` for other letters are not modelled.
- Ascii.Capitalize: upper-cases only ASCII letters. `Character.toUpperCase` also changes other letters.
- Summaries.Join: an architects list is a sequence of strings and cannot hold a null element. Java would print such an element as "null".
- UriEncoding.EncodePath: a Dafny string holds Unicode scalar values, so there are no unpaired UTF-16 surrogates. Java would encode those as '?'.
- JSON rendering of the summary (Jackson's upper-camel-case names and dropping of null fields). The five optional fields model which keys appear, but not the JSON text.
- A null hotel list in the properties, which makes the Java constructor throw: the model's list is always present.
- Aliasing is not modelled (HotelsService.java:52): `unmodifiableList(hotels)` is a view, so a later change to the bound list would show through `getAll` but not through the indexes. The model copies the list as a value.
- `HotelsController` and its tests (route wiring and the 404 mapping), `StartupTests`, and the tests of Spring library examples. They have no logic of this repository to model.
