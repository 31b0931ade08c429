/**
 * The thumbnail request path of HotelImagesController: a cache from image
 * name to thumbnail bytes, a request counter and a miss counter.
 *
 * The raw image store and the thumbnail generator are outside the model;
 * they are given as fixed functions. The soft-reference eviction of the
 * cache map is the separate operation Evict.
 */
module Images {
  import opened Wrappers
  import opened Bytes

  /** What reading `/images/<name>` from the bundled resources yields. */
  datatype Raw =
    | Missing                      // getResourceAsStream returned null
    | Contents(bytes: ByteString)  // the resource was read completely
    | ReadFailure                  // reading the stream threw IOException

  /** The ways a request fails: HTTP 404, or an exception that propagates. */
  datatype ImageError = NotFound | ReadError | GenerationError

  /** The raw image store, keyed by image name. */
  type Store = string -> Raw

  /** The thumbnail generator; None when decoding, scaling or encoding throws. */
  type Generator = ByteString -> Option<ByteString>

  /** The controller's mutable state: the cache map and the two counters. */
  datatype State = State(cache: map<string, ByteString>, cacheMisses: nat, totalRequests: nat)

  /** The state after one request, and what the request answers. */
  datatype Outcome = Outcome(state: State, response: Result<ByteString, ImageError>)

  const Initial: State := State(map[], 0, 0)

  /** ObjectUtils.isEmpty on the byte array read from the store. */
  predicate IsEmptyRaw(raw: Raw)
  {
    raw.Missing? || (raw.Contents? && |raw.bytes| == 0)
  }

  /** What a request would answer if nothing were cached: fetch, then generate. */
  function Uncached(name: string, store: Store, generate: Generator): (r: Result<ByteString, ImageError>)
    ensures r == Err(NotFound) <==> IsEmptyRaw(store(name))
    ensures r == Err(ReadError) <==> store(name).ReadFailure?
    ensures r.Ok? <==> store(name).Contents? && |store(name).bytes| > 0
                       && generate(store(name).bytes).Some?
    ensures r.Ok? ==> generate(store(name).bytes) == Some(r.value)
  {
    match store(name)
    case ReadFailure => Err(ReadError)
    case Missing => Err(NotFound)
    case Contents(raw) =>
      if |raw| == 0 then Err(NotFound)
      else
        match generate(raw)
        case None => Err(GenerationError)
        case Some(thumbnail) => Ok(thumbnail)
  }

  /**
   * One call of `image(name)`. The request counter goes up first; a cached
   * thumbnail is answered as is. On a miss the miss counter goes up only when
   * trace logging evaluates the miss-ratio message, the raw bytes are fetched,
   * and only a successfully generated thumbnail is stored and answered.
   */
  function ImageStep(s: State, name: string, traceEnabled: bool, store: Store, generate: Generator): (o: Outcome)
    // every request is counted exactly once
    ensures o.state.totalRequests == s.totalRequests + 1
    // a hit answers the cached bytes and touches neither the cache nor the miss counter
    ensures name in s.cache ==>
              o.response == Ok(s.cache[name]) && o.state.cache == s.cache
              && o.state.cacheMisses == s.cacheMisses
    // a miss is counted only when the trace message is evaluated
    ensures name !in s.cache ==>
              o.state.cacheMisses == s.cacheMisses + (if traceEnabled then 1 else 0)
    // a miss answers what the uncached path answers
    ensures name !in s.cache ==> o.response == Uncached(name, store, generate)
    // the cache is written exactly when a miss produced a thumbnail, and only at `name`
    ensures name !in s.cache && o.response.Ok? ==> o.state.cache == s.cache[name := o.response.value]
    ensures o.response.Err? ==> o.state.cache == s.cache
    // what is answered is what is now cached
    ensures o.response.Ok? ==> name in o.state.cache && o.state.cache[name] == o.response.value
  {
    var counted := s.(totalRequests := s.totalRequests + 1);
    if name in s.cache then
      Outcome(counted, Ok(s.cache[name]))
    else
      var traced := if traceEnabled then counted.(cacheMisses := counted.cacheMisses + 1) else counted;
      match Uncached(name, store, generate)
      case Ok(thumbnail) => Outcome(traced.(cache := traced.cache[name := thumbnail]), Ok(thumbnail))
      case Err(e) => Outcome(traced, Err(e))
  }

  /** The runtime reclaiming the softly referenced entry for `name`. */
  function EvictStep(s: State, name: string): (t: State)
    ensures name !in t.cache
    ensures forall k :: k != name ==> (k in t.cache <==> k in s.cache)
    ensures forall k :: k in t.cache ==> t.cache[k] == s.cache[k]
    ensures t.cacheMisses == s.cacheMisses && t.totalRequests == s.totalRequests
  {
    s.(cache := s.cache - {name})
  }

  /** A step of a sequential history: a request or an eviction. */
  datatype Op = ImageRequest(name: string, traceEnabled: bool) | Eviction(name: string)

  function Apply(s: State, op: Op, store: Store, generate: Generator): State
  {
    match op
    case ImageRequest(name, traceEnabled) => ImageStep(s, name, traceEnabled, store, generate).state
    case Eviction(name) => EvictStep(s, name)
  }

  /** The state after running `ops` in order from `s`. */
  function Run(s: State, ops: seq<Op>, store: Store, generate: Generator): State
    decreases |ops|
  {
    if ops == [] then s else Run(Apply(s, ops[0], store, generate), ops[1..], store, generate)
  }

  /** The number of requests in a history. */
  function Requests(ops: seq<Op>): (n: nat)
    ensures n <= |ops|
  {
    if ops == [] then 0 else (if ops[0].ImageRequest? then 1 else 0) + Requests(ops[1..])
  }

  /** Every request of a history, and nothing else, adds one to the request counter. */
  lemma {:induction false} RunCountsRequests(s: State, ops: seq<Op>, store: Store, generate: Generator)
    ensures Run(s, ops, store, generate).totalRequests == s.totalRequests + Requests(ops)
    decreases |ops|
  {
    if ops != [] {
      RunCountsRequests(Apply(s, ops[0], store, generate), ops[1..], store, generate);
    }
  }

  /** No counter ever goes down. */
  lemma {:induction false} RunCountersMonotonic(s: State, ops: seq<Op>, store: Store, generate: Generator)
    ensures s.cacheMisses <= Run(s, ops, store, generate).cacheMisses
    ensures s.totalRequests <= Run(s, ops, store, generate).totalRequests
    decreases |ops|
  {
    if ops != [] {
      RunCountersMonotonic(Apply(s, ops[0], store, generate), ops[1..], store, generate);
    }
  }

  /** Sequentially, the miss counter never overtakes the request counter. */
  lemma {:induction false} RunKeepsMissesBounded(s: State, ops: seq<Op>, store: Store, generate: Generator)
    requires s.cacheMisses <= s.totalRequests
    ensures Run(s, ops, store, generate).cacheMisses <= Run(s, ops, store, generate).totalRequests
    decreases |ops|
  {
    if ops != [] {
      RunKeepsMissesBounded(Apply(s, ops[0], store, generate), ops[1..], store, generate);
    }
  }

  /** From start-up, any history leaves at most as many misses counted as requests. */
  lemma MissesNeverExceedRequests(ops: seq<Op>, store: Store, generate: Generator)
    ensures Run(Initial, ops, store, generate).cacheMisses <= Run(Initial, ops, store, generate).totalRequests
  {
    RunKeepsMissesBounded(Initial, ops, store, generate);
  }

  /** A history that does not evict `name`. */
  predicate NoEvictionOf(ops: seq<Op>, name: string)
  {
    forall i :: 0 <= i < |ops| ==> ops[i] != Eviction(name)
  }

  /** A cached entry survives, byte for byte, every history that does not evict it. */
  lemma {:induction false} CachedEntrySurvives(s: State, ops: seq<Op>, name: string, store: Store, generate: Generator)
    requires name in s.cache
    requires NoEvictionOf(ops, name)
    ensures name in Run(s, ops, store, generate).cache
    ensures Run(s, ops, store, generate).cache[name] == s.cache[name]
    decreases |ops|
  {
    if ops != [] {
      assert ops[0] != Eviction(name);
      var t := Apply(s, ops[0], store, generate);
      assert name in t.cache && t.cache[name] == s.cache[name];
      assert NoEvictionOf(ops[1..], name) by {
        forall i | 0 <= i < |ops[1..]| ensures ops[1..][i] != Eviction(name) {
          assert ops[1..][i] == ops[i + 1];
        }
      }
      CachedEntrySurvives(t, ops[1..], name, store, generate);
    }
  }

  /**
   * Round trip: after a successful request for `name`, and any history that
   * does not evict `name`, the next request for it is a hit that answers the
   * same bytes, leaves the cache alone and counts no miss.
   */
  lemma HitAfterSuccess(s: State, name: string, traceEnabled: bool, ops: seq<Op>, later: bool,
                        store: Store, generate: Generator)
    requires ImageStep(s, name, traceEnabled, store, generate).response.Ok?
    requires NoEvictionOf(ops, name)
    ensures var first := ImageStep(s, name, traceEnabled, store, generate);
            var before := Run(first.state, ops, store, generate);
            var again := ImageStep(before, name, later, store, generate);
            name in before.cache
            && again.response == first.response
            && again.state.cache == before.cache
            && again.state.cacheMisses == before.cacheMisses
  {
    var first := ImageStep(s, name, traceEnabled, store, generate);
    CachedEntrySurvives(first.state, ops, name, store, generate);
  }

  /**
   * Every cached thumbnail is the one the generator makes from the stored raw
   * image of that name: the cache never holds a partial or failed result.
   */
  ghost predicate Consistent(s: State, store: Store, generate: Generator)
  {
    forall name :: name in s.cache ==> Uncached(name, store, generate) == Ok(s.cache[name])
  }

  /** Requests and evictions keep the cache consistent. */
  lemma {:induction false} RunKeepsConsistent(s: State, ops: seq<Op>, store: Store, generate: Generator)
    requires Consistent(s, store, generate)
    ensures Consistent(Run(s, ops, store, generate), store, generate)
    decreases |ops|
  {
    if ops != [] {
      var t := Apply(s, ops[0], store, generate);
      assert Consistent(t, store, generate);
      RunKeepsConsistent(t, ops[1..], store, generate);
    }
  }

  /**
   * The cache is invisible to clients: from a consistent state a request
   * answers exactly what the uncached fetch-and-generate path answers.
   */
  lemma CacheIsTransparent(s: State, name: string, traceEnabled: bool, store: Store, generate: Generator)
    requires Consistent(s, store, generate)
    ensures ImageStep(s, name, traceEnabled, store, generate).response == Uncached(name, store, generate)
  {
  }

  /** A name the store cannot serve is never cached, by any history from start-up. */
  lemma {:induction false} UnservableNeverCached(ops: seq<Op>, name: string, store: Store, generate: Generator)
    requires IsEmptyRaw(store(name)) || store(name).ReadFailure?
    ensures name !in Run(Initial, ops, store, generate).cache
  {
    RunKeepsConsistent(Initial, ops, store, generate);
  }

  /**
   * HotelImagesController. The cache map and the counters are fields that
   * `Image` updates in place; the raw store and the generator are fixed at
   * construction.
   */
  class HotelImagesController {
    var cache: map<string, ByteString>
    var cacheMisses: nat
    var totalRequests: nat
    const store: Store
    const generate: Generator
    /** How many times the thumbnail generator has been invoked. */
    ghost var generatorCalls: nat

    function Snapshot(): State
      reads this
    {
      State(cache, cacheMisses, totalRequests)
    }

    ghost predicate Valid()
      reads this
    {
      cacheMisses <= totalRequests && Consistent(Snapshot(), store, generate)
    }

    constructor (store: Store, generate: Generator)
      ensures Valid()
      ensures Snapshot() == Initial && generatorCalls == 0
      ensures this.store == store && this.generate == generate
    {
      cache := map[];
      cacheMisses := 0;
      totalRequests := 0;
      this.store := store;
      this.generate := generate;
      generatorCalls := 0;
    }

    /**
     * The counter side effect of getCacheMissRatio: the miss counter goes up and
     * the numerator and denominator of the (floating-point) ratio are returned.
     */
    method CacheMissRatio(requestNumber: nat) returns (misses: nat, requests: nat)
      modifies this`cacheMisses
      ensures cacheMisses == old(cacheMisses) + 1
      ensures misses == cacheMisses && requests == requestNumber
    {
      cacheMisses := cacheMisses + 1;
      misses, requests := cacheMisses, requestNumber;
    }

    /** `image(name)`; `traceEnabled` says whether the trace-level log messages are evaluated. */
    method Image(name: string, traceEnabled: bool) returns (response: Result<ByteString, ImageError>)
      requires Valid()
      modifies this
      ensures Valid()
      ensures var o := ImageStep(old(Snapshot()), name, traceEnabled, store, generate);
              Snapshot() == o.state && response == o.response
      ensures generatorCalls == old(generatorCalls) +
                (if name !in old(cache) && store(name).Contents? && |store(name).bytes| > 0 then 1 else 0)
    {
      totalRequests := totalRequests + 1;
      var requestNumber := totalRequests;
      if name in cache {
        return Ok(cache[name]);
      }
      if traceEnabled {
        var _, _ := CacheMissRatio(requestNumber);
      }
      var raw := store(name);
      if raw.ReadFailure? {
        return Err(ReadError);
      }
      if raw.Missing? || |raw.bytes| == 0 {
        return Err(NotFound);
      }
      generatorCalls := generatorCalls + 1;
      var thumbnail := generate(raw.bytes);
      if thumbnail.None? {
        return Err(GenerationError);
      }
      cache := cache[name := thumbnail.value];
      return Ok(thumbnail.value);
    }

    /** The runtime reclaiming the entry for `name`; nothing else changes. */
    method Evict(name: string)
      requires Valid()
      modifies this`cache
      ensures Valid()
      ensures Snapshot() == EvictStep(old(Snapshot()), name)
    {
      cache := cache - {name};
    }
  }
}
