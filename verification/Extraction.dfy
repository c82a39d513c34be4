/**
 Reading a document through the extraction cache and the fallback chain, compared with simply
 asking one provider. Providers are deterministic: `engine(provider, sha)` is what the named
 provider reads off the file with that hash.
 */
module Extraction {
  import opened Options
  import opened Router

  type Engine = (string, string) -> string

  datatype Document = Document(content: string, provider: string, fellBackFrom: Option<string>, durationMs: nat)

  datatype Sensitivity = Standard | Pii | Restricted

  datatype Outcome = Unavailable | ExtractionFailed | Extracted(doc: Document, cached: bool)

  // ---- cache keys ---------------------------------------------------------------------------

  function ExtractionCacheKey(sha: string, provider: string): string {
    "ocr:extract:" + sha + ":" + provider + ":" + "all"
  }

  predicate IsHash(sha: string) { ':' !in sha }

  function FirstColon(s: string): nat { if s == "" || s[0] == ':' then 0 else 1 + FirstColon(s[1..]) }

  lemma {:induction false} FirstColonAfter(a: string, rest: string)
    requires ':' !in a
    ensures FirstColon(a + ":" + rest) == |a|
  {
    if a != "" {
      assert (a + ":" + rest)[1..] == a[1..] + ":" + rest;
      FirstColonAfter(a[1..], rest);
    }
  }

  /** Different files or providers never share a key, whatever characters a provider name holds. */
  lemma CacheKeyInjective(sha: string, p: string, sha': string, p': string)
    requires IsHash(sha) && IsHash(sha')
    requires ExtractionCacheKey(sha, p) == ExtractionCacheKey(sha', p')
    ensures sha == sha' && p == p'
  {
    var prefix, suffix := "ocr:extract:", ":" + "all";
    var mid, mid' := sha + ":" + p, sha' + ":" + p';
    var k := ExtractionCacheKey(sha, p);
    assert k == prefix + mid + suffix && k == prefix + mid' + suffix;
    assert mid == k[|prefix|..|k| - |suffix|] && mid' == k[|prefix|..|k| - |suffix|];
    FirstColonAfter(sha, p);
    FirstColonAfter(sha', p');
    assert sha == mid[..|sha|] && sha' == mid'[..|sha|];
    assert p == mid[|sha| + 1..] && p' == mid'[|sha| + 1..];
  }

  // ---- the fallback chain -------------------------------------------------------------------

  /** The first provider of the chain that is up, if any. */
  function FirstUp(chain: seq<Provider>, down: set<string>): (i: nat)
    ensures i <= |chain|
    ensures i < |chain| ==> chain[i].name !in down
    ensures forall j :: 0 <= j < i ==> chain[j].name in down
  {
    if chain == [] || chain[0].name !in down then 0 else 1 + FirstUp(chain[1..], down)
  }

  /** A failing provider hands over to the next; the document says who read it and for whom. */
  method RecognizeWithFallback(
      primary: Provider, fallbacks: seq<Provider>, sha: string, engine: Engine, down: set<string>, clock: string -> nat)
    returns (doc: Option<Document>)
    ensures var chain := [primary] + fallbacks; var i := FirstUp(chain, down);
            doc == if i == |chain| then None
                   else Some(Document(engine(chain[i].name, sha), chain[i].name,
                                      if i > 0 then Some(primary.name) else None, clock(chain[i].name)))
  {
    var chain := [primary] + fallbacks;
    for i := 0 to |chain|
      invariant i <= FirstUp(chain, down)
    {
      var provider := chain[i];
      if provider.name !in down {
        var read := Document(engine(provider.name, sha), provider.name, None, clock(provider.name));
        if i > 0 { read := read.(fellBackFrom := Some(primary.name)); }
        return Some(read);
      }
    }
    return None;
  }

  // ---- the cache ----------------------------------------------------------------------------

  /** The two documents differ at most in how long they took and whom they stood in for. */
  predicate SameReading(a: Document, b: Document) { a.content == b.content && a.provider == b.provider }

  function DirectRecognition(provider: string, sha: string, engine: Engine): Document {
    Document(engine(provider, sha), provider, None, 0)
  }

  datatype Entry = Entry(doc: Document, expiresAt: int)

  class Cache {
    var entries: map<string, Entry>

    constructor ()
      ensures entries == map[] && forall engine :: Coherent(engine)
    {
      entries := map[];
    }

    /** Every entry under (sha, p) was read by p, off that file. */
    ghost predicate Coherent(engine: Engine)
      reads this
    {
      forall sha, p :: IsHash(sha) && ExtractionCacheKey(sha, p) in entries ==>
        SameReading(entries[ExtractionCacheKey(sha, p)].doc, DirectRecognition(p, sha, engine))
    }

    /** An unreachable or expired entry is a miss. */
    method Get(key: string, now: int, redisAnswers: bool) returns (doc: Option<Document>)
      ensures doc
           == if redisAnswers && key in entries && entries[key].expiresAt > now then Some(entries[key].doc) else None
    {
      if redisAnswers && key in entries && entries[key].expiresAt > now { return Some(entries[key].doc); }
      return None;
    }

    method Set(key: string, doc: Document, expiresAt: int, redisAnswers: bool)
      modifies this
      ensures entries == if redisAnswers then old(entries)[key := Entry(doc, expiresAt)] else old(entries)
    {
      if redisAnswers { entries := entries[key := Entry(doc, expiresAt)]; }
    }
  }

  predicate UsesCache(sensitivity: Sensitivity) { sensitivity.Standard? }

  /** The unexpired entry under the routed provider's key, when the cache is used and answers. */
  function CacheHit(
      entries: map<string, Entry>, chain: seq<Provider>, sensitivity: Sensitivity, sha: string, now: int,
      getAnswers: bool): Option<Document> {
    if chain == [] || !UsesCache(sensitivity) || !getAnswers then None
    else
      var key := ExtractionCacheKey(sha, chain[0].name);
      if key in entries && entries[key].expiresAt > now then Some(entries[key].doc) else None
  }

  /**
   However the cache was filled before, extraction returns a genuine reading: a hit equals what the
   routed provider would read now, and a miss is read by the first provider that is up. Sensitive
   documents neither read nor write the cache.
   */
  method ExtractDocument(registry: seq<Provider>, input: RouteInput, sensitivity: Sensitivity, sha: string,
                         engine: Engine, down: set<string>, clock: string -> nat, cache: Cache, now: int, ttl: nat,
                         getAnswers: bool, setAnswers: bool)
    returns (outcome: Outcome)
    requires IsHash(sha) && cache.Coherent(engine)
    modifies cache
    ensures cache.Coherent(engine)
    ensures outcome.Unavailable? <==> ChainOf(registry, input) == []
    ensures var chain := ChainOf(registry, input);
            var hit := CacheHit(old(cache.entries), chain, sensitivity, sha, now, getAnswers);
            && (hit.Some? ==>
                  outcome == Extracted(hit.value, true)
                  && SameReading(hit.value, DirectRecognition(chain[0].name, sha, engine)))
            && (outcome.ExtractionFailed?
                <==> chain != [] && hit.None? && forall i :: 0 <= i < |chain| ==> chain[i].name in down)
            && (outcome.Extracted? && hit.None? ==>
                  FirstUp(chain, down) < |chain| && !outcome.cached
                  && SameReading(outcome.doc, DirectRecognition(chain[FirstUp(chain, down)].name, sha, engine))
                  && outcome.doc.fellBackFrom == (if FirstUp(chain, down) > 0 then Some(chain[0].name) else None))
            && (outcome.Extracted? ==> outcome.doc.content == engine(outcome.doc.provider, sha))
            && (hit.Some? ==> sensitivity == Standard)
    ensures cache.entries ==
              if sensitivity == Standard && setAnswers && outcome.Extracted? && !outcome.cached
              then old(cache.entries)[ExtractionCacheKey(sha, outcome.doc.provider) := Entry(outcome.doc, now + ttl)]
              else old(cache.entries)
  {
    hide ChainOf;
    hide ExtractionCacheKey;
    hide IsHash;
    var route := RouteProvider(registry, input);
    if route.ProviderUnavailable? {
      return Unavailable;
    }
    ghost var chain := ChainOf(registry, input);
    assert chain == [route.provider] + route.fallbacks;
    if UsesCache(sensitivity) {
      var hit := cache.Get(ExtractionCacheKey(sha, route.provider.name), now, getAnswers);
      if hit.Some? {
        return Extracted(hit.value, true);
      }
    }
    var doc := RecognizeWithFallback(route.provider, route.fallbacks, sha, engine, down, clock);
    if doc.None? {
      return ExtractionFailed;
    }
    if UsesCache(sensitivity) {
      cache.Set(ExtractionCacheKey(sha, doc.value.provider), doc.value, now + ttl, setAnswers);
      forall sha', p | IsHash(sha') && ExtractionCacheKey(sha', p) in cache.entries
        ensures SameReading(cache.entries[ExtractionCacheKey(sha', p)].doc, DirectRecognition(p, sha', engine))
      {
        if ExtractionCacheKey(sha', p) == ExtractionCacheKey(sha, doc.value.provider) {
          CacheKeyInjective(sha', p, sha, doc.value.provider);
        }
      }
    }
    return Extracted(doc.value, false);
  }

  // ---- whole runs -----------------------------------------------------------------------------

  /** One request of a run: which function's routing, which file, who is down, what Redis does. */
  datatype Request = Request(registry: seq<Provider>, input: RouteInput, sensitivity: Sensitivity, sha: string,
                             down: set<string>, getAnswers: bool, setAnswers: bool, evicted: set<string>)

  function Lookup(entries: map<string, Document>, r: Request): Option<Document> {
    var chain := ChainOf(r.registry, r.input);
    if chain == [] || !UsesCache(r.sensitivity) || !r.getAnswers then None
    else
      var key := ExtractionCacheKey(r.sha, chain[0].name);
      if key in entries then Some(entries[key]) else None
  }

  function Answer(entries: map<string, Document>, r: Request, engine: Engine): Option<Document> {
    var chain := ChainOf(r.registry, r.input);
    var hit := Lookup(entries, r);
    if hit.Some? then hit
    else
      var i := FirstUp(chain, r.down);
      if i == |chain| then None
      else Some(Document(engine(chain[i].name, r.sha), chain[i].name, if i > 0 then Some(chain[0].name) else None, 0))
  }

  /** The cache after one request; entries may expire or be evicted at any time. */
  function CacheAfter(entries: map<string, Document>, r: Request, engine: Engine): map<string, Document> {
    var answer := Answer(entries, r, engine);
    var kept := entries - r.evicted;
    if UsesCache(r.sensitivity) && Lookup(entries, r).None? && answer.Some? && r.setAnswers
    then kept[ExtractionCacheKey(r.sha, answer.value.provider) := answer.value] else kept
  }

  function CacheAfterAll(requests: seq<Request>, engine: Engine): map<string, Document> {
    if requests == [] then map[]
    else CacheAfter(CacheAfterAll(requests[..|requests| - 1], engine), requests[|requests| - 1], engine)
  }

  ghost predicate CoherentEntries(entries: map<string, Document>, engine: Engine) {
    forall sha, p :: IsHash(sha) && ExtractionCacheKey(sha, p) in entries ==>
      SameReading(entries[ExtractionCacheKey(sha, p)], DirectRecognition(p, sha, engine))
  }

  lemma {:induction false} RunsKeepCacheCoherent(requests: seq<Request>, engine: Engine)
    requires forall i :: 0 <= i < |requests| ==> IsHash(requests[i].sha)
    ensures CoherentEntries(CacheAfterAll(requests, engine), engine)
  {
    if requests != [] {
      var init, r := requests[..|requests| - 1], requests[|requests| - 1];
      RunsKeepCacheCoherent(init, engine);
      var entries, after := CacheAfterAll(init, engine), CacheAfterAll(requests, engine);
      forall sha, p | IsHash(sha) && ExtractionCacheKey(sha, p) in after
        ensures SameReading(after[ExtractionCacheKey(sha, p)], DirectRecognition(p, sha, engine))
      {
        if ExtractionCacheKey(sha, p) !in entries
            || after[ExtractionCacheKey(sha, p)] != entries[ExtractionCacheKey(sha, p)] {
          CacheKeyInjective(sha, p, r.sha, Answer(entries, r, engine).value.provider);
        }
      }
    }
  }

  /**
   Over any run of requests of any functions, with outages, evictions and a flaky Redis, every
   answer is what the provider named in it would read directly, and while the routed provider is
   up it is always that provider's reading, cached or not.
   */
  lemma {:induction false} CachedExtractionIsDirectRecognition(requests: seq<Request>, r: Request, engine: Engine)
    requires IsHash(r.sha) && forall i :: 0 <= i < |requests| ==> IsHash(requests[i].sha)
    ensures var answer, chain := Answer(CacheAfterAll(requests, engine), r, engine), ChainOf(r.registry, r.input);
            && (answer.Some? ==> answer.value.content == engine(answer.value.provider, r.sha))
            && (chain != [] && chain[0].name !in r.down ==>
                  answer.Some? && answer.value.provider == chain[0].name
                  && answer.value.content == engine(chain[0].name, r.sha))
            && (Lookup(CacheAfterAll(requests, engine), r).Some? ==>
                  answer.Some? && SameReading(answer.value, DirectRecognition(chain[0].name, r.sha, engine)))
  {
    RunsKeepCacheCoherent(requests, engine);
  }

  /**
   What was read is remembered: after a standard request that the routed provider could serve, the next one
   for the same file and provider gets the same document, whoever is down by then, unless it was evicted.
   */
  lemma ReadIsRemembered(requests: seq<Request>, r: Request, next: Request, engine: Engine)
    requires var chain, chain' := ChainOf(r.registry, r.input), ChainOf(next.registry, next.input);
      && chain != [] && chain' != [] && chain[0].name == chain'[0].name && chain[0].name !in r.down
      && ExtractionCacheKey(r.sha, chain[0].name) !in r.evicted
    requires r.sensitivity == Standard && r.setAnswers
    requires next.sensitivity == Standard && next.getAnswers && next.sha == r.sha
    ensures Answer(CacheAfterAll(requests, engine), r, engine).Some?
    ensures Answer(CacheAfterAll(requests + [r], engine), next, engine)
         == Answer(CacheAfterAll(requests, engine), r, engine)
  {
    assert (requests + [r])[..|requests|] == requests;
    hide ChainOf;
    hide ExtractionCacheKey;
    var entries := CacheAfterAll(requests, engine);
    var kept := entries - r.evicted;
    assert CacheAfterAll(requests + [r], engine) == CacheAfter(entries, r, engine);
  }

  predicate FirstNotDown(chain: seq<Provider>, down: set<string>, i: int) {
    0 <= i < |chain| && chain[i].name !in down && forall j :: 0 <= j < i ==> chain[j].name in down
  }

  /** A sensitive request is read directly, by the first provider that is up, and leaves nothing in the cache. */
  lemma SensitiveLeavesNoTrace(requests: seq<Request>, r: Request, engine: Engine)
    requires r.sensitivity != Standard
    ensures CacheAfterAll(requests + [r], engine) == CacheAfterAll(requests, engine) - r.evicted
    ensures var chain := ChainOf(r.registry, r.input);
            var answer := Answer(CacheAfterAll(requests, engine), r, engine);
            && (answer.None? <==> forall i :: 0 <= i < |chain| ==> chain[i].name in r.down)
            && forall i :: FirstNotDown(chain, r.down, i) ==>
                 answer == Some(Document(engine(chain[i].name, r.sha), chain[i].name,
                                         if i > 0 then Some(chain[0].name) else None, 0))
  {
    assert (requests + [r])[..|requests|] == requests;
    hide ChainOf;
  }

  /** Only what a standard request read and could store gets in; what is evicted is gone. */
  lemma StoredOnlyWhatWasRead(requests: seq<Request>, r: Request, engine: Engine, key: string)
    requires key in CacheAfterAll(requests + [r], engine)
    ensures var before, after := CacheAfterAll(requests, engine), CacheAfterAll(requests + [r], engine);
            || (key in before && key !in r.evicted && after[key] == before[key])
            || (r.sensitivity == Standard && r.setAnswers && Answer(before, r, engine) == Some(after[key])
                && key == ExtractionCacheKey(r.sha, after[key].provider))
  {
    assert (requests + [r])[..|requests|] == requests;
    hide ChainOf;
    hide ExtractionCacheKey;
  }
}
