/** Which provider reads a document, and in which order the others stand in for it. */
module Router {
  import opened Options
  import opened Lists

  datatype MimeGroup = Pdf | Image | Docx | Text

  datatype Capability = TextLayer | Layout | Tables | Handwriting | Seals

  datatype Provider = Provider(name: string, accepts: set<MimeGroup>, capabilities: set<Capability>)

  datatype Chain = Chain(primary: string, fallbacks: seq<string>)

  datatype Override = Override(image: Option<Chain>, scannedPdf: Option<Chain>)

  datatype Policy = Policy(image: Chain, scannedPdf: Chain, overrides: map<string, Override>)

  datatype RouteInput =
    RouteInput(group: MimeGroup, required: seq<Capability>, preferred: seq<Capability>, fn: string, policy: Policy)

  datatype Route = ProviderUnavailable | Routed(provider: Provider, fallbacks: seq<Provider>)

  function PolicyForFunction(policy: Policy, fn: string): Policy {
    if fn !in policy.overrides then policy
    else
      var o := policy.overrides[fn];
      Policy(if o.image.Some? then o.image.value else policy.image,
             if o.scannedPdf.Some? then o.scannedPdf.value else policy.scannedPdf, policy.overrides)
  }

  predicate Satisfies(p: Provider, group: MimeGroup, required: seq<Capability>) {
    group in p.accepts && forall c :: c in required ==> c in p.capabilities
  }

  predicate Covers(p: Provider, preferred: seq<Capability>) { forall c :: c in preferred ==> c in p.capabilities }

  function PreferenceOrder(input: RouteInput, policy: Policy): seq<string> {
    match input.group
    case Docx => ["mammoth"]
    case Text => ["plain-text"]
    case Image => [policy.image.primary] + policy.image.fallbacks
    case Pdf =>
      var scanned := [policy.scannedPdf.primary] + policy.scannedPdf.fallbacks;
      if forall c :: c in input.required + input.preferred ==> c == TextLayer then ["pdf-text"] + scanned else scanned
  }

  /** The registry keyed by name: of two providers with one name the later one is found. */
  function ByName(registry: seq<Provider>, name: string): Option<Provider> {
    if registry == [] then None
    else if registry[|registry| - 1].name == name then Some(registry[|registry| - 1])
    else ByName(registry[..|registry| - 1], name)
  }

  function Resolve(registry: seq<Provider>, names: seq<string>): seq<Option<Provider>> {
    if names == [] then [] else Resolve(registry, names[..|names| - 1]) + [ByName(registry, names[|names| - 1])]
  }

  function Somes(registry: seq<Provider>): seq<Option<Provider>> {
    if registry == [] then [] else Somes(registry[..|registry| - 1]) + [Some(registry[|registry| - 1])]
  }

  /** Everything the router considers, in order: the policy's names, then the whole registry. */
  function Candidates(registry: seq<Provider>, input: RouteInput): seq<Option<Provider>> {
    Resolve(registry, PreferenceOrder(input, PolicyForFunction(input.policy, input.fn))) + Somes(registry)
  }

  predicate Eligible(c: Option<Provider>, input: RouteInput) {
    c.Some? && Satisfies(c.value, input.group, input.required)
  }

  predicate Named(ps: seq<Provider>, name: string) { exists i :: 0 <= i < |ps| && ps[i].name == name }

  function Push(ordered: seq<Provider>, c: Option<Provider>, input: RouteInput): seq<Provider> {
    if Eligible(c, input) && !Named(ordered, c.value.name) then ordered + [c.value] else ordered
  }

  function PushAll(candidates: seq<Option<Provider>>, input: RouteInput): seq<Provider> {
    if candidates == [] then []
    else Push(PushAll(candidates[..|candidates| - 1], input), candidates[|candidates| - 1], input)
  }

  /** Providers that cover every preferred capability move up; nothing else changes place. */
  function Ranked(ordered: seq<Provider>, preferred: seq<Capability>): seq<Provider> {
    if preferred == [] then ordered
    else Filter(ordered, p => Covers(p, preferred)) + Filter(ordered, p => !Covers(p, preferred))
  }

  function ChainOf(registry: seq<Provider>, input: RouteInput): seq<Provider> {
    Ranked(PushAll(Candidates(registry, input), input), input.preferred)
  }

  ghost predicate SeenAre(seen: set<string>, ordered: seq<Provider>) {
    forall name :: name in seen <==> Named(ordered, name)
  }

  method PushInto(ordered: seq<Provider>, seen: set<string>, p: Option<Provider>, input: RouteInput)
    returns (ordered': seq<Provider>, seen': set<string>)
    requires SeenAre(seen, ordered)
    ensures ordered' == Push(ordered, p, input) && SeenAre(seen', ordered')
  {
    if p.Some? && Satisfies(p.value, input.group, input.required) && p.value.name !in seen {
      NamedMore(ordered, p.value);
      return ordered + [p.value], seen + {p.value.name};
    }
    return ordered, seen;
  }

  lemma PushSnoc(candidates: seq<Option<Provider>>, c: Option<Provider>, input: RouteInput)
    ensures PushAll(candidates + [c], input) == Push(PushAll(candidates, input), c, input)
  {
    assert (candidates + [c])[..|candidates|] == candidates;
  }

  method RouteProvider(registry: seq<Provider>, input: RouteInput) returns (route: Route)
    ensures var chain := ChainOf(registry, input);
            route == if chain == [] then ProviderUnavailable else Routed(chain[0], chain[1..])
  {
    var order := PreferenceOrder(input, PolicyForFunction(input.policy, input.fn));
    var ordered: seq<Provider>, seen: set<string> := [], {};
    for i := 0 to |order|
      invariant ordered == PushAll(Resolve(registry, order[..i]), input) && SeenAre(seen, ordered)
    {
      assert order[..i + 1][..i] == order[..i];
      PushSnoc(Resolve(registry, order[..i]), ByName(registry, order[i]), input);
      ordered, seen := PushInto(ordered, seen, ByName(registry, order[i]), input);
    }
    assert order[..|order|] == order;
    ghost var preferred := Resolve(registry, order);
    assert preferred + Somes(registry[..0]) == preferred;
    for i := 0 to |registry|
      invariant ordered == PushAll(preferred + Somes(registry[..i]), input) && SeenAre(seen, ordered)
    {
      assert registry[..i + 1][..i] == registry[..i];
      assert preferred + Somes(registry[..i + 1]) == preferred + Somes(registry[..i]) + [Some(registry[i])];
      PushSnoc(preferred + Somes(registry[..i]), Some(registry[i]), input);
      ordered, seen := PushInto(ordered, seen, Some(registry[i]), input);
    }
    assert registry[..|registry|] == registry;
    var ranked := Ranked(ordered, input.preferred);
    if ranked == [] {
      return ProviderUnavailable;
    }
    return Routed(ranked[0], ranked[1..]);
  }

  lemma NamedMore(ps: seq<Provider>, p: Provider)
    ensures forall name :: Named(ps + [p], name) <==> Named(ps, name) || name == p.name
  {
    forall name ensures Named(ps + [p], name) <==> Named(ps, name) || name == p.name {
      assert (ps + [p])[|ps|] == p;
      if Named(ps, name) {
        var i :| 0 <= i < |ps| && ps[i].name == name;
        assert (ps + [p])[i].name == name;
      }
    }
  }

  // ---- what the chain contains ------------------------------------------------------------

  predicate DistinctNames(ps: seq<Provider>) { forall i, j :: 0 <= i < j < |ps| ==> ps[i].name != ps[j].name }

  /** The first candidate with this name that can serve the request. */
  predicate FirstEligible(candidates: seq<Option<Provider>>, input: RouteInput, k: nat) {
    k < |candidates| && Eligible(candidates[k], input) &&
    forall j :: 0 <= j < k && Eligible(candidates[j], input) ==> candidates[j].value.name != candidates[k].value.name
  }

  lemma FirstEligiblePrefix(candidates: seq<Option<Provider>>, input: RouteInput, n: nat, k: nat)
    requires k < n <= |candidates|
    ensures FirstEligible(candidates, input, k) == FirstEligible(candidates[..n], input, k)
  {
    forall j | 0 <= j <= k ensures candidates[..n][j] == candidates[j] {}
  }

  /** Pushing keeps exactly the first eligible candidate of each name, in candidate order. */
  lemma {:induction false} PushedAreFirstEligible(candidates: seq<Option<Provider>>, input: RouteInput)
    returns (at: seq<nat>)
    ensures var ordered := PushAll(candidates, input);
            && |at| == |ordered|
            && (forall i :: 0 <= i < |at| ==>
                FirstEligible(candidates, input, at[i]) && candidates[at[i]] == Some(ordered[i]))
            && (forall i, j :: 0 <= i < j < |at| ==> at[i] < at[j])
            && (forall k :: FirstEligible(candidates, input, k) ==> k in at)
    ensures forall c :: c in candidates && Eligible(c, input) ==> Named(PushAll(candidates, input), c.value.name)
  {
    if candidates == [] {
      at := [];
    } else {
      var n := |candidates| - 1;
      var init, c := candidates[..n], candidates[n];
      var before := PushAll(init, input);
      at := PushedAreFirstEligible(init, input);
      forall k | 0 <= k < n ensures FirstEligible(candidates, input, k) == FirstEligible(init, input, k) {
        FirstEligiblePrefix(candidates, input, n, k);
      }
      if Eligible(c, input) { LastIsFirstEligible(candidates, input, at); }
      if Eligible(c, input) && !Named(before, c.value.name) {
        NamedMore(before, c.value);
        at := at + [n];
      }
      assert candidates == init + [c];
    }
  }

  lemma LastIsFirstEligible(candidates: seq<Option<Provider>>, input: RouteInput, at: seq<nat>)
    requires candidates != [] && Eligible(candidates[|candidates| - 1], input)
    requires var init := candidates[..|candidates| - 1]; var before := PushAll(init, input);
             && |at| == |before|
             && (forall i :: 0 <= i < |at| ==> FirstEligible(init, input, at[i]) && init[at[i]] == Some(before[i]))
             && (forall c :: c in init && Eligible(c, input) ==> Named(before, c.value.name))
    ensures FirstEligible(candidates, input, |candidates| - 1)
            <==> !Named(PushAll(candidates[..|candidates| - 1], input), candidates[|candidates| - 1].value.name)
  {
    var n := |candidates| - 1;
    var init, c := candidates[..n], candidates[n];
    var before := PushAll(init, input);
    if Named(before, c.value.name) {
      var i :| 0 <= i < |before| && before[i].name == c.value.name;
      assert candidates[at[i]] == init[at[i]];
    } else {
      forall j | 0 <= j < n && Eligible(candidates[j], input) ensures candidates[j].value.name != c.value.name {
        assert init[j] in init;
      }
    }
  }

  lemma OrderedNamesDistinct(registry: seq<Provider>, input: RouteInput)
    ensures DistinctNames(PushAll(Candidates(registry, input), input))
  {
    var cs := Candidates(registry, input);
    var at := PushedAreFirstEligible(cs, input);
    var ordered := PushAll(cs, input);
    forall i, j | 0 <= i < j < |ordered| ensures ordered[i].name != ordered[j].name {
      assert FirstEligible(cs, input, at[i]) && FirstEligible(cs, input, at[j]) && at[i] < at[j];
    }
  }

  lemma {:induction false} ByNameFinds(registry: seq<Provider>, name: string)
    ensures ByName(registry, name).Some? ==>
          ByName(registry, name).value in registry && ByName(registry, name).value.name == name
    ensures ByName(registry, name).None? ==> !Named(registry, name)
  {
    if registry != [] { ByNameFinds(registry[..|registry| - 1], name); }
  }

  lemma {:induction false} CandidatesAreRegistered(registry: seq<Provider>, names: seq<string>)
    ensures forall c :: c in Resolve(registry, names) && c.Some? ==> c.value in registry
  {
    if names != [] {
      CandidatesAreRegistered(registry, names[..|names| - 1]);
      ByNameFinds(registry, names[|names| - 1]);
    }
  }

  lemma {:induction false} SomesElements(registry: seq<Provider>)
    ensures forall p :: p in registry <==> Some(p) in Somes(registry)
    ensures None !in Somes(registry)
  {
    if registry != [] {
      SomesElements(registry[..|registry| - 1]);
      assert registry == registry[..|registry| - 1] + [registry[|registry| - 1]];
    }
  }

  lemma RankedElements(ordered: seq<Provider>, preferred: seq<Capability>)
    ensures forall p :: p in Ranked(ordered, preferred) <==> p in ordered
    ensures multiset(Ranked(ordered, preferred)) == multiset(ordered)
  {
    if preferred != [] {
      FilterElements(ordered, p => Covers(p, preferred));
      FilterElements(ordered, p => !Covers(p, preferred));
      forall p ensures multiset(Ranked(ordered, preferred))[p] == multiset(ordered)[p] {
        FilterCounts(ordered, (p: Provider) => Covers(p, preferred), p);
        FilterCounts(ordered, (p: Provider) => !Covers(p, preferred), p);
      }
    }
  }

  /** The chain names exactly the registered providers that can serve the request. */
  lemma ChainIsExactlyTheSatisfying(registry: seq<Provider>, input: RouteInput)
    ensures forall p :: p in ChainOf(registry, input) ==> p in registry && Satisfies(p, input.group, input.required)
    ensures forall p :: p in registry && Satisfies(p, input.group, input.required) ==>
              Named(ChainOf(registry, input), p.name)
    ensures ChainOf(registry, input) == [] <==> forall p :: p in registry ==> !Satisfies(p, input.group, input.required)
  {
    var cs := Candidates(registry, input);
    var at := PushedAreFirstEligible(cs, input);
    var ordered := PushAll(cs, input);
    CandidatesAreRegistered(registry, PreferenceOrder(input, PolicyForFunction(input.policy, input.fn)));
    SomesElements(registry);
    RankedElements(ordered, input.preferred);
    forall p | p in ordered ensures p in registry && Satisfies(p, input.group, input.required) {
      var i :| 0 <= i < |ordered| && ordered[i] == p;
      assert cs[at[i]] in cs;
    }
    forall p | p in registry && Satisfies(p, input.group, input.required)
      ensures Named(ChainOf(registry, input), p.name)
    {
      assert Some(p) in cs && Eligible(Some(p), input);
      var i :| 0 <= i < |ordered| && ordered[i].name == p.name;
      assert ordered[i] in ChainOf(registry, input);
    }
    if ChainOf(registry, input) != [] { assert ChainOf(registry, input)[0] in ChainOf(registry, input); }
  }

  /** With distinct provider names the chain is exactly the set of satisfying providers. */
  lemma ChainOfDistinctRegistry(registry: seq<Provider>, input: RouteInput, p: Provider)
    requires DistinctNames(registry)
    ensures p in ChainOf(registry, input) <==> p in registry && Satisfies(p, input.group, input.required)
  {
    ChainIsExactlyTheSatisfying(registry, input);
    if p in registry && Satisfies(p, input.group, input.required) {
      var chain := ChainOf(registry, input);
      var i :| 0 <= i < |chain| && chain[i].name == p.name;
      OneByName(registry, p, chain[i]);
    }
  }

  lemma OneByName(registry: seq<Provider>, p: Provider, q: Provider)
    requires DistinctNames(registry) && p in registry && q in registry && p.name == q.name
    ensures p == q
  {
    var i :| 0 <= i < |registry| && registry[i] == p;
    var j :| 0 <= j < |registry| && registry[j] == q;
    assert !(i < j) && !(j < i);
  }

  /**
   The chain is free of duplicates, the providers covering every preferred capability come
   first, and within each tier the order is the one before ranking.
   */
  lemma ChainIsTieredAndStable(registry: seq<Provider>, input: RouteInput)
    ensures var ordered, chain, covers := PushAll(Candidates(registry, input), input), ChainOf(registry, input),
        ((p: Provider) => Covers(p, input.preferred));
            && (forall i, j :: 0 <= i < j < |chain| && covers(chain[j]) ==> covers(chain[i]))
            && Filter(chain, covers) == Filter(ordered, covers)
            && Filter(chain, p => !Covers(p, input.preferred)) == Filter(ordered, p => !Covers(p, input.preferred))
    ensures DistinctNames(ChainOf(registry, input))
  {
    var ordered, chain := PushAll(Candidates(registry, input), input), ChainOf(registry, input);
    OrderedNamesDistinct(registry, input);
    if input.preferred != [] {
      RankIsStable(ordered, input.preferred);
      RankedNames(ordered, input.preferred);
    }
  }

  lemma RankIsStable(ordered: seq<Provider>, preferred: seq<Capability>)
    requires preferred != []
    ensures var ranked, covers, lacks := Ranked(ordered, preferred), ((p: Provider) => Covers(p, preferred)),
        ((p: Provider) => !Covers(p, preferred));
            && (forall i, j :: 0 <= i < j < |ranked| && covers(ranked[j]) ==> covers(ranked[i]))
            && Filter(ranked, covers) == Filter(ordered, covers)
            && Filter(ranked, lacks) == Filter(ordered, lacks)
  {
    var covers, lacks := ((p: Provider) => Covers(p, preferred)), ((p: Provider) => !Covers(p, preferred));
    assert Ranked(ordered, preferred) == Filter(ordered, covers) + Filter(ordered, lacks);
    hide *;
    TiersAreStable(ordered, covers, lacks);
  }

  lemma TiersAreStable(ps: seq<Provider>, covers: Provider -> bool, lacks: Provider -> bool)
    requires forall p :: lacks(p) <==> !covers(p)
    ensures var ranked := Filter(ps, covers) + Filter(ps, lacks);
            && (forall i, j :: 0 <= i < j < |ranked| && covers(ranked[j]) ==> covers(ranked[i]))
            && Filter(ranked, covers) == Filter(ps, covers)
            && Filter(ranked, lacks) == Filter(ps, lacks)
  {
    hide *;
    var up, down := Filter(ps, covers), Filter(ps, lacks);
    FilterElements(ps, covers);
    FilterElements(ps, lacks);
    FilterConcat(up, down, covers);
    FilterConcat(up, down, lacks);
    FilterAll(up, covers);
    FilterNone(down, covers);
    FilterAll(down, lacks);
    FilterNone(up, lacks);
  }

  lemma RankedNames(ordered: seq<Provider>, preferred: seq<Capability>)
    requires DistinctNames(ordered)
    ensures DistinctNames(Ranked(ordered, preferred))
  {
    var ranked := Ranked(ordered, preferred);
    RankedElements(ordered, preferred);
    forall i, j | 0 <= i < j < |ranked| ensures ranked[i].name != ranked[j].name {
      if ranked[i].name == ranked[j].name {
        assert ranked[i] in ordered && ranked[j] in ordered;
        TwiceCounted(ranked, i, j);
        OnceCounted(ordered, ranked[i]);
      }
    }
  }

  lemma TwiceCounted(ps: seq<Provider>, i: nat, j: nat)
    requires i < j < |ps| && ps[i] == ps[j]
    ensures multiset(ps)[ps[i]] >= 2
  {
    assert ps == ps[..j] + [ps[j]] + ps[j + 1..];
    assert ps[i] in ps[..j];
  }

  lemma {:induction false} OnceCounted(ps: seq<Provider>, p: Provider)
    requires DistinctNames(ps)
    ensures multiset(ps)[p] <= 1
  {
    if ps != [] {
      OnceCounted(ps[..|ps| - 1], p);
      assert ps == ps[..|ps| - 1] + [ps[|ps| - 1]];
      assert p in ps[..|ps| - 1] ==> p != ps[|ps| - 1];
    }
  }

  // ---- what is asked of a provider, and in which order they are asked --------------------------------------

  /**
   With distinct provider names the chain has exactly the providers that accept this kind of file and have
   every capability required; those with every preferred one come first.
   */
  lemma ChainServesTheRequest(registry: seq<Provider>, input: RouteInput)
    requires DistinctNames(registry)
    ensures forall p :: p in ChainOf(registry, input)
              <==> p in registry && input.group in p.accepts && forall c :: c in input.required ==> c in p.capabilities
    ensures var chain := ChainOf(registry, input);
            forall i, j :: 0 <= i < j < |chain| && (forall c :: c in input.preferred ==> c in chain[j].capabilities) ==>
              forall c :: c in input.preferred ==> c in chain[i].capabilities
  {
    forall p ensures p in ChainOf(registry, input)
      <==> p in registry && input.group in p.accepts && forall c :: c in input.required ==> c in p.capabilities
    {
      ChainOfDistinctRegistry(registry, input, p);
    }
    ChainIsTieredAndStable(registry, input);
    hide ChainOf;
    hide Filter;
    var chain := ChainOf(registry, input);
    forall i, j | 0 <= i < j < |chain| && Covers(chain[j], input.preferred) ensures Covers(chain[i], input.preferred) {}
  }

  /** The place of a name in a list, or behind it. */
  function PlaceOf(names: seq<string>, name: string): (k: nat)
    ensures k <= |names| && (k < |names| ==> names[k] == name) && forall i :: 0 <= i < k ==> names[i] != name
  {
    if names == [] then 0 else if names[0] == name then 0 else PlaceOf(names[1..], name) + 1
  }

  lemma {:induction false} ResolvedAt(registry: seq<Provider>, names: seq<string>, k: nat)
    requires k < |names|
    ensures |Resolve(registry, names)| == |names| && Resolve(registry, names)[k] == ByName(registry, names[k])
  {
    if k < |names| - 1 {
      ResolvedAt(registry, names[..|names| - 1], k);
    } else if k > 0 {
      ResolvedAt(registry, names[..|names| - 1], k - 1);
    }
  }

  lemma {:induction false} SomesAt(registry: seq<Provider>)
    ensures |Somes(registry)| == |registry| && forall k :: 0 <= k < |registry| ==>
          Somes(registry)[k] == Some(registry[k])
  {
    if registry != [] { SomesAt(registry[..|registry| - 1]); }
  }

  /** The `k`-th candidate stands where its name stands among the names the policy lists. */
  lemma CandidatePlace(registry: seq<Provider>, input: RouteInput, names: seq<string>, k: nat)
    requires DistinctNames(registry) && names == PreferenceOrder(input, PolicyForFunction(input.policy, input.fn))
    requires FirstEligible(Candidates(registry, input), input, k)
    ensures var p := Candidates(registry, input)[k].value;
            && (k < |names| ==> PlaceOf(names, p.name) == k)
            && (k >= |names| ==>
                  PlaceOf(names, p.name) == |names| && k - |names| < |registry| && p == registry[k - |names|])
  {
    var cs := Candidates(registry, input);
    var p := cs[k].value;
    var q := PlaceOf(names, p.name);
    CandidatesAre(registry, input, names);
    hide *;
    assert FirstEligible(cs, input, k);
    FirstIsRegistered(registry, input, k);
    if q < |names| {
      NamedCandidate(registry, names, p, q);
      FirstIsFirst(cs, input, k, q);
    }
  }

  lemma CandidatesAre(registry: seq<Provider>, input: RouteInput, names: seq<string>)
    requires names == PreferenceOrder(input, PolicyForFunction(input.policy, input.fn))
    ensures var cs := Candidates(registry, input);
            && |cs| == |names| + |registry|
            && (forall i :: 0 <= i < |names| ==> cs[i] == ByName(registry, names[i]))
            && (forall i :: 0 <= i < |registry| ==> cs[|names| + i] == Some(registry[i]))
  {
    SomesAt(registry);
    hide PreferenceOrder;
    hide PolicyForFunction;
    hide Somes;
    hide ByName;
    if names != [] { ResolvedAt(registry, names, 0); }
    forall i | 0 <= i < |names| ensures Resolve(registry, names)[i] == ByName(registry, names[i]) {
      ResolvedAt(registry, names, i);
    }
  }

  lemma FirstIsRegistered(registry: seq<Provider>, input: RouteInput, k: nat)
    requires FirstEligible(Candidates(registry, input), input, k)
    ensures var c := Candidates(registry, input)[k]; c.Some? && c.value in registry
    ensures ByName(registry, Candidates(registry, input)[k].value.name).Some?
    ensures forall name :: ByName(registry, name).Some? ==> ByName(registry, name).value.name == name
  {
    var cs := Candidates(registry, input);
    CandidatesAreRegistered(registry, PreferenceOrder(input, PolicyForFunction(input.policy, input.fn)));
    SomesElements(registry);
    assert cs[k] in cs;
    forall name ensures ByName(registry, name).Some? ==> ByName(registry, name).value.name == name {
      ByNameFinds(registry, name);
    }
    ByNameFinds(registry, cs[k].value.name);
    assert Named(registry, cs[k].value.name);
  }

  lemma NamedCandidate(registry: seq<Provider>, names: seq<string>, p: Provider, q: nat)
    requires DistinctNames(registry) && p in registry && q < |names| && names[q] == p.name
    ensures ByName(registry, names[q]) == Some(p)
  {
    ByNameFinds(registry, p.name);
    assert Named(registry, p.name);
    OneByName(registry, p, ByName(registry, names[q]).value);
  }

  lemma FirstIsFirst(cs: seq<Option<Provider>>, input: RouteInput, k: nat, q: nat)
    requires FirstEligible(cs, input, k) && q < |cs| && cs[q] == cs[k]
    ensures q >= k
  {
  }

  /**
   Before preferred capabilities move anybody up, the providers stand in the order the policy names them:
   for an image its primary and then its fallbacks, the function's own chain when it has one; for a scanned
   PDF likewise, with the text layer in front when nothing but text is asked for. The others follow in the
   order they are registered.
   */
  lemma OrderIsThePolicys(registry: seq<Provider>, input: RouteInput, image: Chain, scanned: Chain, names: seq<string>)
    requires DistinctNames(registry)
    requires var own := if input.fn in input.policy.overrides then input.policy.overrides[input.fn]
        else Override(None, None);
      && image == (if own.image.Some? then own.image.value else input.policy.image)
      && scanned == (if own.scannedPdf.Some? then own.scannedPdf.value else input.policy.scannedPdf)
    requires input.group.Docx? ==> names == ["mammoth"]
    requires input.group.Text? ==> names == ["plain-text"]
    requires input.group.Image? ==> names == [image.primary] + image.fallbacks
    requires input.group.Pdf? ==>
      names == (if forall c :: c in input.required || c in input.preferred ==> c == TextLayer then ["pdf-text"] else [])
               + [scanned.primary] + scanned.fallbacks
    ensures var ordered := PushAll(Candidates(registry, input), input);
      && (forall k, l :: 0 <= k < l < |ordered| ==>
            && PlaceOf(names, ordered[k].name) <= PlaceOf(names, ordered[l].name)
            && (PlaceOf(names, ordered[k].name) == |names| ==> Registered(registry, ordered[k], ordered[l])))
      && (input.preferred == [] ==> ChainOf(registry, input) == ordered)
  {
    var cs, ordered := Candidates(registry, input), PushAll(Candidates(registry, input), input);
    NamesOfThePolicy(input, image, scanned, names);
    var at := PushedAreFirstEligible(cs, input);
    hide Candidates;
    hide PushAll;
    hide PreferenceOrder;
    hide FirstEligible;
    forall k, l | 0 <= k < l < |ordered|
      ensures PlaceOf(names, ordered[k].name) <= PlaceOf(names, ordered[l].name)
      ensures PlaceOf(names, ordered[k].name) == |names| ==> Registered(registry, ordered[k], ordered[l])
    {
      CandidatePlace(registry, input, names, at[k]);
      CandidatePlace(registry, input, names, at[l]);
    }
  }

  /** One provider is registered before the other. */
  predicate Registered(registry: seq<Provider>, p: Provider, q: Provider) {
    exists i, j :: 0 <= i < j < |registry| && registry[i] == p && registry[j] == q
  }

  lemma NamesOfThePolicy(input: RouteInput, image: Chain, scanned: Chain, names: seq<string>)
    requires var own := if input.fn in input.policy.overrides then input.policy.overrides[input.fn]
        else Override(None, None);
      && image == (if own.image.Some? then own.image.value else input.policy.image)
      && scanned == (if own.scannedPdf.Some? then own.scannedPdf.value else input.policy.scannedPdf)
    requires input.group.Docx? ==> names == ["mammoth"]
    requires input.group.Text? ==> names == ["plain-text"]
    requires input.group.Image? ==> names == [image.primary] + image.fallbacks
    requires input.group.Pdf? ==>
      names == (if forall c :: c in input.required || c in input.preferred ==> c == TextLayer then ["pdf-text"] else [])
               + [scanned.primary] + scanned.fallbacks
    ensures names == PreferenceOrder(input, PolicyForFunction(input.policy, input.fn))
  {
    assert forall c :: c in input.required + input.preferred <==> c in input.required || c in input.preferred;
  }
}
