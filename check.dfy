/** The /check route of app/routes/check.py: token first, then the cache, then the
    upstream risk lookup, deduplication and a cache write. The token source and the risk
    fetcher are inputs; the cache is the shared singleton held by the registry. */
module Check {
  import opened Common
  import opened Models
  import opened OrderedMap
  import opened Cache
  import opened RiskUtils

  /** The /check answer for `names` to carry: the deduplicated categories of `details`. */
  ghost predicate IsDeduplicated(names: seq<string>, details: RiskDetailsResponse)
  {
    NoDuplicates(names) && forall c :: c in names <==> c in CategoryUnion(details)
  }

  /** `check_ethereum_address(address)`. `token` is what `get_current_token` gives;
      `fetchRisk(address, token)` is what `fetch_risk_details` gives. `riskRequest` holds
      the arguments of the risk fetch, when one is made. */
  method CheckEthereumAddress(registry: CacheRegistry, address: string, token: Result<string>,
                              fetchRisk: (string, string) -> Result<RiskDetailsResponse>)
    returns (response: Result<CheckEndpointResponse>, riskRequest: Option<(string, string)>)
    requires registry.Valid()
    modifies registry, registry.instance
    ensures registry.Valid()
    // A token error is answered with its status and detail; the cache is not touched.
    ensures token.Err? ==>
              && response == Err(token.error) && riskRequest == None
              && unchanged(registry)
              && (registry.instance != null ==> unchanged(registry.instance))
    ensures token.Ok? ==>
              var c := registry.instance;
              var pre := if old(registry.instance) == null then Empty() else old(registry.instance.cache);
              && c != null
              // The route never touches the configuration or the stop flag of the cache, so
              // its purge loop is what it was; a cache built here has no purge loop.
              && (old(registry.instance) != null ==>
                    && c == old(registry.instance) && c.capacity == old(c.capacity)
                    && c.purgeInterval == old(c.purgeInterval) && c.stopPurge == old(c.stopPurge))
              && (old(registry.instance) == null ==>
                    && fresh(c) && c.capacity == DefaultCapacity
                    && c.purgeInterval == DefaultPurgeInterval && !c.stopPurge)
              && Valid(pre)
              // A hit is answered from the cache, with no risk fetch.
              && (address in pre.vals ==>
                    && response == Ok(pre.vals[address]) && riskRequest == None
                    && c.cache == MoveToEnd(pre, address))
              // A miss fetches with the raw address and the token just obtained.
              && (address !in pre.vals ==> riskRequest == Some((address, token.value)))
              // A fetch error is answered with its status and detail; nothing is cached.
              && (address !in pre.vals && fetchRisk(address, token.value).Err? ==>
                    response == Err(fetchRisk(address, token.value).error) && c.cache == pre)
              // A fetched result is deduplicated, answered and cached under the raw address.
              && (address !in pre.vals && fetchRisk(address, token.value).Ok? ==>
                    && response.Ok?
                    && IsDeduplicated(response.value.categoryNames, fetchRisk(address, token.value).value)
                    && c.cache == AfterSet(pre, c.capacity, address, response.value))
  {
    if token.Err? {
      return Err(token.error), None;
    }
    var cache := registry.GetInstance(DefaultCapacity, DefaultPurgeInterval);
    var cached := cache.Get(address);
    if cached.Some? {
      return Ok(cached.value), None;
    }
    riskRequest := Some((address, token.value));
    var fetched := fetchRisk(address, token.value);
    if fetched.Err? {
      return Err(fetched.error), riskRequest;
    }
    var categories := DeduplicateCategories(fetched.value);
    var result := CheckEndpointResponse(categories);
    cache.Set(address, result);
    response := Ok(result);
  }
}
