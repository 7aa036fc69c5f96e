/** The time-windowed cache around a queue times client (`CachedClient` in
    queue_times/src/client.rs).

    Time is an integer count of nanoseconds read from the local clock; the two readings the
    source takes in one call (the freshness test and the new update time) are parameters.
    The wrapped client is an oracle: the answer its `get_park_urls` would give, and the answer
    its `get_ride_times` would give for each park URL. URLs are their serialised strings. */
module CachedClient {
  import opened Wrappers
  import opened RideModel

  /** The errors a call can end in: an unknown park URL, or whatever the inner client reported. */
  datatype Error = BadUrl(url: string) | Inner(reason: string)

  const Minute: int := 60 * 1_000_000_000
  const FiveMinutes: int := 5 * Minute
  const SixMinutes: int := 6 * Minute

  /** The cache is still fresh at `now`: less than five minutes have passed since `last`. */
  predicate Fresh(now: int, last: int) {
    now - last < FiveMinutes
  }

  /** The cached entry for `url`, or `BadUrl`. */
  function Lookup(cache: map<string, seq<RideTime>>, url: string): (r: Result<seq<RideTime>, Error>)
    ensures r.Ok? <==> url in cache
    ensures r.Ok? ==> r.value == cache[url]
    ensures r.Err? ==> r.error == BadUrl(url)
  {
    if url in cache then Ok(cache[url]) else Err(BadUrl(url))
  }

  /** `cache` with fresh times for every URL of `urls` that the inner client answered. */
  function Refreshed(cache: map<string, seq<RideTime>>, urls: set<string>,
                     times: string -> Result<seq<RideTime>, Error>): map<string, seq<RideTime>>
  {
    cache + map u | u in urls && times(u).Ok? :: times(u).value
  }

  /** Every entry of `cache` is an entry of `before` or an answer of the inner client for
      one of `urls`, and no entry of `before` is gone. */
  ghost predicate OnlyInsertedFrom(before: map<string, seq<RideTime>>, cache: map<string, seq<RideTime>>,
                                   urls: set<string>, times: string -> Result<seq<RideTime>, Error>) {
    && before.Keys <= cache.Keys
    && forall u :: u in cache ==>
         (u in before && cache[u] == before[u]) || (u in urls && times(u) == Ok(cache[u]))
  }

  /** Refreshing one more URL is one more insertion. */
  lemma RefreshedStep(cache: map<string, seq<RideTime>>, done: set<string>, u: string,
                      times: string -> Result<seq<RideTime>, Error>)
    requires times(u).Ok?
    ensures Refreshed(cache, done + {u}, times) == Refreshed(cache, done, times)[u := times(u).value]
  {
    var lhs := Refreshed(cache, done + {u}, times);
    var rhs := Refreshed(cache, done, times)[u := times(u).value];
    assert lhs.Keys == rhs.Keys;
    forall k | k in lhs.Keys ensures lhs[k] == rhs[k] {
    }
  }

  /** A partial refresh only inserts answers for URLs it was given. */
  lemma RefreshedOnlyInserts(cache: map<string, seq<RideTime>>, done: set<string>, urls: set<string>,
                             times: string -> Result<seq<RideTime>, Error>)
    requires done <= urls
    ensures OnlyInsertedFrom(cache, Refreshed(cache, done, times), urls, times)
  {
  }

  class Client {
    /** Park URL to its ride times. */
    var cache: map<string, seq<RideTime>>
    /** Park name to park URL; filled once. */
    var parksCache: map<string, string>
    /** When the cache was last refreshed. */
    var lastUpdated: int

    /** `CachedClient::new`: empty caches, last updated six minutes before `now`, so that the
        first request refreshes. */
    constructor(now: int)
      ensures cache == map[] && parksCache == map[]
      ensures lastUpdated == now - SixMinutes
      ensures forall later :: later >= now ==> !Fresh(later, lastUpdated)
    {
      cache := map[];
      parksCache := map[];
      lastUpdated := now - SixMinutes;
    }

    /** `get_park_urls`: asks the inner client (whose answer is `inner`) only while the park
        cache is empty, and keeps a successful answer. */
    method GetParkUrls(inner: Result<map<string, string>, Error>) returns (r: Result<map<string, string>, Error>, asked: bool)
      modifies this
      ensures asked <==> old(parksCache) == map[]
      ensures !asked ==> r == Ok(old(parksCache)) && parksCache == old(parksCache)
      ensures asked ==> r == inner
      ensures asked ==> parksCache == (if inner.Ok? then inner.value else old(parksCache))
      ensures cache == old(cache) && lastUpdated == old(lastUpdated)
    {
      if parksCache == map[] {
        asked := true;
        if inner.Err? {
          return inner, asked;
        }
        parksCache := inner.value;
        r := Ok(inner.value);
      } else {
        asked := false;
        r := Ok(parksCache);
      }
    }

    /** The refresh loop: asks the inner client for each URL of `urls`, in an unspecified order,
        and inserts each answer; the first error ends the loop. */
    method RefreshAll(urls: set<string>, innerTimes: string -> Result<seq<RideTime>, Error>)
      returns (err: Option<Error>)
      modifies this
      ensures parksCache == old(parksCache) && lastUpdated == old(lastUpdated)
      ensures err.None? <==> forall u :: u in urls ==> innerTimes(u).Ok?
      ensures err.None? ==> cache == Refreshed(old(cache), urls, innerTimes)
      ensures err.Some? ==> OnlyInsertedFrom(old(cache), cache, urls, innerTimes)
      ensures err.Some? ==> exists u :: u in urls && innerTimes(u) == Err(err.value)
    {
      var todo := urls;
      ghost var done: set<string> := {};
      while todo != {}
        invariant todo + done == urls && todo !! done
        invariant forall u :: u in done ==> innerTimes(u).Ok?
        invariant cache == Refreshed(old(cache), done, innerTimes)
        invariant parksCache == old(parksCache) && lastUpdated == old(lastUpdated)
        decreases |todo|
      {
        var parkUrl :| parkUrl in todo;
        var times := innerTimes(parkUrl);
        if times.Err? {
          RefreshedOnlyInserts(old(cache), done, urls, innerTimes);
          return Some(times.error);
        }
        RefreshedStep(old(cache), done, parkUrl, innerTimes);
        cache := cache[parkUrl := times.value];
        todo := todo - {parkUrl};
        done := done + {parkUrl};
      }
      return None;
    }

    /** `get_ride_times`. While the cache is fresh at `now` it answers from the cache alone.
        Otherwise it gets the park map, asks the inner client for every park's times (in the
        map's unspecified order), inserts them, sets the update time to `doneAt`, and answers
        from the new cache. An inner error stops the refresh where it is: the times already
        fetched stay, and the update time is not moved. */
    method GetRideTimes(url: string, now: int, doneAt: int,
                        innerParks: Result<map<string, string>, Error>,
                        innerTimes: string -> Result<seq<RideTime>, Error>)
      returns (r: Result<seq<RideTime>, Error>)
      modifies this
      // A fresh cache answers by itself and nothing changes.
      ensures Fresh(now, old(lastUpdated)) ==>
                r == Lookup(old(cache), url) && cache == old(cache)
                && parksCache == old(parksCache) && lastUpdated == old(lastUpdated)
      // A stale cache first needs the park map.
      ensures !Fresh(now, old(lastUpdated)) && old(parksCache) == map[] && innerParks.Err? ==>
                r == Err(innerParks.error) && cache == old(cache) && lastUpdated == old(lastUpdated)
      ensures !Fresh(now, old(lastUpdated)) ==>
                parksCache == (if old(parksCache) != map[] then old(parksCache)
                               else if innerParks.Ok? then innerParks.value else old(parksCache))
      // With the park map in hand, a refresh that meets no error updates every park.
      ensures !Fresh(now, old(lastUpdated)) && (old(parksCache) != map[] || innerParks.Ok?) ==>
                var urls := parksCache.Values;
                if forall u :: u in urls ==> innerTimes(u).Ok? then
                  cache == Refreshed(old(cache), urls, innerTimes) && lastUpdated == doneAt
                  && r == Lookup(cache, url)
                else
                  && lastUpdated == old(lastUpdated)
                  && OnlyInsertedFrom(old(cache), cache, urls, innerTimes)
                  && r.Err? && exists u :: u in urls && innerTimes(u) == Err(r.error)
    {
      if Fresh(now, lastUpdated) {
        return Lookup(cache, url);
      }
      var parks, _ := GetParkUrls(innerParks);
      if parks.Err? {
        return Err(parks.error);
      }
      var err := RefreshAll(parks.value.Values, innerTimes);
      if err.Some? {
        return Err(err.value);
      }
      lastUpdated := doneAt;
      r := Lookup(cache, url);
    }
  }

  /** Two requests for the same park, the second while the cache the first left is still
      fresh, get the same answer when the first one succeeded. */
  method RepeatWithinWindow(c: Client, url: string, now1: int, doneAt1: int, now2: int, doneAt2: int,
                            innerParks: Result<map<string, string>, Error>,
                            innerTimes: string -> Result<seq<RideTime>, Error>)
    returns (r1: Result<seq<RideTime>, Error>, r2: Result<seq<RideTime>, Error>)
    modifies c
    requires Fresh(now1, c.lastUpdated) || Fresh(now2, doneAt1)
    requires Fresh(now1, c.lastUpdated) ==> Fresh(now2, c.lastUpdated)
    ensures r1.Ok? ==> r2 == r1
  {
    ghost var last0 := c.lastUpdated;
    r1 := c.GetRideTimes(url, now1, doneAt1, innerParks, innerTimes);
    ghost var cache1 := c.cache;
    r2 := c.GetRideTimes(url, now2, doneAt2, innerParks, innerTimes);
    if r1.Ok? && !Fresh(now1, last0) {
      assert c.cache == cache1;
    }
  }
}
