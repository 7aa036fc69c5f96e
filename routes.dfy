/** The server's HTTP routes (queue_alert_server/src/routes.rs): registering and unregistering
    push subscriptions in a vector kept sorted by endpoint, the park list sorted by name, and
    the wait times of a validated queue-times.com park URL, sorted.

    The HTTP layer is left out: a route takes its decoded request and returns the response
    it would send. The queue times client is an oracle: the answer it would give. */
module Routes {
  import opened Wrappers
  import opened Text
  import Sorting
  import opened RideModel
  import opened RegistrationRepo

  /** A route's response. */
  datatype Response =
    | OkEmpty
    | BadRequest(body: string)
    | InternalError(body: string)
    | Times(times: seq<RideTime>)
    | Parks(entries: seq<(string, string)>)

  /** The registration of the routes: a subscription and its park. */
  datatype RouteRegistration = RouteRegistration(sub: SubscriptionInfo, park: string)

  /** Rust's `<` on strings. */
  predicate StringLt(a: string, b: string) {
    StringLe(a, b) && a != b
  }

  lemma StringLtTransitive(a: string, b: string, c: string)
    requires StringLt(a, b) && StringLt(b, c)
    ensures StringLt(a, c)
  {
    StringLeTransitive(a, b, c);
    if a == c {
      StringLeAntisymmetric(a, b);
    }
  }

  lemma StringLtTotal(a: string, b: string)
    requires a != b
    ensures StringLt(a, b) || StringLt(b, a)
  {
    StringLeTotal(a, b);
  }

  /** Endpoints strictly increase along the vector: sorted, and no endpoint twice. */
  predicate StrictlySorted(subs: seq<RouteRegistration>) {
    forall i, j :: 0 <= i < j < |subs| ==> StringLt(subs[i].sub.endpoint, subs[j].sub.endpoint)
  }

  /** Some registration has the endpoint. */
  predicate HasEndpoint(subs: seq<RouteRegistration>, endpoint: string) {
    exists i :: 0 <= i < |subs| && subs[i].sub.endpoint == endpoint
  }

  /** `binary_search_by` on the endpoint: the index of the registration with `key`, or the
      index where one would go. On a strictly sorted vector both are unique, so every
      correct binary search returns these. */
  method BinarySearch(subs: seq<RouteRegistration>, key: string) returns (found: bool, idx: nat)
    requires StrictlySorted(subs)
    ensures found ==> idx < |subs| && subs[idx].sub.endpoint == key
    ensures !found ==> idx <= |subs|
    ensures !found ==> forall j :: 0 <= j < idx ==> StringLt(subs[j].sub.endpoint, key)
    ensures !found ==> forall j :: idx <= j < |subs| ==> StringLt(key, subs[j].sub.endpoint)
  {
    var lo, hi := 0, |subs|;
    while lo < hi
      invariant 0 <= lo <= hi <= |subs|
      invariant forall j :: 0 <= j < lo ==> StringLt(subs[j].sub.endpoint, key)
      invariant forall j :: hi <= j < |subs| ==> StringLt(key, subs[j].sub.endpoint)
      decreases hi - lo
    {
      var mid := (lo + hi) / 2;
      var e := subs[mid].sub.endpoint;
      if e == key {
        return true, mid;
      }
      if StringLe(e, key) {
        forall j | 0 <= j < mid ensures StringLt(subs[j].sub.endpoint, key) {
          StringLtTransitive(subs[j].sub.endpoint, e, key);
        }
        lo := mid + 1;
      } else {
        StringLtTotal(e, key);
        forall j | mid < j < |subs| ensures StringLt(key, subs[j].sub.endpoint) {
          StringLtTransitive(key, e, subs[j].sub.endpoint);
        }
        hi := mid;
      }
    }
    return false, lo;
  }

  /** Inserting at the search's insertion point keeps the vector strictly sorted. */
  lemma InsertKeepsSorted(subs: seq<RouteRegistration>, idx: nat, reg: RouteRegistration)
    requires StrictlySorted(subs) && idx <= |subs|
    requires forall j :: 0 <= j < idx ==> StringLt(subs[j].sub.endpoint, reg.sub.endpoint)
    requires forall j :: idx <= j < |subs| ==> StringLt(reg.sub.endpoint, subs[j].sub.endpoint)
    ensures StrictlySorted(subs[..idx] + [reg] + subs[idx..])
  {
    var r := subs[..idx] + [reg] + subs[idx..];
    assert forall i :: 0 <= i < idx ==> r[i] == subs[i];
    assert forall i :: idx < i < |r| ==> r[i] == subs[i - 1];
  }

  /** Removing an element keeps the vector strictly sorted. */
  lemma RemoveKeepsSorted(subs: seq<RouteRegistration>, idx: nat)
    requires StrictlySorted(subs) && idx < |subs|
    ensures StrictlySorted(subs[..idx] + subs[idx + 1..])
  {
    var r := subs[..idx] + subs[idx + 1..];
    assert forall i :: 0 <= i < idx ==> r[i] == subs[i];
    assert forall i :: idx <= i < |r| ==> r[i] == subs[i + 1];
  }

  /** The shared vector of registrations (`RWVec`). */
  class Subscribers {
    var subs: seq<RouteRegistration>

    ghost predicate Valid()
      reads this
    {
      StrictlySorted(subs)
    }

    /** The vector starts empty. */
    constructor()
      ensures subs == [] && Valid()
    {
      subs := [];
    }

    /** `register`: a new endpoint is inserted at its place in endpoint order; an endpoint
        already present leaves the vector as it is, whatever its park. Both answer Ok. */
    method Register(reg: RouteRegistration) returns (resp: Response)
      requires Valid()
      modifies this
      ensures Valid()
      ensures resp == OkEmpty
      ensures HasEndpoint(old(subs), reg.sub.endpoint) ==> subs == old(subs)
      ensures !HasEndpoint(old(subs), reg.sub.endpoint) ==>
                exists idx :: 0 <= idx <= |old(subs)| && subs == old(subs)[..idx] + [reg] + old(subs)[idx..]
      ensures |subs| == |old(subs)| + (if HasEndpoint(old(subs), reg.sub.endpoint) then 0 else 1)
    {
      var found, idx := BinarySearch(subs, reg.sub.endpoint);
      if found {
        return OkEmpty;
      }
      assert !HasEndpoint(subs, reg.sub.endpoint) by {
        forall j | 0 <= j < |subs| ensures subs[j].sub.endpoint != reg.sub.endpoint {
          if j < idx { assert StringLt(subs[j].sub.endpoint, reg.sub.endpoint); }
          else { assert StringLt(reg.sub.endpoint, subs[j].sub.endpoint); }
        }
      }
      InsertKeepsSorted(subs, idx, reg);
      subs := subs[..idx] + [reg] + subs[idx..];
      return OkEmpty;
    }

    /** `unregister`: removes the registration with the subscription's endpoint and keeps the
        rest in order; an endpoint not present is a bad request and changes nothing. */
    method Unregister(sub: SubscriptionInfo) returns (resp: Response)
      requires Valid()
      modifies this
      ensures Valid()
      ensures resp == OkEmpty <==> HasEndpoint(old(subs), sub.endpoint)
      ensures resp != OkEmpty ==> resp == BadRequest("Subscription was not registered with queue alert") && subs == old(subs)
      ensures resp == OkEmpty ==>
                exists idx :: 0 <= idx < |old(subs)| && old(subs)[idx].sub.endpoint == sub.endpoint
                              && subs == old(subs)[..idx] + old(subs)[idx + 1..]
      ensures !HasEndpoint(subs, sub.endpoint)
    {
      var found, idx := BinarySearch(subs, sub.endpoint);
      if found {
        RemoveKeepsSorted(subs, idx);
        ghost var before := subs;
        subs := subs[..idx] + subs[idx + 1..];
        assert !HasEndpoint(subs, sub.endpoint) by {
          forall j | 0 <= j < |subs| ensures subs[j].sub.endpoint != sub.endpoint {
            if j < idx { assert StringLt(before[j].sub.endpoint, before[idx].sub.endpoint); }
            else { assert subs[j] == before[j + 1]; assert StringLt(before[idx].sub.endpoint, before[j + 1].sub.endpoint); }
          }
        }
        return OkEmpty;
      }
      assert !HasEndpoint(subs, sub.endpoint) by {
        forall j | 0 <= j < |subs| ensures subs[j].sub.endpoint != sub.endpoint {
          if j < idx { assert StringLt(subs[j].sub.endpoint, sub.endpoint); }
          else { assert StringLt(sub.endpoint, subs[j].sub.endpoint); }
        }
      }
      return BadRequest("Subscription was not registered with queue alert");
    }
  }

  /** In a strictly sorted vector the inserted registration is the only one with its
      endpoint, so removing the one with that endpoint takes it out again. */
  lemma RemoveInserted(before: seq<RouteRegistration>, idx: nat, reg: RouteRegistration, k: nat)
    requires idx <= |before|
    requires StrictlySorted(before[..idx] + [reg] + before[idx..])
    requires k < |before| + 1 && (before[..idx] + [reg] + before[idx..])[k].sub.endpoint == reg.sub.endpoint
    ensures (before[..idx] + [reg] + before[idx..])[..k] + (before[..idx] + [reg] + before[idx..])[k + 1..] == before
  {
    var mid := before[..idx] + [reg] + before[idx..];
    assert mid[idx] == reg;
    assert k == idx;
    assert mid[..idx] == before[..idx];
    assert mid[idx + 1..] == before[idx..];
  }

  /** Registering and then unregistering a new endpoint gives the vector back. */
  method RegisterThenUnregister(s: Subscribers, reg: RouteRegistration) returns (r1: Response, r2: Response)
    requires s.Valid() && !HasEndpoint(s.subs, reg.sub.endpoint)
    modifies s
    ensures s.subs == old(s.subs)
    ensures r1 == OkEmpty && r2 == OkEmpty
  {
    ghost var before := s.subs;
    r1 := s.Register(reg);
    ghost var idx :| 0 <= idx <= |before| && s.subs == before[..idx] + [reg] + before[idx..];
    ghost var mid := s.subs;
    assert mid[idx] == reg;
    r2 := s.Unregister(reg.sub);
    ghost var k :| 0 <= k < |mid| && mid[k].sub.endpoint == reg.sub.endpoint && s.subs == mid[..k] + mid[k + 1..];
    RemoveInserted(before, idx, reg, k);
  }

  // ---------------------------------------------------------------------------
  // The queue routes

  /** The outcome of `Url::parse` on the query's URL: an error, or the URL with its domain,
      if it has one. */
  datatype ParsedUrl = Unparsable | Parsed(href: string, domain: Option<string>)

  const QueueTimesDomain: string := "queue-times.com"

  /** `get_park_wait_times`: a URL that does not parse, has no domain, or whose domain is not
      queue-times.com is refused before anything is fetched; otherwise the client's times
      are answered sorted by the `RideTime` order, or its error as an internal error. */
  method GetParkWaitTimes(url: ParsedUrl, fetch: Result<seq<RideTime>, string>)
    returns (resp: Response, fetched: bool)
    ensures fetched <==> url.Parsed? && url.domain == Some(QueueTimesDomain)
    ensures url.Unparsable? ==> resp == BadRequest("Bad Url passed.")
    ensures url.Parsed? && !fetched ==> resp == BadRequest("Non queue-times url passed.")
    ensures fetched && fetch.Err? ==> resp == InternalError(fetch.error)
    ensures fetched && fetch.Ok? ==> resp.Times? && Sorting.SortedBy(resp.times, RideTimeLe)
                                     && multiset(resp.times) == multiset(fetch.value)
  {
    if url.Unparsable? {
      return BadRequest("Bad Url passed."), false;
    }
    if url.domain.None? {
      return BadRequest("Non queue-times url passed."), false;
    }
    if url.domain.value != QueueTimesDomain {
      return BadRequest("Non queue-times url passed."), false;
    }
    fetched := true;
    if fetch.Err? {
      return InternalError(fetch.error), fetched;
    }
    RideTimeOrderIsTotal();
    var times := Sorting.Sort(fetch.value, RideTimeLe);
    resp := Times(times);
  }

  /** Two sorted permutations of the same times are equal: the answer is what Rust's `sort`
      gives. */
  lemma WaitTimesOrderUnique(a: seq<RideTime>, b: seq<RideTime>)
    requires Sorting.SortedBy(a, RideTimeLe) && Sorting.SortedBy(b, RideTimeLe)
    requires multiset(a) == multiset(b)
    ensures a == b
  {
    RideTimeOrderIsTotal();
    Sorting.SortedPermutationUnique(a, b, RideTimeLe);
  }

  /** A finite set of names has a least one. */
  lemma {:induction false} LeastNameExists(names: set<string>)
    requires names != {}
    ensures exists n :: n in names && forall x :: x in names ==> StringLe(n, x)
    decreases |names|
  {
    var y :| y in names;
    var rest := names - {y};
    if rest == {} {
      StringLeReflexive(y);
      forall x | x in names ensures x == y {
        assert x !in rest;
      }
    } else {
      LeastNameExists(rest);
      var m :| m in rest && forall x :: x in rest ==> StringLe(m, x);
      StringLeTotal(m, y);
      if StringLe(m, y) {
        forall x | x in names ensures StringLe(m, x) {
          if x != y {
            assert x in rest;
          }
        }
        assert m in names;
      } else {
        forall x | x in names ensures StringLe(y, x) {
          if x == y { StringLeReflexive(y); } else { StringLeTransitive(y, m, x); }
        }
        assert y in names;
      }
    }
  }

  /** The names of the entries strictly increase. */
  predicate NamesIncrease(entries: seq<(string, string)>) {
    forall i, j :: 0 <= i < j < |entries| ==> StringLt(entries[i].0, entries[j].0)
  }

  /** `get_all_parks`: the client's park map as `(name, url)` entries in name order (the
      order of a `BTreeMap`), or its error as an internal error. */
  method GetAllParks(parks: Result<map<string, string>, string>) returns (resp: Response)
    ensures parks.Err? ==> resp == InternalError(parks.error)
    ensures parks.Ok? ==> resp.Parks?
    ensures parks.Ok? ==> NamesIncrease(resp.entries)
    ensures parks.Ok? ==> forall i :: 0 <= i < |resp.entries| ==>
                            resp.entries[i].0 in parks.value && resp.entries[i].1 == parks.value[resp.entries[i].0]
    ensures parks.Ok? ==> forall n :: n in parks.value ==> exists i :: 0 <= i < |resp.entries| && resp.entries[i].0 == n
  {
    if parks.Err? {
      return InternalError(parks.error);
    }
    var m := parks.value;
    var todo := m.Keys;
    var entries: seq<(string, string)> := [];
    while todo != {}
      invariant todo <= m.Keys
      invariant NamesIncrease(entries)
      invariant forall i :: 0 <= i < |entries| ==> entries[i].0 in m && entries[i].0 !in todo && entries[i].1 == m[entries[i].0]
      invariant forall n :: n in m && n !in todo ==> exists i :: 0 <= i < |entries| && entries[i].0 == n
      invariant forall i, x :: 0 <= i < |entries| && x in todo ==> StringLt(entries[i].0, x)
      decreases |todo|
    {
      LeastNameExists(todo);
      var n :| n in todo && forall x :: x in todo ==> StringLe(n, x);
      var rest := todo - {n};
      forall i, x | 0 <= i < |entries| + 1 && x in rest
        ensures StringLt((entries + [(n, m[n])])[i].0, x)
      {
        if i == |entries| {
          assert (entries + [(n, m[n])])[i].0 == n;
        }
      }
      ghost var old_entries := entries;
      entries := entries + [(n, m[n])];
      forall x | x in m && x !in rest ensures exists i :: 0 <= i < |entries| && entries[i].0 == x {
        if x == n {
          assert entries[|old_entries|].0 == x;
        } else {
          var i :| 0 <= i < |old_entries| && old_entries[i].0 == x;
          assert entries[i].0 == x;
        }
      }
      todo := rest;
    }
    return Parks(entries);
  }
}
