/** The server's push round (`Application::push_to_clients` in queue_alert_server/src/app.rs):
    for every registration, find the rides its config would alert on, push those, and
    afterwards remove the registrations whose endpoint the push service no longer knows.

    The queue times client and the push service are oracles: the park map, the ride times
    per park URL, and the outcome of building and sending a push per endpoint. Building the
    message (JSON, gzip, base64, VAPID) is left out. The registrations are visited in the
    cache's unspecified order. */
module PushApp {
  import opened Wrappers
  import opened RideModel
  import Seqs
  import RegistrationRepo
  import AlertConfig
  import ServiceWorker

  type RideConfig = RegistrationRepo.RideConfig

  /** The first config entry for a ride name (`config.iter().find(...)`). */
  function FindConfig(rides: seq<RideConfig>, name: string): (r: Option<RideConfig>)
    ensures r.Some? ==> FirstWithName(rides, name, r.value)
    ensures r.None? <==> forall i :: 0 <= i < |rides| ==> rides[i].rideName != name
  {
    if rides == [] then None
    else if rides[0].rideName == name then Some(rides[0])
    else
      var rest := FindConfig(rides[1..], name);
      assert forall i :: 1 <= i < |rides| ==> rides[i] == rides[1..][i - 1];
      if rest.None? then rest
      else
        FirstInTail(rides, name, rest.value);
        rest
  }

  /** `c` is the first entry of `rides` with the name `name`. */
  predicate FirstWithName(rides: seq<RideConfig>, name: string, c: RideConfig) {
    exists i :: 0 <= i < |rides| && rides[i] == c && c.rideName == name
                && forall j :: 0 <= j < i ==> rides[j].rideName != name
  }

  /** The first entry with a name in the tail is the first in the whole sequence when the head
      has another name. */
  lemma FirstInTail(rides: seq<RideConfig>, name: string, c: RideConfig)
    requires rides != [] && rides[0].rideName != name
    requires FirstWithName(rides[1..], name, c)
    ensures FirstWithName(rides, name, c)
  {
    var k :| 0 <= k < |rides[1..]| && rides[1..][k] == c && c.rideName == name
             && forall j :: 0 <= j < k ==> rides[1..][j].rideName != name;
    assert rides[k + 1] == c;
    forall j | 0 <= j < k + 1 ensures rides[j].rideName != name {
      if j > 0 { assert rides[j] == rides[1..][j - 1]; }
    }
  }

  /** The alert test of the server: an Open config on anything but Closed, a Closed config on
      Closed, a `Wait(c)` config on a wait of at most `c`. */
  function Alerts(alertOn: RideStatus, status: RideStatus): (r: bool)
    ensures r <==> AlertConfig.Fires(ClientRule(RegistrationRepo.RideConfig("", alertOn)).alertOn, ClientStatus(status))
  {
    match alertOn
    case Open => !status.Closed?
    case Closed => status.Closed?
    case Wait(c) => status.Wait? && c >= status.minutes
  }

  /** The record is one the subscriber's config alerts on. */
  predicate Keep(rides: seq<RideConfig>, t: RideTime) {
    match FindConfig(rides, t.name)
    case None => false
    case Some(rc) => Alerts(rc.alertOn, t.status)
  }

  /** The records to push to a subscriber: the fetched ones its config alerts on, in feed order. */
  function RidesToSend(rides: seq<RideConfig>, times: seq<RideTime>): (r: seq<RideTime>)
    ensures Seqs.IsSubsequence(r, times)
    ensures forall x :: x in r ==> Keep(rides, x)
    ensures forall i :: 0 <= i < |times| && Keep(rides, times[i]) ==> times[i] in r
  {
    if times == [] then []
    else
      var rest := RidesToSend(rides, times[1..]);
      assert forall i :: 1 <= i < |times| ==> times[i] == times[1..][i - 1];
      assert [times[0]] + times[1..] == times;
      if Keep(rides, times[0]) then
        Seqs.SubsequenceCons(times[0], rest, times[1..]);
        [times[0]] + rest
      else
        Seqs.SubsequenceSkip(times[0], rest, times[1..]);
        rest
  }

  // ---------------------------------------------------------------------------
  // Agreement with the client's rule

  /** A server status as the client receives it. */
  function ClientStatus(s: RideStatus): AlertConfig.Status {
    match s
    case Open => AlertConfig.Open
    case Closed => AlertConfig.Closed
    case Wait(m) => AlertConfig.Wait(m as int)
  }

  function ClientRecords(times: seq<RideTime>): (r: seq<AlertConfig.RideRecord>)
    ensures |r| == |times|
    ensures forall i :: 0 <= i < |times| ==> r[i] == AlertConfig.RideRecord(times[i].name, ClientStatus(times[i].status))
  {
    seq(|times|, i requires 0 <= i < |times| => AlertConfig.RideRecord(times[i].name, ClientStatus(times[i].status)))
  }

  /** A server config entry as the client's rule. */
  function ClientRule(rc: RideConfig): AlertConfig.RideRule {
    AlertConfig.RideRule(rc.rideName,
      match rc.alertOn
      case Open => AlertConfig.OnOpen
      case Closed => AlertConfig.OnClosed
      case Wait(c) => AlertConfig.WaitAtMost(c as int))
  }

  predicate UniqueConfigNames(rides: seq<RideConfig>) {
    forall i, j :: 0 <= i < j < |rides| ==> rides[i].rideName != rides[j].rideName
  }

  /** With unique ride names in the config, a rule of the config makes the client alert on
      what the server pushed exactly when the server found a record for that ride that the
      rule alerts on; and every pushed record makes the client alert. */
  lemma ServerAgreesWithClient(rides: seq<RideConfig>, times: seq<RideTime>, i: nat)
    requires UniqueConfigNames(rides) && i < |rides|
    ensures ServiceWorker.RuleNotification(ClientRule(rides[i]), ClientRecords(RidesToSend(rides, times))).Some?
            <==> exists k :: 0 <= k < |times| && times[k].name == rides[i].rideName && Keep(rides, times[k])
  {
    var sent := RidesToSend(rides, times);
    var payload := ClientRecords(sent);
    var rule := ClientRule(rides[i]);
    var n := rides[i].rideName;
    assert FindConfig(rides, n) == Some(rides[i]) by {
      FirstConfigIsUnique(rides, i);
    }
    var k := AlertConfig.FindIndex(payload, n);
    if k < |payload| {
      assert sent[k] in sent;
      Seqs.SubsequenceMembers(sent, times);
      assert sent[k] in times;
      ghost var j :| 0 <= j < |times| && times[j] == sent[k];
    } else {
      forall x | x in sent ensures x.name != n {
        var m :| 0 <= m < |sent| && sent[m] == x;
        assert payload[m].name == x.name;
      }
    }
  }

  lemma FirstConfigIsUnique(rides: seq<RideConfig>, i: nat)
    requires UniqueConfigNames(rides) && i < |rides|
    ensures FindConfig(rides, rides[i].rideName) == Some(rides[i])
  {
    if i > 0 {
      assert rides[0].rideName != rides[i].rideName;
      assert rides[1..][i - 1] == rides[i];
      FirstConfigIsUnique(rides[1..], i - 1);
    }
  }

  /** Every pushed record is one the client alerts on, through the rule for its ride. */
  lemma PushedRecordsAlert(rides: seq<RideConfig>, times: seq<RideTime>, r: RideTime)
    requires UniqueConfigNames(rides)
    requires r in RidesToSend(rides, times)
    ensures exists i :: 0 <= i < |rides| && rides[i].rideName == r.name
              && ServiceWorker.RuleNotification(ClientRule(rides[i]), ClientRecords(RidesToSend(rides, times))).Some?
  {
    var rc := FindConfig(rides, r.name).value;
    var i :| 0 <= i < |rides| && rides[i] == rc;
    Seqs.SubsequenceMembers(RidesToSend(rides, times), times);
    var k :| 0 <= k < |times| && times[k] == r;
    ServerAgreesWithClient(rides, times, i);
  }

  // ---------------------------------------------------------------------------
  // The push round

  /** What building and sending a push to an endpoint ends in. */
  datatype SendOutcome = Sent | PayloadTooLarge | OtherBuildError | EndpointNotValid | EndpointNotFound | OtherSendError

  /** The push service no longer knows the endpoint. */
  predicate Stale(o: SendOutcome) {
    o == EndpointNotValid || o == EndpointNotFound
  }

  /** A push is tried for the registration: its park has a URL, the times for that URL were
      fetched, and some of them are records to send. */
  predicate Tried(reg: RegistrationRepo.Registration, parks: map<string, string>,
                  rideTimes: string -> Result<seq<RideTime>, string>) {
    reg.park in parks && rideTimes(parks[reg.park]).Ok?
    && RidesToSend(reg.rides, rideTimes(parks[reg.park]).value) != []
  }

  /** The records pushed to a registration for which a push is tried. */
  function Payload(reg: RegistrationRepo.Registration, parks: map<string, string>,
                   rideTimes: string -> Result<seq<RideTime>, string>): seq<RideTime>
    requires reg.park in parks && rideTimes(parks[reg.park]).Ok?
  {
    RidesToSend(reg.rides, rideTimes(parks[reg.park]).value)
  }

  /** `push_to_clients`. With no registrations nothing is fetched. Otherwise, with the park
      map, a push is tried for exactly the registrations that have records to send, with
      those records; the endpoints whose push came back stale are collected and then removed
      from the repository, one by one. */
  method PushToClients(repo: RegistrationRepo.Repository, parks: Result<map<string, string>, string>,
                       rideTimes: string -> Result<seq<RideTime>, string>, send: string -> SendOutcome,
                       removeFails: string -> Option<nat>)
    returns (fetchedParks: bool, pushes: map<string, seq<RideTime>>, subsToRemove: seq<string>)
    modifies repo
    ensures fetchedParks <==> |old(repo.cache)| != 0
    ensures !fetchedParks || parks.Err? ==> pushes == map[] && subsToRemove == [] && repo.cache == old(repo.cache)
    ensures fetchedParks && parks.Ok? ==>
              forall e :: e in pushes <==> e in old(repo.cache) && Tried(old(repo.cache)[e], parks.value, rideTimes)
    ensures fetchedParks && parks.Ok? ==>
              forall e :: e in pushes ==>
                (e in old(repo.cache) && Tried(old(repo.cache)[e], parks.value, rideTimes)
                 && pushes[e] == Payload(old(repo.cache)[e], parks.value, rideTimes))
    ensures forall x :: x in subsToRemove <==>
              exists e :: e in pushes && Stale(send(e)) && old(repo.cache)[e].sub.endpoint == x
    ensures repo.cache == old(repo.cache) - Removed(subsToRemove, removeFails)
    ensures repo.registrations == old(repo.registrations) - (Removed(subsToRemove, removeFails) * old(repo.cache).Keys)
    ensures repo.configs == old(repo.configs) && repo.rideAlerts == old(repo.rideAlerts)
    ensures old(RegistrationRepo.Consistent(repo.cache, repo.registrations, repo.configs, repo.rideAlerts)) ==>
              RegistrationRepo.Consistent(repo.cache, repo.registrations, repo.configs, repo.rideAlerts)
  {
    pushes := map[];
    subsToRemove := [];
    if repo.UserCount() == 0 {
      return false, pushes, subsToRemove;
    }
    fetchedParks := true;
    if parks.Err? {
      return;
    }
    pushes, subsToRemove := SendToCached(repo.cache, parks.value, rideTimes, send);
    RemoveAll(repo, subsToRemove, removeFails);
  }

  /** The send loop of `push_to_clients`, over the cache in an unspecified order: a push is
      tried for exactly the registrations that have records to send, with those records, and
      the endpoints whose push came back stale are collected. */
  method SendToCached(cache0: map<string, RegistrationRepo.Registration>, parkMap: map<string, string>,
                      rideTimes: string -> Result<seq<RideTime>, string>, send: string -> SendOutcome)
    returns (pushes: map<string, seq<RideTime>>, subsToRemove: seq<string>)
    ensures forall e :: e in pushes <==> e in cache0 && Tried(cache0[e], parkMap, rideTimes)
    ensures forall e :: e in pushes ==>
              e in cache0 && Tried(cache0[e], parkMap, rideTimes) && pushes[e] == Payload(cache0[e], parkMap, rideTimes)
    ensures forall x :: x in subsToRemove <==> exists e :: e in pushes && Stale(send(e)) && cache0[e].sub.endpoint == x
  {
    pushes := map[];
    subsToRemove := [];
    var todo := cache0.Keys;
    while todo != {}
      invariant todo <= cache0.Keys
      invariant forall e :: e in pushes <==> e in cache0 && e !in todo && Tried(cache0[e], parkMap, rideTimes)
      invariant forall e :: e in pushes ==> pushes[e] == Payload(cache0[e], parkMap, rideTimes)
      invariant forall x :: x in subsToRemove <==> exists e :: e in pushes && Stale(send(e)) && cache0[e].sub.endpoint == x
      decreases |todo|
    {
      var e :| e in todo;
      todo := todo - {e};
      var sub := cache0[e];
      if sub.park !in parkMap {
        continue;
      }
      var rides := rideTimes(parkMap[sub.park]);
      if rides.Err? {
        continue;
      }
      var toSend := RidesToSend(sub.rides, rides.value);
      if toSend == [] {
        continue;
      }
      pushes := pushes[e := toSend];
      var outcome := send(e);
      if outcome == EndpointNotValid || outcome == EndpointNotFound {
        subsToRemove := subsToRemove + [sub.sub.endpoint];
      }
    }
  }

  /** The endpoints among `subs` whose removal does not fail at its first statement. */
  function Removed(subs: seq<string>, removeFails: string -> Option<nat>): (r: set<string>)
    ensures forall x :: x in r <==> exists j :: 0 <= j < |subs| && subs[j] == x && removeFails(x) != Some(0)
  {
    set j | 0 <= j < |subs| && removeFails(subs[j]) != Some(0) :: subs[j]
  }

  /** The removal loop: removes each collected endpoint that is cached; a failed removal leaves
      it. Only the cache and the REGISTRATIONS table change, and a repository whose cache
      agrees with its tables still agrees after the loop. */
  method RemoveAll(repo: RegistrationRepo.Repository, subsToRemove: seq<string>, removeFails: string -> Option<nat>)
    modifies repo
    ensures repo.cache == old(repo.cache) - Removed(subsToRemove, removeFails)
    ensures repo.registrations == old(repo.registrations) - (Removed(subsToRemove, removeFails) * old(repo.cache).Keys)
    ensures repo.configs == old(repo.configs) && repo.rideAlerts == old(repo.rideAlerts)
    ensures old(RegistrationRepo.Consistent(repo.cache, repo.registrations, repo.configs, repo.rideAlerts)) ==>
              RegistrationRepo.Consistent(repo.cache, repo.registrations, repo.configs, repo.rideAlerts)
  {
    ghost var cache0, registrations0 := repo.cache, repo.registrations;
    for i := 0 to |subsToRemove|
      invariant repo.cache == cache0 - Removed(subsToRemove[..i], removeFails)
      invariant repo.registrations == registrations0 - (Removed(subsToRemove[..i], removeFails) * cache0.Keys)
      invariant repo.configs == old(repo.configs) && repo.rideAlerts == old(repo.rideAlerts)
    {
      var rmSub := subsToRemove[i];
      var _ := repo.RemoveRegistration(rmSub, removeFails(rmSub));
      RemovedStep(subsToRemove, removeFails, i);
    }
    assert subsToRemove[..|subsToRemove|] == subsToRemove;
    if RegistrationRepo.Consistent(cache0, registrations0, repo.configs, repo.rideAlerts) {
      RegistrationRepo.RemoveSetKeepsConsistent(cache0, registrations0, repo.configs, repo.rideAlerts,
                                                Removed(subsToRemove, removeFails));
    }
  }

  /** One more endpoint adds itself to the removed set exactly when its removal does not fail. */
  lemma RemovedStep(subs: seq<string>, removeFails: string -> Option<nat>, i: nat)
    requires i < |subs|
    ensures Removed(subs[..i + 1], removeFails)
            == Removed(subs[..i], removeFails) + (if removeFails(subs[i]) != Some(0) then {subs[i]} else {})
  {
    assert subs[..i + 1] == subs[..i] + [subs[i]];
  }
}
