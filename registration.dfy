/** The server's registration store (queue_alert_server/src/registration.rs): a write-back
    cache, keyed by push endpoint, over three database tables.

    The database is three abstract tables: REGISTRATIONS (endpoint to stored subscription),
    CONFIGS (endpoint to park) and RIDEALERTS (rows in table order). SQL text, the schema and
    sqlx are not modelled; a failing statement is given as `failAt`, the number of the
    statement of the call that fails, if any. A transaction that does not commit leaves the
    tables as they were. */
module RegistrationRepo {
  import opened Wrappers
  import opened RideModel

  /** `SubscriptionInfo`: the push endpoint and its keys. */
  datatype SubscriptionInfo = SubscriptionInfo(endpoint: string, p256dh: string, auth: string)

  /** `RideConfig`: one ride to alert on, and the status that alerts. */
  datatype RideConfig = RideConfig(rideName: string, alertOn: RideStatus)

  /** `Registration`: a subscription and its config `(park, rides)`. */
  datatype Registration = Registration(sub: SubscriptionInfo, park: string, rides: seq<RideConfig>)

  /** A row of RIDEALERTS: endpoint, ride name, alert kind and the optional wait. */
  datatype AlertRow = AlertRow(endpoint: string, rideName: string, alertOn: string, wait: Option<u16>)

  /** A failing database statement (its number within the call), a missing CONFIGS row, or
      a panic (`unreachable!`, or reading a NULL wait as `u16`). */
  datatype Error = Db(statement: nat) | RowNotFound(endpoint: string) | Panic

  predicate FailsAt(failAt: Option<nat>, statement: nat) {
    failAt == Some(statement)
  }

  // ---------------------------------------------------------------------------
  // The encoding of an alert status in RIDEALERTS

  /** The `alerton` and `wait` columns of a status: one of three words, with a wait exactly
      for "wait". */
  function EncodeAlert(s: RideStatus): (r: (string, Option<u16>))
    ensures r.0 in {"open", "closed", "wait"}
    ensures r.1.Some? <==> r.0 == "wait"
  {
    match s
    case Wait(t) => ("wait", Some(t))
    case Open => ("open", None)
    case Closed => ("closed", None)
  }

  /** The status read back from the two columns; any other word, or "wait" without a wait,
      is an error. */
  function DecodeAlert(alertOn: string, wait: Option<u16>): (r: Result<RideStatus, Error>)
    ensures r.Ok? <==> alertOn in {"open", "closed"} || (alertOn == "wait" && wait.Some?)
    ensures r.Err? ==> r.error == Panic
  {
    match alertOn
    case "open" => Ok(Open)
    case "closed" => Ok(Closed)
    case "wait" => if wait.Some? then Ok(Wait(wait.value)) else Err(Panic)
    case _ => Err(Panic)
  }

  /** Decoding inverts encoding. */
  lemma DecodeEncode(s: RideStatus)
    ensures DecodeAlert(EncodeAlert(s).0, EncodeAlert(s).1) == Ok(s)
  {
  }

  /** Only encoded columns decode, and they decode to the status that encodes to them. */
  lemma EncodeDecode(alertOn: string, wait: Option<u16>, s: RideStatus)
    requires DecodeAlert(alertOn, wait) == Ok(s)
    ensures EncodeAlert(s).0 == alertOn
    ensures alertOn == "wait" ==> EncodeAlert(s).1 == wait
    ensures alertOn in {"open", "closed", "wait"}
  {
  }

  function EncodeRow(endpoint: string, ride: RideConfig): AlertRow {
    AlertRow(endpoint, ride.rideName, EncodeAlert(ride.alertOn).0, EncodeAlert(ride.alertOn).1)
  }

  /** The rows `add_config_to_transaction` inserts: one per ride, in config order. */
  function EncodeRows(endpoint: string, rides: seq<RideConfig>): (rows: seq<AlertRow>)
    ensures |rows| == |rides|
    ensures forall i :: 0 <= i < |rides| ==> rows[i] == EncodeRow(endpoint, rides[i])
  {
    seq(|rides|, i requires 0 <= i < |rides| => EncodeRow(endpoint, rides[i]))
  }

  /** The configs of some rows, in row order; the first undecodable row panics. */
  function DecodeRows(rows: seq<AlertRow>): Result<seq<RideConfig>, Error> {
    if rows == [] then Ok([])
    else
      match DecodeAlert(rows[0].alertOn, rows[0].wait)
      case Err(e) => Err(e)
      case Ok(s) =>
        match DecodeRows(rows[1..])
        case Err(e) => Err(e)
        case Ok(rest) => Ok([RideConfig(rows[0].rideName, s)] + rest)
  }

  /** The rows written for a config read back as that config. */
  lemma {:induction false} DecodeEncodeRows(endpoint: string, rides: seq<RideConfig>)
    ensures DecodeRows(EncodeRows(endpoint, rides)) == Ok(rides)
  {
    if rides != [] {
      var rows := EncodeRows(endpoint, rides);
      assert rows[1..] == EncodeRows(endpoint, rides[1..]);
      DecodeEncodeRows(endpoint, rides[1..]);
      DecodeEncode(rides[0].alertOn);
      assert rides == [rides[0]] + rides[1..];
    }
  }

  /** `SELECT ... FROM RIDEALERTS WHERE endpoint = ?`, in table order. */
  function RowsOf(rows: seq<AlertRow>, endpoint: string): seq<AlertRow> {
    if rows == [] then []
    else (if rows[0].endpoint == endpoint then [rows[0]] else []) + RowsOf(rows[1..], endpoint)
  }

  /** `DELETE FROM RIDEALERTS WHERE endpoint = ?`. */
  function WithoutEndpoint(rows: seq<AlertRow>, endpoint: string): seq<AlertRow> {
    if rows == [] then []
    else (if rows[0].endpoint != endpoint then [rows[0]] else []) + WithoutEndpoint(rows[1..], endpoint)
  }

  lemma {:induction false} RowsOfAppend(a: seq<AlertRow>, b: seq<AlertRow>, endpoint: string)
    ensures RowsOf(a + b, endpoint) == RowsOf(a, endpoint) + RowsOf(b, endpoint)
  {
    if a == [] {
      assert a + b == b;
    } else {
      assert (a + b)[1..] == a[1..] + b;
      RowsOfAppend(a[1..], b, endpoint);
      var head := if a[0].endpoint == endpoint then [a[0]] else [];
      assert RowsOf(a + b, endpoint) == head + RowsOf(a[1..] + b, endpoint);
    }
  }

  /** The rows of a config select back for its endpoint, and for no other. */
  lemma {:induction false} RowsOfEncoded(endpoint: string, rides: seq<RideConfig>, other: string)
    ensures RowsOf(EncodeRows(endpoint, rides), endpoint) == EncodeRows(endpoint, rides)
    ensures other != endpoint ==> RowsOf(EncodeRows(endpoint, rides), other) == []
  {
    if rides != [] {
      var rows := EncodeRows(endpoint, rides);
      assert rows[1..] == EncodeRows(endpoint, rides[1..]);
      RowsOfEncoded(endpoint, rides[1..], other);
      assert rows == [rows[0]] + rows[1..];
    }
  }

  /** Deleting an endpoint's rows removes exactly those. */
  lemma {:induction false} RowsOfWithout(rows: seq<AlertRow>, endpoint: string, other: string)
    ensures RowsOf(WithoutEndpoint(rows, endpoint), endpoint) == []
    ensures other != endpoint ==> RowsOf(WithoutEndpoint(rows, endpoint), other) == RowsOf(rows, other)
  {
    if rows != [] {
      var head := if rows[0].endpoint != endpoint then [rows[0]] else [];
      RowsOfWithout(rows[1..], endpoint, other);
      RowsOfAppend(head, WithoutEndpoint(rows[1..], endpoint), endpoint);
      RowsOfAppend(head, WithoutEndpoint(rows[1..], endpoint), other);
      if head != [] {
        assert head[1..] == [];
      }
    }
  }

  // ---------------------------------------------------------------------------
  // What the tables load as

  /** Every registered endpoint has a CONFIGS row and decodable RIDEALERTS rows. */
  predicate Loadable(registrations: map<string, SubscriptionInfo>, configs: map<string, string>,
                     rows: seq<AlertRow>) {
    forall e :: e in registrations ==> e in configs && DecodeRows(RowsOf(rows, e)).Ok?
  }

  /** The cache `cache_db` builds from the tables: one registration per REGISTRATIONS row,
      with its park and its rides in row order. */
  function Loaded(registrations: map<string, SubscriptionInfo>, configs: map<string, string>,
                  rows: seq<AlertRow>): map<string, Registration>
    requires Loadable(registrations, configs, rows)
  {
    map e | e in registrations :: Registration(registrations[e], configs[e], DecodeRows(RowsOf(rows, e)).value)
  }

  /** The cache agrees with the tables: reloading them would give the cache back. */
  predicate Consistent(cache: map<string, Registration>, registrations: map<string, SubscriptionInfo>,
                       configs: map<string, string>, rows: seq<AlertRow>) {
    Loadable(registrations, configs, rows) && cache == Loaded(registrations, configs, rows)
  }

  /** Setting one endpoint's subscription, park and rows, while every other registered
      endpoint keeps its rows, keeps the tables loadable. */
  lemma LoadableAfterSet(registrations: map<string, SubscriptionInfo>, configs: map<string, string>,
                         rows: seq<AlertRow>, rows': seq<AlertRow>, reg: Registration)
    requires Loadable(registrations, configs, rows)
    requires RowsOf(rows', reg.sub.endpoint) == EncodeRows(reg.sub.endpoint, reg.rides)
    requires forall x :: x in registrations && x != reg.sub.endpoint ==> RowsOf(rows', x) == RowsOf(rows, x)
    ensures Loadable(registrations[reg.sub.endpoint := reg.sub], configs[reg.sub.endpoint := reg.park], rows')
  {
    var e := reg.sub.endpoint;
    DecodeEncodeRows(e, reg.rides);
    forall x | x in registrations[e := reg.sub]
      ensures x in configs[e := reg.park] && DecodeRows(RowsOf(rows', x)).Ok?
    {
      if x != e {
        assert x in registrations;
      }
    }
  }

  /** ... and sets that endpoint's entry in what the tables load as. */
  lemma LoadedAfterSet(registrations: map<string, SubscriptionInfo>, configs: map<string, string>,
                       rows: seq<AlertRow>, rows': seq<AlertRow>, reg: Registration)
    requires Loadable(registrations, configs, rows)
    requires RowsOf(rows', reg.sub.endpoint) == EncodeRows(reg.sub.endpoint, reg.rides)
    requires forall x :: x in registrations && x != reg.sub.endpoint ==> RowsOf(rows', x) == RowsOf(rows, x)
    ensures Loadable(registrations[reg.sub.endpoint := reg.sub], configs[reg.sub.endpoint := reg.park], rows')
    ensures Loaded(registrations[reg.sub.endpoint := reg.sub], configs[reg.sub.endpoint := reg.park], rows')
            == Loaded(registrations, configs, rows)[reg.sub.endpoint := reg]
  {
    var e := reg.sub.endpoint;
    var registrations' := registrations[e := reg.sub];
    var configs' := configs[e := reg.park];
    LoadableAfterSet(registrations, configs, rows, rows', reg);
    var loaded := Loaded(registrations', configs', rows');
    var before := Loaded(registrations, configs, rows);
    var expected := before[e := reg];
    assert loaded.Keys == expected.Keys;
    forall x | x in loaded ensures loaded[x] == expected[x] {
      if x == e {
        DecodeEncodeRows(e, reg.rides);
        assert loaded[x] == Registration(reg.sub, reg.park, DecodeRows(EncodeRows(e, reg.rides)).value);
      } else {
        assert x in registrations;
        assert loaded[x] == Registration(registrations[x], configs[x], DecodeRows(RowsOf(rows, x)).value);
      }
    }
  }

  /** Adding a new endpoint, which has no rows left in RIDEALERTS, keeps the cache
      consistent with the tables. */
  lemma AddKeepsConsistent(cache: map<string, Registration>, registrations: map<string, SubscriptionInfo>,
                           configs: map<string, string>, rows: seq<AlertRow>, reg: Registration)
    requires Consistent(cache, registrations, configs, rows)
    requires RowsOf(rows, reg.sub.endpoint) == []
    ensures Consistent(cache[reg.sub.endpoint := reg], registrations[reg.sub.endpoint := reg.sub],
                       configs[reg.sub.endpoint := reg.park], rows + EncodeRows(reg.sub.endpoint, reg.rides))
  {
    var e := reg.sub.endpoint;
    var rows' := rows + EncodeRows(e, reg.rides);
    forall x | x in registrations || x == e
      ensures RowsOf(rows', x) == (if x == e then EncodeRows(e, reg.rides) else RowsOf(rows, x))
    {
      RowsOfAppend(rows, EncodeRows(e, reg.rides), x);
      RowsOfEncoded(e, reg.rides, x);
    }
    LoadedAfterSet(registrations, configs, rows, rows', reg);
  }

  /** Updating an endpoint of consistent tables with the subscription the table already holds
      keeps the cache consistent. */
  lemma UpdateKeepsConsistent(cache: map<string, Registration>, registrations: map<string, SubscriptionInfo>,
                              configs: map<string, string>, rows: seq<AlertRow>, reg: Registration)
    requires Consistent(cache, registrations, configs, rows)
    requires reg.sub.endpoint in registrations && registrations[reg.sub.endpoint] == reg.sub
    ensures Consistent(cache[reg.sub.endpoint := reg], registrations, configs[reg.sub.endpoint := reg.park],
                       WithoutEndpoint(rows, reg.sub.endpoint) + EncodeRows(reg.sub.endpoint, reg.rides))
  {
    var e := reg.sub.endpoint;
    var rows' := WithoutEndpoint(rows, e) + EncodeRows(e, reg.rides);
    forall x | x in registrations
      ensures RowsOf(rows', x) == (if x == e then EncodeRows(e, reg.rides) else RowsOf(rows, x))
    {
      RowsOfAppend(WithoutEndpoint(rows, e), EncodeRows(e, reg.rides), x);
      RowsOfEncoded(e, reg.rides, x);
      RowsOfWithout(rows, e, x);
    }
    assert registrations[e := reg.sub] == registrations;
    LoadedAfterSet(registrations, configs, rows, rows', reg);
  }

  /** Decoded rows give one config per row. */
  lemma {:induction false} DecodeRowsLength(rows: seq<AlertRow>)
    requires DecodeRows(rows).Ok?
    ensures |DecodeRows(rows).value| == |rows|
  {
    if rows != [] {
      DecodeRowsLength(rows[1..]);
    }
  }

  /** `add_registration` appends the new rows after whatever RIDEALERTS still holds for the
      endpoint, so the cache stays consistent exactly when no rows are left for it. */
  lemma AddConsistentIff(cache: map<string, Registration>, registrations: map<string, SubscriptionInfo>,
                         configs: map<string, string>, rows: seq<AlertRow>, reg: Registration)
    requires Consistent(cache, registrations, configs, rows)
    ensures Consistent(cache[reg.sub.endpoint := reg], registrations[reg.sub.endpoint := reg.sub],
                       configs[reg.sub.endpoint := reg.park], rows + EncodeRows(reg.sub.endpoint, reg.rides))
            <==> RowsOf(rows, reg.sub.endpoint) == []
  {
    var e := reg.sub.endpoint;
    var rows' := rows + EncodeRows(e, reg.rides);
    if RowsOf(rows, e) == [] {
      AddKeepsConsistent(cache, registrations, configs, rows, reg);
    } else if Loadable(registrations[e := reg.sub], configs[e := reg.park], rows') {
      // the reloaded entry has the leftover rides before the new ones
      RowsOfAppend(rows, EncodeRows(e, reg.rides), e);
      RowsOfEncoded(e, reg.rides, e);
      DecodeRowsLength(RowsOf(rows', e));
      assert |Loaded(registrations[e := reg.sub], configs[e := reg.park], rows')[e].rides| > |reg.rides|;
    }
  }

  /** Removing a registration that has rides, then adding the same endpoint again with a
      successful `add_registration`, leaves a cache the tables no longer load as: the old
      RIDEALERTS rows are still there and come back on the next load. */
  lemma RemoveThenAddDiverges(cache: map<string, Registration>, registrations: map<string, SubscriptionInfo>,
                              configs: map<string, string>, rows: seq<AlertRow>, reg: Registration)
    requires Consistent(cache, registrations, configs, rows)
    requires reg.sub.endpoint in cache && cache[reg.sub.endpoint].rides != []
    ensures var e := reg.sub.endpoint;
            !Consistent((cache - {e})[e := reg], (registrations - {e})[e := reg.sub],
                        configs[e := reg.park], rows + EncodeRows(e, reg.rides))
  {
    var e := reg.sub.endpoint;
    assert cache[e].rides == DecodeRows(RowsOf(rows, e)).value;
    DecodeRowsLength(RowsOf(rows, e));
    RemoveKeepsConsistent(cache, registrations, configs, rows, e);
    AddConsistentIff(cache - {e}, registrations - {e}, configs, rows, reg);
  }

  /** `update_registration` does not rewrite REGISTRATIONS, so updating a cached endpoint
      keeps the cache consistent exactly when the new subscription is the stored one. */
  lemma UpdateConsistentIff(cache: map<string, Registration>, registrations: map<string, SubscriptionInfo>,
                            configs: map<string, string>, rows: seq<AlertRow>, reg: Registration)
    requires Consistent(cache, registrations, configs, rows)
    requires reg.sub.endpoint in cache
    ensures Consistent(cache[reg.sub.endpoint := reg], registrations, configs[reg.sub.endpoint := reg.park],
                       WithoutEndpoint(rows, reg.sub.endpoint) + EncodeRows(reg.sub.endpoint, reg.rides))
            <==> registrations[reg.sub.endpoint] == reg.sub
  {
    var e := reg.sub.endpoint;
    assert e in registrations;
    if registrations[e] == reg.sub {
      UpdateKeepsConsistent(cache, registrations, configs, rows, reg);
    }
  }

  /** Removing the REGISTRATIONS row and the cache entry of an endpoint keeps them
      consistent, whatever rows the other tables still hold for it. */
  lemma RemoveKeepsConsistent(cache: map<string, Registration>, registrations: map<string, SubscriptionInfo>,
                              configs: map<string, string>, rows: seq<AlertRow>, endpoint: string)
    requires Consistent(cache, registrations, configs, rows)
    ensures Consistent(cache - {endpoint}, registrations - {endpoint}, configs, rows)
  {
    assert cache - {endpoint} == Loaded(registrations - {endpoint}, configs, rows);
  }

  /** Removing the cached endpoints of a set, one after another in any order, keeps the cache
      and the tables consistent. */
  lemma RemoveSetKeepsConsistent(cache: map<string, Registration>, registrations: map<string, SubscriptionInfo>,
                                 configs: map<string, string>, rows: seq<AlertRow>, s: set<string>)
    requires Consistent(cache, registrations, configs, rows)
    ensures Consistent(cache - s, registrations - (s * cache.Keys), configs, rows)
  {
    var g := registrations - (s * cache.Keys);
    assert cache.Keys == registrations.Keys;
    assert g.Keys == registrations.Keys - s;
    assert Loadable(g, configs, rows);
    assert cache - s == Loaded(g, configs, rows);
  }

  // ---------------------------------------------------------------------------
  // The repository

  /** `add_config_to_transaction`: inserts one row per ride, in config order, into the
      transaction's copy of RIDEALERTS; statement `first + i` inserts ride `i`. */
  method AddConfigToTransaction(reg: Registration, rows: seq<AlertRow>, first: nat, failAt: Option<nat>)
    returns (out: seq<AlertRow>, err: Option<Error>)
    ensures err.None? <==> !(failAt.Some? && first <= failAt.value < first + |reg.rides|)
    ensures err.Some? ==> err == Some(Db(failAt.value))
    ensures err.None? ==> out == rows + EncodeRows(reg.sub.endpoint, reg.rides)
  {
    out := rows;
    for i := 0 to |reg.rides|
      invariant out == rows + EncodeRows(reg.sub.endpoint, reg.rides[..i])
      invariant !(failAt.Some? && first <= failAt.value < first + i)
    {
      if FailsAt(failAt, first + i) {
        return out, Some(Db(first + i));
      }
      assert EncodeRows(reg.sub.endpoint, reg.rides[..i + 1])
          == EncodeRows(reg.sub.endpoint, reg.rides[..i]) + [EncodeRow(reg.sub.endpoint, reg.rides[i])];
      out := out + [EncodeRow(reg.sub.endpoint, reg.rides[i])];
    }
    assert reg.rides[..|reg.rides|] == reg.rides;
    err := None;
  }

  class Repository {
    /** Endpoint to registration. */
    var cache: map<string, Registration>
    /** REGISTRATIONS: endpoint to the stored subscription. */
    var registrations: map<string, SubscriptionInfo>
    /** CONFIGS: endpoint to park. */
    var configs: map<string, string>
    /** RIDEALERTS, in table order. */
    var rideAlerts: seq<AlertRow>

    /** A repository over the given tables with the cache `cache_db` built from them. */
    constructor(cache0: map<string, Registration>, registrations0: map<string, SubscriptionInfo>,
                configs0: map<string, string>, rows0: seq<AlertRow>)
      ensures cache == cache0 && registrations == registrations0 && configs == configs0 && rideAlerts == rows0
    {
      cache := cache0;
      registrations := registrations0;
      configs := configs0;
      rideAlerts := rows0;
    }

    /** `get_current_user_count`: counted in the cache, it is the number of REGISTRATIONS
        rows whenever the cache agrees with the tables. */
    function UserCount(): (r: nat)
      reads this
      ensures Consistent(cache, registrations, configs, rideAlerts) ==> r == |registrations|
    {
      assert Consistent(cache, registrations, configs, rideAlerts) ==> cache.Keys == registrations.Keys;
      |cache|
    }

    /** `endpoint_is_registered`: looked up in the cache, it is membership in REGISTRATIONS
        whenever the cache agrees with the tables. */
    function IsRegistered(endpoint: string): (r: bool)
      reads this
      ensures Consistent(cache, registrations, configs, rideAlerts) ==> (r <==> endpoint in registrations)
    {
      assert Consistent(cache, registrations, configs, rideAlerts) ==> cache.Keys == registrations.Keys;
      endpoint in cache
    }

    /** `add_registration`. Statement 0 begins the transaction, 1 and 2 insert the
        subscription and the park, the next ones insert the rides, and the last commits.
        Only a committed transaction touches the tables, and only then is the cache set. */
    method AddRegistration(reg: Registration, failAt: Option<nat>) returns (err: Option<Error>)
      modifies this
      ensures err.None? <==> !(failAt.Some? && failAt.value <= |reg.rides| + 3)
      ensures err.None? ==> && registrations == old(registrations)[reg.sub.endpoint := reg.sub]
                            && configs == old(configs)[reg.sub.endpoint := reg.park]
                            && rideAlerts == old(rideAlerts) + EncodeRows(reg.sub.endpoint, reg.rides)
                            && cache == old(cache)[reg.sub.endpoint := reg]
      ensures err.Some? ==> && registrations == old(registrations) && configs == old(configs)
                            && rideAlerts == old(rideAlerts) && cache == old(cache)
    {
      var e := reg.sub.endpoint;
      if FailsAt(failAt, 0) { return Some(Db(0)); }
      if FailsAt(failAt, 1) { return Some(Db(1)); }
      var transRegistrations := registrations[e := reg.sub];
      if FailsAt(failAt, 2) { return Some(Db(2)); }
      var transConfigs := configs[e := reg.park];
      var transRows, rideErr := AddConfigToTransaction(reg, rideAlerts, 3, failAt);
      if rideErr.Some? { return rideErr; }
      if FailsAt(failAt, |reg.rides| + 3) { return Some(Db(|reg.rides| + 3)); }
      registrations, configs, rideAlerts := transRegistrations, transConfigs, transRows;
      cache := cache[e := reg];
      err := None;
    }

    /** `update_registration`. Statement 0 begins, 1 sets the park, 2 deletes the endpoint's
        ride rows, the next ones insert the new rides in config order, and the last commits.
        REGISTRATIONS is not rewritten. */
    method UpdateRegistration(reg: Registration, failAt: Option<nat>) returns (err: Option<Error>)
      modifies this
      ensures err.None? <==> !(failAt.Some? && failAt.value <= |reg.rides| + 3)
      ensures err.None? ==> && registrations == old(registrations)
                            && configs == (if reg.sub.endpoint in old(configs)
                                           then old(configs)[reg.sub.endpoint := reg.park] else old(configs))
                            && rideAlerts == WithoutEndpoint(old(rideAlerts), reg.sub.endpoint)
                                             + EncodeRows(reg.sub.endpoint, reg.rides)
                            && cache == old(cache)[reg.sub.endpoint := reg]
      ensures err.Some? ==> && registrations == old(registrations) && configs == old(configs)
                            && rideAlerts == old(rideAlerts) && cache == old(cache)
    {
      var e := reg.sub.endpoint;
      if FailsAt(failAt, 0) { return Some(Db(0)); }
      if FailsAt(failAt, 1) { return Some(Db(1)); }
      var transConfigs := if e in configs then configs[e := reg.park] else configs;
      if FailsAt(failAt, 2) { return Some(Db(2)); }
      var kept := WithoutEndpoint(rideAlerts, e);
      var transRows, rideErr := AddConfigToTransaction(reg, kept, 3, failAt);
      if rideErr.Some? { return rideErr; }
      if FailsAt(failAt, |reg.rides| + 3) { return Some(Db(|reg.rides| + 3)); }
      configs, rideAlerts := transConfigs, transRows;
      cache := cache[e := reg];
      err := None;
    }

    /** `add_or_update_registration`: updates a cached endpoint, adds any other. Starting
        from a consistent cache, the result stays consistent exactly when an add finds no
        RIDEALERTS rows left for the endpoint, or an update brings the stored subscription. */
    method AddOrUpdateRegistration(reg: Registration, failAt: Option<nat>) returns (err: Option<Error>, updated: bool)
      modifies this
      ensures updated <==> reg.sub.endpoint in old(cache)
      ensures err.None? <==> !(failAt.Some? && failAt.value <= |reg.rides| + 3)
      ensures err.None? ==> cache == old(cache)[reg.sub.endpoint := reg]
      ensures err.None? && !updated ==> && registrations == old(registrations)[reg.sub.endpoint := reg.sub]
                                        && configs == old(configs)[reg.sub.endpoint := reg.park]
                                        && rideAlerts == old(rideAlerts) + EncodeRows(reg.sub.endpoint, reg.rides)
      ensures err.None? && updated ==> && registrations == old(registrations)
                                       && configs == (if reg.sub.endpoint in old(configs)
                                                      then old(configs)[reg.sub.endpoint := reg.park] else old(configs))
                                       && rideAlerts == WithoutEndpoint(old(rideAlerts), reg.sub.endpoint)
                                                        + EncodeRows(reg.sub.endpoint, reg.rides)
      ensures err.Some? ==> && registrations == old(registrations) && configs == old(configs)
                            && rideAlerts == old(rideAlerts) && cache == old(cache)
      ensures err.None? && old(Consistent(cache, registrations, configs, rideAlerts)) ==>
                (Consistent(cache, registrations, configs, rideAlerts)
                 <==> if updated then old(registrations)[reg.sub.endpoint] == reg.sub
                      else RowsOf(old(rideAlerts), reg.sub.endpoint) == [])
    {
      ghost var cache0, registrations0, configs0, rows0 := cache, registrations, configs, rideAlerts;
      if IsRegistered(reg.sub.endpoint) {
        updated := true;
        err := UpdateRegistration(reg, failAt);
        if err.None? && Consistent(cache0, registrations0, configs0, rows0) {
          assert reg.sub.endpoint in configs0;
          UpdateConsistentIff(cache0, registrations0, configs0, rows0, reg);
        }
      } else {
        updated := false;
        err := AddRegistration(reg, failAt);
        if err.None? && Consistent(cache0, registrations0, configs0, rows0) {
          AddConsistentIff(cache0, registrations0, configs0, rows0, reg);
        }
      }
    }

    /** `remove_registration`: for a cached endpoint, deletes its REGISTRATIONS row (statement
        0) and its cache entry and answers true; otherwise answers false and changes nothing. */
    method RemoveRegistration(endpoint: string, failAt: Option<nat>) returns (r: Result<bool, Error>)
      modifies this
      ensures r == Ok(true) <==> endpoint in old(cache) && !FailsAt(failAt, 0)
      ensures r == Ok(false) <==> endpoint !in old(cache)
      ensures r == Ok(true) ==> cache == old(cache) - {endpoint} && registrations == old(registrations) - {endpoint}
      ensures r != Ok(true) ==> cache == old(cache) && registrations == old(registrations)
      ensures configs == old(configs) && rideAlerts == old(rideAlerts)
    {
      if IsRegistered(endpoint) {
        if FailsAt(failAt, 0) {
          return Err(Db(0));
        }
        registrations := registrations - {endpoint};
        cache := cache - {endpoint};
        return Ok(true);
      }
      return Ok(false);
    }
  }

  /** `cache_db`: reads every REGISTRATIONS row (in an unspecified order), its CONFIGS row and
      its RIDEALERTS rows, and builds the cache; a missing park or an undecodable row ends
      the load. */
  method CacheDb(registrations: map<string, SubscriptionInfo>, configs: map<string, string>, rows: seq<AlertRow>)
    returns (r: Result<map<string, Registration>, Error>)
    ensures r.Ok? <==> Loadable(registrations, configs, rows)
    ensures r.Ok? ==> r.value == Loaded(registrations, configs, rows)
  {
    var cache: map<string, Registration> := map[];
    var todo := registrations.Keys;
    while todo != {}
      invariant todo <= registrations.Keys
      invariant cache.Keys == registrations.Keys - todo
      invariant forall e :: e in cache ==>
                  (e in configs && DecodeRows(RowsOf(rows, e)).Ok?
                   && cache[e] == Registration(registrations[e], configs[e], DecodeRows(RowsOf(rows, e)).value))
      decreases |todo|
    {
      var e :| e in todo;
      if e !in configs {
        return Err(RowNotFound(e));
      }
      var rides := DecodeRows(RowsOf(rows, e));
      if rides.Err? {
        return Err(rides.error);
      }
      cache := cache[e := Registration(registrations[e], configs[e], rides.value)];
      todo := todo - {e};
    }
    return Ok(cache);
  }

  /** After a load, the repository is consistent with its tables; a successful add of an
      endpoint with no rows left, a successful update with the stored subscription, and a
      remove, each keep it so. */
  method LoadedRepositoryStaysConsistent(registrations: map<string, SubscriptionInfo>, configs: map<string, string>,
                                         rows: seq<AlertRow>, reg: Registration, failAt: Option<nat>)
    returns (repo: Repository?)
    ensures repo != null ==> Consistent(repo.cache, repo.registrations, repo.configs, repo.rideAlerts)
  {
    var loaded := CacheDb(registrations, configs, rows);
    if loaded.Err? {
      return null;
    }
    repo := new Repository(loaded.value, registrations, configs, rows);
    if reg.sub.endpoint !in repo.cache && RowsOf(repo.rideAlerts, reg.sub.endpoint) == [] {
      AddKeepsConsistent(repo.cache, repo.registrations, repo.configs, repo.rideAlerts, reg);
      var err := repo.AddRegistration(reg, failAt);
    } else if reg.sub.endpoint in repo.registrations && repo.registrations[reg.sub.endpoint] == reg.sub {
      UpdateKeepsConsistent(repo.cache, repo.registrations, repo.configs, repo.rideAlerts, reg);
      var err := repo.UpdateRegistration(reg, failAt);
    }
    RemoveKeepsConsistent(repo.cache, repo.registrations, repo.configs, repo.rideAlerts, reg.sub.endpoint);
    var removed := repo.RemoveRegistration(reg.sub.endpoint, failAt);
  }
}
