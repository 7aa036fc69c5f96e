/** The reducer behind the web client's config context
    (queue_alert_frontend/app/src/components/ConfigReducer.ts): a pure state machine over the
    alert config `(park, rides)`. */
module ConfigReducer {
  import opened Wrappers
  import opened AlertConfig
  import Seqs

  /** The action types the reducer knows, and any other. */
  datatype ActionType = AddRide | RemoveRide | Reset | ChangePark | LoadConfig | OtherType

  /** An action: its type and the optional ride, park and old config it carries. */
  datatype Action = Action(kind: ActionType, ride: Option<RideRule>, park: Option<string>, oldConfig: Option<Config>)

  /** `initConfig`: no park chosen, no rides; its ride names are trivially unique, the invariant
      `KeepsUniqueNames` carries through every edit. */
  function InitConfig(): (r: Config)
    ensures UniqueNames(r.rides)
  {
    Config("none", [])
  }

  /** `===` on two `alertOn` values: the strings "Open" and "Closed" compare by value, but a
      `{wait}` object is compared by reference, and the action's object is never the one held
      in the state; so two wait rules are never equal. */
  predicate StrictEq(a: AlertOn, b: AlertOn) {
    (a.OnOpen? && b.OnOpen?) || (a.OnClosed? && b.OnClosed?)
  }

  /** `rides.filter(r => r.rideName !== name)`. */
  function WithoutName(rides: seq<RideRule>, name: string): (r: seq<RideRule>)
    ensures Seqs.IsSubsequence(r, rides)
    ensures forall i :: 0 <= i < |r| ==> r[i].rideName != name
    ensures forall i :: 0 <= i < |rides| && rides[i].rideName != name ==> rides[i] in r
    ensures forall e :: multiset(r)[e] == if e.rideName == name then 0 else multiset(rides)[e]
  {
    if rides == [] then []
    else
      var rest := WithoutName(rides[1..], name);
      assert forall i :: 1 <= i < |rides| ==> rides[i] == rides[1..][i - 1];
      assert multiset(rides) == multiset{rides[0]} + multiset(rides[1..]) by {
        assert rides == [rides[0]] + rides[1..];
      }
      if rides[0].rideName != name then
        Seqs.SubsequenceCons(rides[0], rest, rides[1..]);
        assert [rides[0]] + rides[1..] == rides;
        [rides[0]] + rest
      else
        Seqs.SubsequenceSkip(rides[0], rest, rides[1..]);
        assert [rides[0]] + rides[1..] == rides;
        rest
  }

  /** Some ride of the state has the action's name and an alertOn that is `===` to its. */
  predicate AlreadyPresent(rides: seq<RideRule>, ride: RideRule) {
    exists i :: 0 <= i < |rides| && rides[i].rideName == ride.rideName && StrictEq(rides[i].alertOn, ride.alertOn)
  }

  /** `reducer(state, action)`. Only a park change, a load or a reset changes the park, and
      adding or removing a ride leaves only rides that were in the state or are the action's. */
  function Reduce(state: Config, action: Action): (r: Config)
    ensures action.kind in {AddRide, RemoveRide, OtherType} ==> r.park == state.park
    ensures action.kind in {AddRide, RemoveRide} ==>
              forall i :: 0 <= i < |r.rides| ==> r.rides[i] in state.rides || action.ride == Some(r.rides[i])
  {
    match action.kind
    case AddRide =>
      if action.ride.None? then state
      else if AlreadyPresent(state.rides, action.ride.value) then state
      else
        var kept := WithoutName(state.rides, action.ride.value.rideName);
        Seqs.SubsequenceMembers(kept, state.rides);
        Config(state.park, kept + [action.ride.value])
    case RemoveRide =>
      if action.ride.None? then state
      else
        var kept := WithoutName(state.rides, action.ride.value.rideName);
        Seqs.SubsequenceMembers(kept, state.rides);
        Config(state.park, kept)
    case ChangePark =>
      if action.park.None? then state
      else Config(action.park.value, if action.ride.Some? then [action.ride.value] else [])
    case LoadConfig =>
      if action.oldConfig.None? then state else action.oldConfig.value
    case Reset => InitConfig()
    case OtherType => state
  }

  /** The initial state is `["none", []]`, and `reset` brings any state back to it. */
  lemma ResetIsInit(state: Config, action: Action)
    requires action.kind == Reset
    ensures Reduce(state, action) == Config("none", [])
    ensures Reduce(state, action) == InitConfig()
  {
  }

  /** An action that is missing what it needs, or of an unknown type, leaves the state as it is. */
  lemma MissingPartsLeaveState(state: Config, action: Action)
    requires || (action.kind in {AddRide, RemoveRide} && action.ride.None?)
             || (action.kind == ChangePark && action.park.None?)
             || (action.kind == LoadConfig && action.oldConfig.None?)
             || action.kind == OtherType
    ensures Reduce(state, action) == state
  {
  }

  /** Adding a ride that is already there with an `===` alertOn changes nothing; this happens
      only for "Open" and "Closed" rules. */
  lemma AddPresentRide(state: Config, ride: RideRule, action: Action)
    requires action.kind == AddRide && action.ride == Some(ride)
    requires exists i :: 0 <= i < |state.rides| && state.rides[i].rideName == ride.rideName && state.rides[i].alertOn == ride.alertOn
    requires !ride.alertOn.WaitAtMost?
    ensures Reduce(state, action) == state
  {
    var i :| 0 <= i < |state.rides| && state.rides[i].rideName == ride.rideName && state.rides[i].alertOn == ride.alertOn;
    assert StrictEq(state.rides[i].alertOn, ride.alertOn);
  }

  /** Otherwise adding a ride keeps the park, drops every entry with the ride's name, keeps the
      other entries in their order, and puts the new ride last. */
  lemma AddRideResult(state: Config, ride: RideRule, action: Action)
    requires action.kind == AddRide && action.ride == Some(ride)
    requires !AlreadyPresent(state.rides, ride)
    ensures var r := Reduce(state, action);
      && r.park == state.park
      && |r.rides| > 0 && r.rides[|r.rides| - 1] == ride
      && Seqs.IsSubsequence(r.rides[..|r.rides| - 1], state.rides)
      && (forall i :: 0 <= i < |r.rides| - 1 ==> r.rides[i].rideName != ride.rideName)
      && (forall i :: 0 <= i < |state.rides| && state.rides[i].rideName != ride.rideName ==> state.rides[i] in r.rides)
      && (forall e :: multiset(r.rides[..|r.rides| - 1])[e]
                       == if e.rideName == ride.rideName then 0 else multiset(state.rides)[e])
  {
    var kept := WithoutName(state.rides, ride.rideName);
    var r := Reduce(state, action);
    assert r.rides == kept + [ride];
    assert r.rides[..|r.rides| - 1] == kept;
  }

  /** A wait rule is never found already present, so adding it always replaces the ride's entry. */
  lemma AddWaitRuleReplaces(state: Config, name: string, w: int, action: Action)
    requires action.kind == AddRide && action.ride == Some(RideRule(name, WaitAtMost(w)))
    ensures Reduce(state, action).rides == WithoutName(state.rides, name) + [RideRule(name, WaitAtMost(w))]
  {
  }

  /** Removing a ride looks only at its name: it keeps the park and drops exactly the entries
      with that name, keeping the others in order. */
  lemma RemoveRideResult(state: Config, ride: RideRule, action: Action)
    requires action.kind == RemoveRide && action.ride == Some(ride)
    ensures var r := Reduce(state, action);
      && r.park == state.park
      && Seqs.IsSubsequence(r.rides, state.rides)
      && (forall i :: 0 <= i < |r.rides| ==> r.rides[i].rideName != ride.rideName)
      && (forall i :: 0 <= i < |state.rides| && state.rides[i].rideName != ride.rideName ==> state.rides[i] in r.rides)
      && (forall e :: multiset(r.rides)[e] == if e.rideName == ride.rideName then 0 else multiset(state.rides)[e])
    ensures forall other: Action :: other.kind == RemoveRide && other.ride.Some? && other.ride.value.rideName == ride.rideName ==>
              Reduce(state, other) == Reduce(state, action)
  {
  }

  /** Changing the park resets the rides to the action's ride alone, or to none. */
  lemma ChangeParkResult(state: Config, park: string, action: Action)
    requires action.kind == ChangePark && action.park == Some(park)
    ensures Reduce(state, action).park == park
    ensures action.ride.None? ==> Reduce(state, action).rides == []
    ensures action.ride.Some? ==> Reduce(state, action).rides == [action.ride.value]
  {
  }

  /** Loading a config returns it as it is. */
  lemma LoadConfigResult(state: Config, loaded: Config, action: Action)
    requires action.kind == LoadConfig && action.oldConfig == Some(loaded)
    ensures Reduce(state, action) == loaded
  {
  }

  /** Dropping a name from rules with unique names leaves them unique. */
  lemma {:induction false} WithoutNameKeepsUnique(rides: seq<RideRule>, name: string)
    requires UniqueNames(rides)
    ensures UniqueNames(WithoutName(rides, name))
  {
    if rides != [] {
      WithoutNameKeepsUnique(rides[1..], name);
      var rest := WithoutName(rides[1..], name);
      if rides[0].rideName != name {
        Seqs.SubsequenceMembers(rest, rides[1..]);
        forall j | 0 <= j < |rest| ensures rest[j].rideName != rides[0].rideName {
          assert rest[j] in rides[1..];
        }
        var r := [rides[0]] + rest;
        assert WithoutName(rides, name) == r;
        forall i, j | 0 <= i < j < |r| ensures r[i].rideName != r[j].rideName {
          if i > 0 {
            assert r[i] == rest[i - 1] && r[j] == rest[j - 1];
          } else {
            assert r[j] == rest[j - 1];
          }
        }
      }
    }
  }

  /** Adding, removing, changing the park and resetting keep ride names unique. */
  lemma KeepsUniqueNames(state: Config, action: Action)
    requires action.kind in {AddRide, RemoveRide, ChangePark, Reset}
    requires UniqueNames(state.rides)
    ensures UniqueNames(Reduce(state, action).rides)
  {
    if action.kind in {AddRide, RemoveRide} && action.ride.Some? {
      var name := action.ride.value.rideName;
      WithoutNameKeepsUnique(state.rides, name);
      if action.kind == AddRide && !AlreadyPresent(state.rides, action.ride.value) {
        var kept := WithoutName(state.rides, name);
        var r := kept + [action.ride.value];
        forall i, j | 0 <= i < j < |r| ensures r[i].rideName != r[j].rideName {
          if j < |kept| {
            assert r[i] == kept[i] && r[j] == kept[j];
          } else {
            assert r[i] == kept[i];
          }
        }
      }
    }
  }

  /** Dropping a name twice is dropping it once. */
  lemma {:induction false} WithoutNameIdempotent(rides: seq<RideRule>, name: string)
    ensures WithoutName(WithoutName(rides, name), name) == WithoutName(rides, name)
  {
    if rides != [] {
      WithoutNameIdempotent(rides[1..], name);
      var rest := WithoutName(rides[1..], name);
      if rides[0].rideName != name {
        var r := [rides[0]] + rest;
        assert r[1..] == rest;
      }
    }
  }

  /** A ride with the dropped name appended is dropped too. */
  lemma {:induction false} WithoutNameAppended(rides: seq<RideRule>, ride: RideRule)
    ensures WithoutName(rides + [ride], ride.rideName) == WithoutName(rides, ride.rideName)
  {
    if rides == [] {
      assert ([] + [ride])[1..] == [];
    } else {
      assert (rides + [ride])[1..] == rides[1..] + [ride];
      WithoutNameAppended(rides[1..], ride);
    }
  }

  /** Sending the same addRide or removeRide twice is sending it once. */
  lemma AddRemoveIdempotent(state: Config, action: Action)
    requires action.kind in {AddRide, RemoveRide}
    ensures Reduce(Reduce(state, action), action) == Reduce(state, action)
  {
    if action.ride.Some? {
      var ride := action.ride.value;
      var once := Reduce(state, action);
      if action.kind == RemoveRide {
        WithoutNameIdempotent(state.rides, ride.rideName);
      } else if !AlreadyPresent(state.rides, ride) {
        var kept := WithoutName(state.rides, ride.rideName);
        assert once.rides == kept + [ride];
        if AlreadyPresent(once.rides, ride) {
        } else {
          WithoutNameAppended(kept, ride);
          WithoutNameIdempotent(state.rides, ride.rideName);
        }
      }
    }
  }
}
