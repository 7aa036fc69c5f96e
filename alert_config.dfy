/** The types the web client shares between its pages and its service workers
    (queue_alert_frontend/app/src/api/alertConfig.ts and the `rideTime` record of
    queueAlertAccess.ts), and the alert rule both service workers apply to a pushed ride. */
module AlertConfig {
  import opened Wrappers
  import opened Text

  /** `rideTime.status`: "Open", "Closed" or `{Wait: n}` minutes. */
  datatype Status = Open | Closed | Wait(minutes: int)

  /** `rideTime`: a ride's status as the server pushes it. */
  datatype RideRecord = RideRecord(name: string, status: Status)

  /** `rideConfig.alertOn`: alert when the ride opens, when it closes, or when the wait is at
      most some minutes (`{wait: n}`). */
  datatype AlertOn = OnOpen | OnClosed | WaitAtMost(wait: int)

  /** `rideConfig`: one ride to alert on. */
  datatype RideRule = RideRule(rideName: string, alertOn: AlertOn)

  /** `AlertConfig`: the park and the rides to alert on. */
  datatype Config = Config(park: string, rides: seq<RideRule>)

  /** The index of the first record named `name` (`payload.find(r => r.name === name)`),
      or `|payload|` when there is none. */
  function FindIndex(payload: seq<RideRecord>, name: string): (k: nat)
    ensures k <= |payload|
    ensures k < |payload| ==> payload[k].name == name
    ensures forall j :: 0 <= j < k ==> payload[j].name != name
  {
    if payload == [] then 0
    else if payload[0].name == name then 0
    else 1 + FindIndex(payload[1..], name)
  }

  /** The first record named `name`, if any. */
  function FindRecord(payload: seq<RideRecord>, name: string): (r: Option<RideRecord>)
    ensures r.None? <==> forall j :: 0 <= j < |payload| ==> payload[j].name != name
    ensures r.Some? ==> r.value == payload[FindIndex(payload, name)]
  {
    var k := FindIndex(payload, name);
    if k < |payload| then Some(payload[k]) else None
  }

  /** Does a rule fire on a status? An Open rule on anything but Closed, a Closed rule on
      Closed only, a wait rule on a wait of at most its minutes. */
  predicate Fires(on: AlertOn, status: Status) {
    match on
    case OnOpen => status != Closed
    case OnClosed => status == Closed
    case WaitAtMost(w) => status.Wait? && status.minutes <= w
  }

  /** The text of the alert for ride `name` when its rule fires on `status`. */
  function AlertBody(name: string, on: AlertOn, status: Status): (r: Option<string>)
    ensures r.Some? <==> Fires(on, status)
    ensures r.Some? ==> StartsWith(r.value, name)
  {
    match on
    case OnOpen =>
      if status == Closed then None
      else if status.Wait? then Some(name + " is Open with a wait of " + IntToString(status.minutes) + " minutes!")
      else Some(name + " is Open!")
    case OnClosed =>
      if status == Closed then Some(name + " is Closed!") else None
    case WaitAtMost(w) =>
      if status.Wait? && status.minutes <= w then Some(name + "'s wait is " + IntToString(status.minutes) + " minutes!")
      else None
  }

  /** An alert on a wait names the minutes: the body holds the printed number right after
      the ride's name and the phrase of the rule that fired. */
  lemma AlertBodyShowsWait(name: string, on: AlertOn, n: int)
    requires Fires(on, Wait(n))
    ensures OccursAt(AlertBody(name, on, Wait(n)).value, IntToString(n),
                     |name| + (if on.OnOpen? then |" is Open with a wait of "| else |"'s wait is "|))
  {
    var body := AlertBody(name, on, Wait(n)).value;
    var mid := if on.OnOpen? then " is Open with a wait of " else "'s wait is ";
    assert body == name + mid + IntToString(n) + " minutes!";
    var i := |name| + |mid|;
    assert body[i..i + |IntToString(n)|] == IntToString(n);
  }

  /** The text that follows the ride's name in a fired alert. */
  function AfterName(on: AlertOn, status: Status): string {
    if status == Closed then " is Closed!"
    else if !status.Wait? then " is Open!"
    else if on.OnOpen? then " is Open with a wait of " + IntToString(status.minutes) + " minutes!"
    else "'s wait is " + IntToString(status.minutes) + " minutes!"
  }

  /** A fired alert is the ride's name followed by `AfterName`. */
  lemma AlertBodySplit(name: string, on: AlertOn, status: Status)
    requires Fires(on, status)
    ensures AlertBody(name, on, status) == Some(name + AfterName(on, status))
  {
    if status.Wait? {
      var n := IntToString(status.minutes);
      var mid := if on.OnOpen? then " is Open with a wait of " else "'s wait is ";
      assert name + mid + n + " minutes!" == name + (mid + n + " minutes!");
    }
  }

  /** Two alerts for one ride differ whenever their statuses differ or what fired them was of
      another kind: the body shows the status (Open, Closed or the minutes of a wait) and
      whether an Open rule or a wait rule fired; only a wait rule's threshold is not shown. */
  lemma AlertBodiesDistinguish(name: string, on1: AlertOn, s1: Status, on2: AlertOn, s2: Status)
    requires AlertBody(name, on1, s1).Some? && AlertBody(name, on1, s1) == AlertBody(name, on2, s2)
    ensures s1 == s2
    ensures on1.OnOpen? <==> on2.OnOpen?
    ensures !s1.Wait? ==> on1 == on2
  {
    AlertBodySplit(name, on1, s1);
    AlertBodySplit(name, on2, s2);
    var t1, t2 := AfterName(on1, s1), AfterName(on2, s2);
    assert t1 == t2 by {
      assert (name + t1)[|name|..] == t1 && (name + t2)[|name|..] == t2;
    }
    AfterNameMarks(on1, s1);
    AfterNameMarks(on2, s2);
    assert t1[0] == t2[0] && t1[4] == t2[4] && t1[8] == t2[8];
    if s1.Wait? {
      var mid := if on1.OnOpen? then " is Open with a wait of " else "'s wait is ";
      var n1, n2 := IntToString(s1.minutes), IntToString(s2.minutes);
      assert t1 == mid + n1 + " minutes!" && t2 == mid + n2 + " minutes!";
      assert |n1| == |n2|;
      assert t1[|mid|..|mid| + |n1|] == n1 && t2[|mid|..|mid| + |n2|] == n2;
      IntToStringInjective(s1.minutes, s2.minutes);
    }
  }

  /** The characters of `AfterName` that tell its phrases apart: the first is an apostrophe
      only for a wait rule's phrase, the fifth is 'C' only for Closed, and the ninth is '!'
      only for a plain Open. */
  lemma AfterNameMarks(on: AlertOn, status: Status)
    ensures |AfterName(on, status)| >= 9
    ensures AfterName(on, status)[0] == '\'' <==> status.Wait? && !on.OnOpen?
    ensures AfterName(on, status)[4] == 'C' <==> status == Closed
    ensures AfterName(on, status)[8] == '!' <==> status == Open
  {
    var t := AfterName(on, status);
    if status.Wait? {
      var mid := if on.OnOpen? then " is Open with a wait of " else "'s wait is ";
      assert t == mid + (IntToString(status.minutes) + " minutes!");
      assert t[..9] == mid[..9];
    }
  }

  /** Names in rules are unique. */
  predicate UniqueNames(rules: seq<RideRule>) {
    forall i, j :: 0 <= i < j < |rules| ==> rules[i].rideName != rules[j].rideName
  }
}
