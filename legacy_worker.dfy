/** The older service worker (queue_alert_frontend/app/src/api/serviceWorker.ts): the same alert
    rule as the newer worker, but a wait rule holds a bare number of minutes, the config lives
    in a variable of the worker rather than in a store, and the notifications carry only a
    title and a body.

    The handler walks `Object.entries(config ?? [])`, that is the park string (entry "0") and
    the rule list (entry "1"). The characters of the park string have no `rideName`, so no
    record matches them and the walk amounts to walking the rule list; the model walks the
    rule list. */
module LegacyWorker {
  import opened Wrappers
  import opened Text
  import opened AlertConfig
  import ServiceWorker

  /** `alertOn` of the older rules: "Open", "Closed" or a number of minutes. */
  datatype LegacyAlertOn = AlertOpen | AlertClosed | AtMost(minutes: int)

  datatype LegacyRule = LegacyRule(rideName: string, alertOn: LegacyAlertOn)

  datatype LegacyConfig = LegacyConfig(park: string, rides: seq<LegacyRule>)

  /** A notification of the older worker: a title and a body, nothing else. */
  datatype LegacyNotification = LegacyNotification(title: string, body: string)

  const LegacyTitle: string := "queue alert"
  const LegacyFallbackBody: string := "No conditions met \U{AF}\\_(\U{30C4})_/\U{AF}"
  const LegacyFallback: LegacyNotification := LegacyNotification(LegacyTitle, LegacyFallbackBody)

  /** The same rule in the newer config's terms: the number becomes `{wait: n}`. */
  function Translate(on: LegacyAlertOn): AlertOn {
    match on
    case AlertOpen => OnOpen
    case AlertClosed => OnClosed
    case AtMost(n) => WaitAtMost(n)
  }

  function TranslateRule(rule: LegacyRule): RideRule {
    RideRule(rule.rideName, Translate(rule.alertOn))
  }

  function TranslateRules(rules: seq<LegacyRule>): (r: seq<RideRule>)
    ensures |r| == |rules|
    ensures forall i :: 0 <= i < |rules| ==> r[i] == TranslateRule(rules[i])
  {
    if rules == [] then [] else TranslateRules(rules[..|rules| - 1]) + [TranslateRule(rules[|rules| - 1])]
  }

  /** The notification one rule gives for the pushed records: the newer worker's rule and
      body under the older title. */
  function LegacyRuleNotification(rule: LegacyRule, payload: seq<RideRecord>): Option<LegacyNotification> {
    match FindRecord(payload, rule.rideName)
    case None => None
    case Some(record) =>
      match AlertBody(rule.rideName, Translate(rule.alertOn), record.status)
      case None => None
      case Some(body) => Some(LegacyNotification(LegacyTitle, body))
  }

  /** The alerts of the rules, in rule order: at most one per rule. */
  function LegacyAlerts(rules: seq<LegacyRule>, payload: seq<RideRecord>): (r: seq<LegacyNotification>)
    ensures |r| <= |rules|
  {
    if rules == [] then []
    else
      LegacyAlerts(rules[..|rules| - 1], payload)
        + (match LegacyRuleNotification(rules[|rules| - 1], payload) case Some(n) => [n] case None => [])
  }

  function LegacyRulesOf(config: Option<LegacyConfig>): seq<LegacyRule> {
    match config
    case None => []
    case Some(c) => c.rides
  }

  /** What a push shows: the alerts, or the fallback alone when no rule fired; something is
      always shown, and never more than one notification per rule unless it is the fallback. */
  function LegacyPush(config: Option<LegacyConfig>, payload: seq<RideRecord>): (r: seq<LegacyNotification>)
    ensures r != []
    ensures r == [LegacyFallback] || |r| <= |LegacyRulesOf(config)|
  {
    var alerts := LegacyAlerts(LegacyRulesOf(config), payload);
    if alerts == [] then [LegacyFallback] else alerts
  }

  /** A message posted to a client window. */
  datatype LegacyPost = LegacyPost(client: nat, config: Option<LegacyConfig>)

  class Worker {
    /** The module variable `config`; null until a config is set. */
    var config: Option<LegacyConfig>

    constructor()
      ensures config == None
    {
      config := None;
    }

    /** 'setConfig': the message's config replaces the current one wholesale. */
    method SetConfig(c: LegacyConfig)
      modifies this
      ensures config == Some(c)
    {
      config := Some(c);
    }

    /** 'getConfig': posts the current config, unchanged, to every client. */
    method GetConfig(clients: seq<nat>) returns (posts: seq<LegacyPost>)
      ensures |posts| == |clients|
      ensures forall i :: 0 <= i < |clients| ==> posts[i] == LegacyPost(clients[i], config)
    {
      posts := [];
      for i := 0 to |clients|
        invariant |posts| == i
        invariant forall j :: 0 <= j < i ==> posts[j] == LegacyPost(clients[j], config)
      {
        posts := posts + [LegacyPost(clients[i], config)];
      }
    }

    /** `handlePush`: checks each rule in order against the first record with its ride's name,
        shows an alert per rule that fires, and the fallback when `notified` stayed false. */
    method HandlePush(payload: seq<RideRecord>) returns (shown: seq<LegacyNotification>)
      ensures shown == LegacyPush(config, payload)
    {
      var notified := false;
      shown := [];
      var rideConfigs := LegacyRulesOf(config);
      for i := 0 to |rideConfigs|
        invariant shown == LegacyAlerts(rideConfigs[..i], payload)
        invariant notified <==> shown != []
      {
        var rideConfig := rideConfigs[i];
        assert rideConfigs[..i + 1][..i] == rideConfigs[..i];
        var serverRide := FindRecord(payload, rideConfig.rideName);
        if serverRide.None? {
          continue;
        }
        var status := serverRide.value.status;
        var name := rideConfig.rideName;
        match rideConfig.alertOn {
          case AlertOpen =>
            if status != Closed {
              if status.Wait? {
                shown := shown + [LegacyNotification(LegacyTitle, name + " is Open with a wait of " + IntToString(status.minutes) + " minutes!")];
                notified := true;
              } else {
                shown := shown + [LegacyNotification(LegacyTitle, name + " is Open!")];
                notified := true;
              }
            }
          case AlertClosed =>
            if status == Closed {
              shown := shown + [LegacyNotification(LegacyTitle, name + " is Closed!")];
              notified := true;
            }
          case AtMost(n) =>
            if status.Wait? && status.minutes <= n {
              shown := shown + [LegacyNotification(LegacyTitle, name + "'s wait is " + IntToString(status.minutes) + " minutes!")];
              notified := true;
            }
        }
      }
      assert rideConfigs[..|rideConfigs|] == rideConfigs;
      if !notified {
        shown := shown + [LegacyFallback];
      }
    }
  }

  /** A worker that has not been sent a config shows only the fallback on a push. */
  method PushBeforeConfig(payload: seq<RideRecord>) returns (shown: seq<LegacyNotification>)
    ensures shown == [LegacyFallback]
  {
    var w := new Worker();
    shown := w.HandlePush(payload);
  }

  /** The older worker shows the same alerts, with the same bodies, in the same order, as
      the newer worker does for the same rules with the number written as `{wait: n}`. */
  lemma {:induction false} SameAlertsAsNewerWorker(rules: seq<LegacyRule>, payload: seq<RideRecord>)
    ensures |LegacyAlerts(rules, payload)| == |ServiceWorker.RuleNotifications(TranslateRules(rules), payload)|
    ensures forall i :: 0 <= i < |LegacyAlerts(rules, payload)| ==>
              LegacyAlerts(rules, payload)[i].body == ServiceWorker.RuleNotifications(TranslateRules(rules), payload)[i].body
  {
    if rules != [] {
      var init := rules[..|rules| - 1];
      var last := rules[|rules| - 1];
      SameAlertsAsNewerWorker(init, payload);
      var t := TranslateRules(rules);
      assert t[..|t| - 1] == TranslateRules(init);
      assert t[|t| - 1] == TranslateRule(last);
      var a := LegacyAlerts(init, payload);
      var b := ServiceWorker.RuleNotifications(TranslateRules(init), payload);
      match LegacyRuleNotification(last, payload)
      case Some(n) =>
        assert LegacyAlerts(rules, payload) == a + [n];
        assert ServiceWorker.RuleNotifications(t, payload) == b + [ServiceWorker.RuleNotification(TranslateRule(last), payload).value];
      case None =>
        assert LegacyAlerts(rules, payload) == a + [];
        assert ServiceWorker.RuleNotifications(t, payload) == b + [];
    }
  }

  /** Hence the older worker falls back, and shows only its fallback, exactly when none of
      its rules fires under the newer worker's rule. */
  lemma FallbackIffNothingFired(config: Option<LegacyConfig>, payload: seq<RideRecord>)
    ensures LegacyAlerts(LegacyRulesOf(config), payload) == [] <==>
              ServiceWorker.FiringRules(TranslateRules(LegacyRulesOf(config)), payload) == []
    ensures ServiceWorker.FiringRules(TranslateRules(LegacyRulesOf(config)), payload) == [] ==>
              LegacyPush(config, payload) == [LegacyFallback]
  {
    var rules := LegacyRulesOf(config);
    SameAlertsAsNewerWorker(rules, payload);
    ServiceWorker.AlertsTaggedByFiringRules(TranslateRules(rules), payload);
  }
}
