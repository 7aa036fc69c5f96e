/** The web client's service worker (queue_alert_frontend/app/src/service-worker.ts): the push
    handler that turns pushed ride statuses into notifications, the persisted alert config and
    the messages that set and read it, the routing predicates, and the choice of window on a
    notification click.

    The platform calls are outputs: the notifications shown, in order, and the messages
    posted, in order. The persisted record (IndexedDB through localforage) is one optional
    field. Decoding the push payload (base64, zlib, JSON) is not modelled: the handler takes
    the decoded ride records. */
module ServiceWorker {
  import opened Wrappers
  import opened Text
  import opened AlertConfig
  import Seqs

  /** A shown notification: title, body, icon, badge and tag. */
  datatype Notification = Notification(title: string, body: string, icon: Option<string>,
                                       badge: Option<string>, tag: Option<string>)

  const AlertTitle: string := "Ride Alert"
  const Icon: string := "/icons/queueLogo@0,33x.png"
  const Badge: string := "/icons/apple-icon-72x72.png"
  const FallbackTitle: string := "Oops"
  const FallbackBody: string := "Somehow you managed to get a config desynced from the server! Heres a notification so Apple devices wont disable the app. Theres no need for you to do anything, this should resolve itself."

  /** The notification shown when no rule fired: it has the icon and badge but no tag. */
  const Fallback: Notification := Notification(FallbackTitle, FallbackBody, Some(Icon), Some(Badge), None)

  /** The notification a rule gives for the pushed records: none when no record has its ride's
      name or when its rule does not fire on the first such record; otherwise an alert tagged
      with the ride's name. */
  function RuleNotification(rule: RideRule, payload: seq<RideRecord>): (r: Option<Notification>)
    ensures r.Some? ==> r.value.tag == Some(rule.rideName) && r.value.title == AlertTitle
  {
    match FindRecord(payload, rule.rideName)
    case None => None
    case Some(record) =>
      match AlertBody(rule.rideName, rule.alertOn, record.status)
      case None => None
      case Some(body) => Some(Notification(AlertTitle, body, Some(Icon), Some(Badge), Some(rule.rideName)))
  }

  /** The notifications of the rules, in rule order. */
  function RuleNotifications(rules: seq<RideRule>, payload: seq<RideRecord>): seq<Notification>
  {
    if rules == [] then []
    else
      var last := rules[|rules| - 1];
      RuleNotifications(rules[..|rules| - 1], payload)
        + (match RuleNotification(last, payload) case Some(n) => [n] case None => [])
  }

  /** The rules of the saved config; none when no config was saved. */
  function RulesOf(config: Option<Config>): seq<RideRule> {
    match config
    case None => []
    case Some(c) => c.rides
  }

  /** The rules give at most one notification each, and every one is a ride alert. */
  lemma {:induction false} RuleNotificationsAreAlerts(rules: seq<RideRule>, payload: seq<RideRecord>)
    ensures |RuleNotifications(rules, payload)| <= |rules|
    ensures forall i :: 0 <= i < |RuleNotifications(rules, payload)| ==> RuleNotifications(rules, payload)[i].title == AlertTitle
  {
    if rules != [] {
      RuleNotificationsAreAlerts(rules[..|rules| - 1], payload);
    }
  }

  /** What a push shows: the alerts of the rules that fire, or the fallback alone. Something
      is always shown, and besides the fallback only ride alerts, at most one per rule. */
  function PushNotifications(config: Option<Config>, payload: seq<RideRecord>): (r: seq<Notification>)
    ensures r != []
    ensures r == [Fallback] || (|r| <= |RulesOf(config)| && forall i :: 0 <= i < |r| ==> r[i].title == AlertTitle)
  {
    RuleNotificationsAreAlerts(RulesOf(config), payload);
    var alerts := RuleNotifications(RulesOf(config), payload);
    if alerts == [] then [Fallback] else alerts
  }

  /** `handlePush`: checks each rule in order against the first record with its ride's name
      and shows an alert for each rule that fires; when none did, shows the fallback. */
  method HandlePush(payload: seq<RideRecord>, config: Option<Config>) returns (shown: seq<Notification>)
    ensures shown == PushNotifications(config, payload)
  {
    var notified := false;
    shown := [];
    var rideConfigs: seq<RideRule>;
    if config.None? {
      rideConfigs := [];
    } else {
      rideConfigs := config.value.rides;
    }
    for i := 0 to |rideConfigs|
      invariant shown == RuleNotifications(rideConfigs[..i], payload)
      invariant notified <==> shown != []
    {
      var rideConf := rideConfigs[i];
      assert rideConfigs[..i + 1][..i] == rideConfigs[..i];
      var serverRide := FindRecord(payload, rideConf.rideName);
      if serverRide.None? {
        continue;
      }
      var status := serverRide.value.status;
      var name := rideConf.rideName;
      match rideConf.alertOn {
        case OnOpen =>
          if status != Closed {
            if status.Wait? {
              var body := name + " is Open with a wait of " + IntToString(status.minutes) + " minutes!";
              shown := shown + [Notification(AlertTitle, body, Some(Icon), Some(Badge), Some(name))];
              notified := true;
            } else {
              var body := name + " is Open!";
              shown := shown + [Notification(AlertTitle, body, Some(Icon), Some(Badge), Some(name))];
              notified := true;
            }
          }
        case OnClosed =>
          if status == Closed {
            var body := name + " is Closed!";
            shown := shown + [Notification(AlertTitle, body, Some(Icon), Some(Badge), Some(name))];
            notified := true;
          }
        case WaitAtMost(w) =>
          if status.Wait? && status.minutes <= w {
            var body := name + "'s wait is " + IntToString(status.minutes) + " minutes!";
            shown := shown + [Notification(AlertTitle, body, Some(Icon), Some(Badge), Some(name))];
            notified := true;
          }
      }
    }
    assert rideConfigs[..|rideConfigs|] == rideConfigs;
    if !notified {
      shown := shown + [Fallback];
    }
  }

  /** The rules that fire on the pushed records, in rule order. */
  function FiringRules(rules: seq<RideRule>, payload: seq<RideRecord>): seq<RideRule> {
    if rules == [] then []
    else
      var last := rules[|rules| - 1];
      FiringRules(rules[..|rules| - 1], payload)
        + (if RuleNotification(last, payload).Some? then [last] else [])
  }

  /** A rule fires exactly when some record has its ride's name and the rule fires on the
      status of the first one. */
  lemma RuleFiresIff(rule: RideRule, payload: seq<RideRecord>)
    ensures RuleNotification(rule, payload).Some? <==>
              exists k :: 0 <= k < |payload| && payload[k].name == rule.rideName
                && (forall j :: 0 <= j < k ==> payload[j].name != rule.rideName)
                && Fires(rule.alertOn, payload[k].status)
  {
    var k := FindIndex(payload, rule.rideName);
  }

  /** The alerts are tagged, one per firing rule, in rule order, with that rule's ride name. */
  lemma {:induction false} AlertsTaggedByFiringRules(rules: seq<RideRule>, payload: seq<RideRecord>)
    ensures |RuleNotifications(rules, payload)| == |FiringRules(rules, payload)|
    ensures forall i :: 0 <= i < |RuleNotifications(rules, payload)| ==>
              RuleNotifications(rules, payload)[i].tag == Some(FiringRules(rules, payload)[i].rideName)
    ensures Seqs.IsSubsequence(FiringRules(rules, payload), rules)
  {
    if rules != [] {
      var init := rules[..|rules| - 1];
      var last := rules[|rules| - 1];
      assert rules == init + [last];
      AlertsTaggedByFiringRules(init, payload);
      FiringRulesSubsequence(init, last, payload);
      var ns := RuleNotifications(init, payload);
      var fs := FiringRules(init, payload);
      match RuleNotification(last, payload)
      case Some(n) =>
        assert RuleNotifications(rules, payload) == ns + [n];
        assert FiringRules(rules, payload) == fs + [last];
      case None =>
        assert RuleNotifications(rules, payload) == ns + [];
        assert FiringRules(rules, payload) == fs + [];
    }
  }

  lemma FiringRulesSubsequence(init: seq<RideRule>, last: RideRule, payload: seq<RideRecord>)
    requires Seqs.IsSubsequence(FiringRules(init, payload), init)
    ensures Seqs.IsSubsequence(FiringRules(init + [last], payload), init + [last])
  {
    var rules := init + [last];
    assert rules[..|rules| - 1] == init;
    var f := FiringRules(init, payload);
    if RuleNotification(last, payload).Some? {
      assert FiringRules(rules, payload) == f + [last];
      Seqs.SubsequenceSnoc(f, init, last);
    } else {
      assert FiringRules(rules, payload) == f + [];
      assert f + [] == f;
      Seqs.SubsequenceExtend(f, init, last);
    }
  }

  /** Exactly one fallback is shown when no rule fired, and none otherwise; a push without a
      saved config shows the fallback alone. */
  lemma FallbackIffNothingFired(config: Option<Config>, payload: seq<RideRecord>)
    ensures Fallback in PushNotifications(config, payload) <==> FiringRules(RulesOf(config), payload) == []
    ensures FiringRules(RulesOf(config), payload) == [] ==> PushNotifications(config, payload) == [Fallback]
    ensures config.None? ==> PushNotifications(config, payload) == [Fallback]
  {
    var rules := RulesOf(config);
    AlertsTaggedByFiringRules(rules, payload);
    var alerts := RuleNotifications(rules, payload);
    if alerts != [] {
      assert Fallback !in alerts by {
        forall i | 0 <= i < |alerts| ensures alerts[i] != Fallback {
          assert alerts[i].tag.Some?;
        }
      }
    }
  }

  // ---------------------------------------------------------------------------
  // The persisted config and the config messages

  /** A message posted to a client window: the config, or null. */
  datatype Post = Post(client: nat, config: Option<Config>)

  /** The service worker's persisted state. */
  class Worker {
    /** The 'config' item of the store; `None` until a config is set. */
    var stored: Option<Config>

    constructor()
      ensures stored == None
    {
      stored := None;
    }

    /** A 'setConfig' message: persists its config. */
    method SetConfig(config: Config)
      modifies this
      ensures stored == Some(config)
    {
      stored := Some(config);
    }

    /** A 'getConfig' message: posts the persisted config, or null, to every client. */
    method GetConfig(clients: seq<nat>) returns (posts: seq<Post>)
      ensures |posts| == |clients|
      ensures forall i :: 0 <= i < |clients| ==> posts[i] == Post(clients[i], stored)
    {
      var config := stored;
      posts := [];
      for i := 0 to |clients|
        invariant |posts| == i
        invariant forall j :: 0 <= j < i ==> posts[j] == Post(clients[j], config)
      {
        posts := posts + [Post(clients[i], config)];
      }
    }

    /** A push: loads the persisted config and handles the records with it. */
    method Push(payload: seq<RideRecord>) returns (shown: seq<Notification>)
      ensures shown == PushNotifications(stored, payload)
    {
      var config := stored;
      shown := HandlePush(payload, config);
    }
  }

  /** Setting a config and then asking for it posts exactly that config to every client. */
  method SetThenGet(w: Worker, config: Config, clients: seq<nat>) returns (posts: seq<Post>)
    modifies w
    ensures |posts| == |clients|
    ensures forall i :: 0 <= i < |posts| ==> posts[i].config == Some(config)
  {
    w.SetConfig(config);
    posts := w.GetConfig(clients);
  }

  /** A worker that never got a config posts null. */
  method GetBeforeSet(clients: seq<nat>) returns (posts: seq<Post>)
    ensures |posts| == |clients|
    ensures forall i :: 0 <= i < |posts| ==> posts[i].config == None
  {
    var w := new Worker();
    posts := w.GetConfig(clients);
  }

  // ---------------------------------------------------------------------------
  // Routing

  /** The parts of a fetch the routes look at. */
  datatype Request = Request(mode: string, origin: string, pathname: string)

  /** The regular expression `/[^/?]+\.[^/]+$` matches with its '/' at `i` and its '.' at `k`. */
  predicate ExtensionMatchAt(p: string, i: int, k: int) {
    && 0 <= i && i + 1 < k && k + 1 < |p|
    && p[i] == '/' && p[k] == '.'
    && (forall j :: i < j < k ==> p[j] != '/' && p[j] != '?')
    && (forall j :: k < j < |p| ==> p[j] != '/')
  }

  /** `pathname.match(fileExtensionRegexp)` finds a match. */
  predicate MatchesFileExtension(p: string) {
    exists i, k | 0 <= i < k < |p| :: ExtensionMatchAt(p, i, k)
  }

  /** The app-shell route's test: a navigation whose path does not start with "/_" and does
      not look like a file. */
  predicate AppShellRoute(req: Request) {
    if req.mode != "navigate" then false
    else if StartsWith(req.pathname, "/_") then false
    else if MatchesFileExtension(req.pathname) then false
    else true
  }

  /** Under the regular expression's reading as a last-segment test: the app shell serves a
      navigation exactly when its path does not start with "/_" and its last segment has no
      extension. */
  lemma AppShellRouteIff(req: Request)
    ensures AppShellRoute(req) <==>
              req.mode == "navigate" && !StartsWith(req.pathname, "/_") && !LastSegmentHasExtension(req.pathname)
  {
    FileExtensionIsLastSegment(req.pathname);
  }

  /** The image route: same-origin requests for ".png" paths. */
  predicate ImageRoute(req: Request, selfOrigin: string) {
    req.origin == selfOrigin && EndsWith(req.pathname, ".png")
  }

  /** The park list route: paths starting with "/allParks". */
  predicate AllParksRoute(req: Request) {
    StartsWith(req.pathname, "/allParks")
  }

  /** The position of the last '/', if any. */
  function LastSlash(p: string): (r: Option<nat>)
    ensures r.Some? ==> r.value < |p| && p[r.value] == '/' && forall j :: r.value < j < |p| ==> p[j] != '/'
    ensures r.None? ==> forall j :: 0 <= j < |p| ==> p[j] != '/'
  {
    if p == [] then None
    else if p[|p| - 1] == '/' then Some(|p| - 1)
    else LastSlash(p[..|p| - 1])
  }

  /** The last path segment has an extension: a '.' that is neither its first nor its last
      character, and no '?' before that '.'. */
  predicate LastSegmentHasExtension(p: string) {
    match LastSlash(p)
    case None => false
    case Some(i) =>
      var segment := p[i + 1..];
      exists k :: 0 < k < |segment| - 1 && segment[k] == '.' && forall j :: 0 <= j < k ==> segment[j] != '?'
  }

  /** The regular expression matches exactly when the last path segment has an extension. */
  lemma FileExtensionIsLastSegment(p: string)
    ensures MatchesFileExtension(p) <==> LastSegmentHasExtension(p)
  {
    if MatchesFileExtension(p) {
      var i, k :| 0 <= i < k < |p| && ExtensionMatchAt(p, i, k);
      var last := LastSlash(p);
      assert last == Some(i);
      var segment := p[i + 1..];
      assert segment[k - i - 1] == '.';
      assert forall j :: 0 <= j < k - i - 1 ==> segment[j] == p[i + 1 + j];
    }
    if LastSegmentHasExtension(p) {
      var i := LastSlash(p).value;
      var segment := p[i + 1..];
      var k :| 0 < k < |segment| - 1 && segment[k] == '.' && forall j :: 0 <= j < k ==> segment[j] != '?';
      assert forall j :: 0 <= j < |segment| ==> segment[j] == p[i + 1 + j];
      assert ExtensionMatchAt(p, i, i + 1 + k);
    }
  }

  /** Every path whose last segment is "<name>.png" is left to the image route: the app shell
      does not take it, and the image route does when the request is same-origin. */
  lemma AppShellSkipsImages(req: Request, dir: string, name: string)
    requires name != [] && forall j :: 0 <= j < |name| ==> name[j] != '/' && name[j] != '?'
    requires req.pathname == dir + "/" + name + ".png"
    ensures !AppShellRoute(req)
    ensures ImageRoute(req, req.origin)
  {
    var p := req.pathname;
    var i := |dir|;
    var k := |dir| + 1 + |name|;
    assert p[i] == '/' && p[k] == '.';
    assert forall j :: i < j < k ==> p[j] == name[j - i - 1];
    assert p[k + 1..] == "png";
    assert forall j :: k < j < |p| ==> p[j] == "png"[j - k - 1];
    assert ExtensionMatchAt(p, i, k);
    assert p[|p| - 4..] == ".png";
  }

  /** The app shell is registered first, so a navigation to a "/allParks" page that has no
      file extension is served the app shell; the park-list cache only sees the rest. */
  lemma AllParksNavigationIsAppShell(req: Request)
    requires AllParksRoute(req) && req.mode == "navigate"
    ensures AppShellRoute(req) <==> !LastSegmentHasExtension(req.pathname)
  {
    assert req.pathname[1] == "/allParks"[1];
    FileExtensionIsLastSegment(req.pathname);
  }

  // ---------------------------------------------------------------------------
  // Notification clicks

  /** What a click on a notification does: focus an open window, or open a new one. */
  datatype ClickAction = Focus(index: nat) | OpenWindow(url: string)

  /** `new URL('/', origin).href` for an origin, which carries no path. */
  function RootUrl(origin: string): string {
    origin + "/"
  }

  /** The 'notificationclick' handler: focuses the first window showing the app's root, or
      opens the root when none does. */
  method ChooseWindow(windowUrls: seq<string>, origin: string) returns (action: ClickAction)
    ensures action.Focus? ==> action.index < |windowUrls| && windowUrls[action.index] == RootUrl(origin)
    ensures action.Focus? ==> forall j :: 0 <= j < action.index ==> windowUrls[j] != RootUrl(origin)
    ensures action.OpenWindow? <==> forall j :: 0 <= j < |windowUrls| ==> windowUrls[j] != RootUrl(origin)
    ensures action.OpenWindow? ==> action.url == RootUrl(origin)
  {
    var urlToOpen := RootUrl(origin);
    var matching: Option<nat> := None;
    var i := 0;
    while i < |windowUrls|
      invariant 0 <= i <= |windowUrls|
      invariant matching.None?
      invariant forall j :: 0 <= j < i ==> windowUrls[j] != urlToOpen
    {
      if windowUrls[i] == urlToOpen {
        matching := Some(i);
        break;
      }
      i := i + 1;
    }
    if matching.Some? {
      action := Focus(matching.value);
    } else {
      action := OpenWindow(urlToOpen);
    }
  }
}
