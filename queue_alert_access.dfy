/** The web client's access to the server and to the browser's push subscription
    (`QueueAlertAccess` in queue_alert_frontend/app/src/api/queueAlertAccess.ts): the
    subscription is a field that subscribing sets and unsubscribing clears, and the calls to
    the server are guarded by it.

    The browser and the server are oracles: each method takes the response status it would
    get, and the requests it issues are recorded in `sent`. Only the guarded calls are
    modelled; the park and ride-time fetches are left out. */
module QueueAlertAccess {
  import opened Wrappers
  import KeyConversion

  /** A browser `PushSubscription`: its endpoint and keys. */
  datatype PushSubscription = PushSubscription(endpoint: string, p256dh: string, auth: string)

  /** What the client asks of the server or of the browser's push manager. */
  datatype Request =
    | GetVapidKey
    | Subscribe(applicationServerKey: seq<KeyConversion.byte>)
    | Unsubscribe(sub: PushSubscription)
    | Register(sub: PushSubscription, park: string)
    | Unregister(sub: PushSubscription)

  /** Why subscribing failed: the key request's status, the browser's refusal, or a key that
      `atob` could not decode (a thrown exception, not an `Err`). */
  datatype SubscribeError = KeyStatus(status: int) | SubscribeRefused | KeyThrew

  /** `res.ok`. */
  predicate IsOk(status: int) {
    200 <= status <= 299
  }

  /** The error code the guarded calls return when there is no subscription. */
  const NotSubscribed: int := 1

  class Access {
    /** The queue alert server's base URL. */
    const url: string
    /** The current push subscription; null until loaded or subscribed. */
    var sub: Option<PushSubscription>
    /** The requests issued so far, oldest first. */
    var sent: seq<Request>

    /** A client for the server at `queueAlertUrl`; the stored subscription arrives later,
        through `LoadSubscription`. */
    constructor(queueAlertUrl: string)
      ensures url == queueAlertUrl && sub == None && sent == []
    {
      url := queueAlertUrl;
      sub := None;
      sent := [];
    }

    /** The constructor's `getSubscription().then(...)`: the browser's current subscription,
        or null, replaces the field. */
    method LoadSubscription(current: Option<PushSubscription>)
      modifies this
      ensures sub == current && sent == old(sent)
    {
      sub := current;
    }

    /** `subscribeUserToPush`: nothing to do when a subscription is held; otherwise fetch the
        key, convert it and ask the browser to subscribe with it. The browser's answer is
        `granted`: the new subscription, or None when it refuses. */
    method SubscribeUserToPush(keyStatus: int, vapidPublicKey: string, granted: Option<PushSubscription>)
      returns (r: Result<(), SubscribeError>)
      modifies this
      ensures old(sub).Some? ==> r == Ok(()) && sub == old(sub) && sent == old(sent)
      ensures old(sub).None? && !IsOk(keyStatus) ==>
                r == Err(KeyStatus(keyStatus)) && sub == None && sent == old(sent) + [GetVapidKey]
      ensures old(sub).None? && IsOk(keyStatus) && KeyConversion.KeyBytes(vapidPublicKey).None? ==>
                r == Err(KeyThrew) && sub == None && sent == old(sent) + [GetVapidKey]
      ensures old(sub).None? && IsOk(keyStatus) && KeyConversion.KeyBytes(vapidPublicKey).Some? ==>
                && sent == old(sent) + [GetVapidKey, Subscribe(KeyConversion.KeyBytes(vapidPublicKey).value)]
                && sub == granted
                && (r == Ok(()) <==> granted.Some?)
                && (granted.None? ==> r == Err(SubscribeRefused))
    {
      if sub.Some? {
        return Ok(());
      }
      sent := sent + [GetVapidKey];
      if !IsOk(keyStatus) {
        return Err(KeyStatus(keyStatus));
      }
      var convertedVapidKey := KeyConversion.UrlBase64ToUint8Array(vapidPublicKey);
      if convertedVapidKey.None? {
        return Err(KeyThrew);
      }
      var key := convertedVapidKey.value[..];
      sent := sent + [Subscribe(key)];
      if granted.None? {
        return Err(SubscribeRefused);
      }
      sub := granted;
      return Ok(());
    }

    /** `unsubscribeUserFromPush`: a held subscription is cancelled and dropped. */
    method UnsubscribeUserFromPush()
      modifies this
      ensures sub == None
      ensures sent == old(if sub.Some? then sent + [Unsubscribe(sub.value)] else sent)
    {
      if sub.Some? {
        sent := sent + [Unsubscribe(sub.value)];
        sub := None;
      }
    }

    /** `registerWithBackend`: Err(1) and no request without a subscription; otherwise the
        subscription and park are posted, and the response status decides. */
    method RegisterWithBackend(park: string, status: int) returns (r: Result<(), int>)
      modifies this
      ensures sub == old(sub)
      ensures old(sub).None? ==> r == Err(NotSubscribed) && sent == old(sent)
      ensures old(sub).Some? ==>
                sent == old(sent) + [Register(old(sub).value, park)]
                && r == (if IsOk(status) then Ok(()) else Err(status))
    {
      if sub.None? {
        return Err(NotSubscribed);
      }
      sent := sent + [Register(sub.value, park)];
      if IsOk(status) {
        return Ok(());
      }
      return Err(status);
    }

    /** `unregisterWithBackend`: Err(1) and no request without a subscription; otherwise the
        subscription is posted, and the response status decides. */
    method UnregisterWithBackend(status: int) returns (r: Result<(), int>)
      modifies this
      ensures sub == old(sub)
      ensures old(sub).None? ==> r == Err(NotSubscribed) && sent == old(sent)
      ensures old(sub).Some? ==>
                sent == old(sent) + [Unregister(old(sub).value)]
                && r == (if IsOk(status) then Ok(()) else Err(status))
    {
      if sub.None? {
        return Err(NotSubscribed);
      }
      sent := sent + [Unregister(sub.value)];
      if IsOk(status) {
        return Ok(());
      }
      return Err(status);
    }
  }

  /** After unsubscribing, registering fails with code 1 and reaches no server. */
  method UnsubscribedCannotRegister(a: Access, park: string, status: int) returns (r: Result<(), int>)
    modifies a
    ensures r == Err(NotSubscribed) && a.sub == None
    ensures forall q :: q in a.sent && q.Register? ==> q in old(a.sent)
  {
    a.UnsubscribeUserFromPush();
    r := a.RegisterWithBackend(park, status);
  }

  /** Subscribing twice asks for the key once: the second call finds the subscription. */
  method SubscribeTwice(a: Access, keyStatus: int, key: string, granted: PushSubscription)
    returns (first: Result<(), SubscribeError>, second: Result<(), SubscribeError>)
    modifies a
    requires a.sub.None? && IsOk(keyStatus) && KeyConversion.KeyBytes(key).Some?
    ensures first == Ok(()) && second == Ok(()) && a.sub == Some(granted)
    ensures |a.sent| == |old(a.sent)| + 2
  {
    first := a.SubscribeUserToPush(keyStatus, key, Some(granted));
    second := a.SubscribeUserToPush(keyStatus, key, Some(granted));
  }
}
