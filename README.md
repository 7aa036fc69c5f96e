# Queue Alert, modelled in Dafny

Queue Alert sends push notifications about theme-park ride queues. A subscriber picks a park
and a set of rides, each with a condition: alert when the ride opens, when it closes, or when
its wait is at most some number of minutes. The server polls queue-times.com, works out which
rides meet each subscriber's conditions, and pushes those ride records. The service worker in
the browser checks the same conditions again and shows one notification per matching ride,
or a fallback notification when none matches.

This project models the core of that system and proves properties of the model:

- the `queue_times` library:
  - the ride data model and its derived order (`RideModel`);
  - the HTML scrapers for park pages and the front page (`ParkParser`);
  - the JSON API client (`ApiClient`);
  - the five-minute cache around a client (`CachedClient`);
- the server:
  - the registration repository over its three tables and its in-memory cache (`RegistrationRepo`);
  - the HTTP routes: the sorted subscriber vector, the URL check and the sorted responses (`Routes`);
  - the push round (`PushApp`);
- the web client:
  - the shared config types and alert rule (`AlertConfig`);
  - the current service worker, with its routing and notification click (`ServiceWorker`);
  - the older service worker (`LegacyWorker`);
  - the config reducer (`ConfigReducer`);
  - the VAPID key converter (`KeyConversion`);
  - the access object that guards server calls by the push subscription (`QueueAlertAccess`).

Supporting modules are `Wrappers` (`Option`, `Result`), `Text` (the string operations the
source calls), `Seqs` (subsequences), `Sorting` (a reference sort) and `Assoc` (a map built
by inserting pairs in order).

Where the source changes state in place, the model is imperative:
- classes with `modifies` clauses: `CachedClient.Client`, `RegistrationRepo.Repository`,
  `Routes.Subscribers`, `ServiceWorker.Worker`, `LegacyWorker.Worker` and
  `QueueAlertAccess.Access`;
- loop methods proved against specification functions, such as `ServiceWorker.HandlePush`,
  `ParkParser.GetRideTimes`, `KeyConversion.UrlBase64ToUint8Array` and `PushApp.PushToClients`.

Pure code is modelled as functions and lemmas.

Outside inputs are parameters of the model:
- the network, the push service and the database are oracles: a response status, a fetched
  value, or the number of the statement that fails;
- the order of a Rust hash map or `DashMap` is an unspecified choice (`:|`);
- time is an integer.

## Model

| member | source | states |
|---|---|---|
| RideModel.DefaultStatus | queue_times/src/model.rs:19-23 | the default ride status is `Closed` |
| RideModel.DefaultRideTime | queue_times/src/model.rs:26-30 | the default ride time has an empty name and the default status |
| RideModel.StatusOrder | queue_times/src/model.rs:9-17 | the derived order puts `Open` before `Closed` before every wait, and orders waits by minutes |
| RideModel.RideTimeOrderIsTotal | queue_times/src/model.rs:26 | the derived order on ride times (name, then status) is total, transitive and antisymmetric |
| RideModel.NameDecidesFirst | queue_times/src/model.rs:26-29 | a ride whose name is a proper prefix of another's sorts first, whatever the statuses |
| Text.TrimStartShape | queue_times/src/parser.rs:87 | `trim_start` drops exactly the leading whitespace |
| Text.TrimEndShape | queue_times/src/parser.rs:87 | `trim_end` drops exactly the trailing whitespace |
| Text.TrimIsSlice | queue_times/src/parser.rs:94 | the trimmed text is a slice with only whitespace around it and none at its ends |
| Text.TrimIdempotent | queue_times/src/parser.rs:94 | trimming twice is trimming once |
| Text.NatToStringValue | queue_times/src/parser.rs:106 | reading back a printed natural number gives it |
| Text.IntToStringInjective | queue_alert_frontend/app/src/service-worker.ts:162 | different numbers print differently |
| Text.ParseI16 | queue_times/src/parser.rs:106 | `parse::<i16>` yields only values in the `i16` range |
| Text.ParseI16OfPrinted | queue_times/src/parser.rs:106 | every printed `i16` parses back to itself |
| Text.FirstAsciiTokenShape | queue_times/src/parser.rs:100 | the first token of `split_ascii_whitespace` is a maximal non-empty run without ASCII whitespace after the leading whitespace |
| Text.StringLeTotal | queue_times/src/model.rs:26 | the string order is total |
| Text.StringLeAntisymmetric | queue_times/src/model.rs:26 | the string order is antisymmetric |
| Text.StringLeTransitive | queue_times/src/model.rs:26 | the string order is transitive |
| Sorting.Sort | queue_alert_server/src/routes.rs:151 | the reference sort returns a sorted permutation of its input |
| Sorting.SortedPermutationUnique | queue_alert_server/src/routes.rs:151 | under a total order, two sorted permutations of the same multiset are equal |
| Assoc.InsertAllKeys | queue_times/src/parser.rs:189 | inserting pairs one by one gives the old keys plus the pairs' keys |
| Assoc.InsertAllLastWins | queue_times/src/parser.rs:189 | the last pair with a key decides that key's value |
| Assoc.InsertAllUntouched | queue_times/src/parser.rs:189 | a key no pair mentions keeps its value |
| Assoc.InsertAllAppend | queue_times/src/api.rs:45-64 | inserting two runs of pairs is inserting their concatenation |
| ParkParser.ParseStatus | queue_times/src/parser.rs:92-119 | a status text that fails to parse always fails with `WaitTimeParse` |
| ParkParser.UnsignedAbs | queue_times/src/parser.rs:109 | `unsigned_abs` gives the magnitude of an `i16`, including -32768 |
| ParkParser.ParseStatusText | queue_times/src/parser.rs:70-114 | the site's text for Open, Closed or a wait of at most 32767 minutes, padded with whitespace, reads like a status and parses back to that status; longer waits do not fit the i16 the parser reads (ParkParser.BadMinutesFail) |
| ParkParser.NegativeWaitIsMagnitude | queue_times/src/parser.rs:105-109 | "-n mins" is a wait of n minutes |
| ParkParser.BadMinutesFail | queue_times/src/parser.rs:99-112 | a "... mins" text whose first word is not an `i16` fails with the trimmed text |
| ParkParser.GetRideTimes | queue_times/src/parser.rs:52-128 | the span loop computes the scan: name spans not followed by a status are skipped, each status completes a ride, and the first bad status is the error |
| ParkParser.ThenAssoc | queue_times/src/parser.rs:122 | appending rides found so far is associative |
| ParkParser.RidesPairSpans | queue_times/src/parser.rs:62-125 | every ride read is a name span followed immediately by its status span, in page order |
| ParkParser.ScanName | queue_times/src/parser.rs:62-125 | the scan of a page yields at most half as many rides as spans, since every ride takes a name span and a status span |
| ParkParser.ScanErrors | queue_times/src/parser.rs:87-118 | the scan can fail only by a panic on a name span without text, or on a "... mins" text; the catch-all error with empty text cannot happen |
| ParkParser.JoinParkUrl | queue_times/src/parser.rs:178-180 | a plain absolute href joins without failing, to the site URL, then the href, then "/queue_times" |
| ParkParser.ParkUrlsFrom | queue_times/src/parser.rs:164-193 | a successful front-page loop keeps every park it had already bound |
| ParkParser.GetParkUrls | queue_times/src/parser.rs:164-193 | the front-page loop computes the specification of blocks inserted in page order |
| ParkParser.MissingHrefFails | queue_times/src/parser.rs:173-176 | the first block without an href makes the parse fail with `HrefMissing` |
| ParkParser.ParkUrlsOkMeansWellFormed | queue_times/src/parser.rs:170-190 | a successful parse means every block has an href that joins and a name |
| ParkParser.ParkUrlsOfWellFormed | queue_times/src/parser.rs:170-192 | on well-formed blocks the parse succeeds with every block's pair inserted in page order |
| ParkParser.ParkUrlsKeys | queue_times/src/parser.rs:185-189 | the map's keys are exactly the blocks' trimmed names |
| ParkParser.ParkUrlsLastWins | queue_times/src/parser.rs:189 | a park name seen twice keeps the URL of its last block |
| ApiClient.TruncateU16 | queue_times/src/api.rs:97 | `as u16` keeps a value in range and is otherwise congruent modulo 65536 |
| ApiClient.ApiStatus | queue_times/src/api.rs:94-100 | closed iff not open; `Open` iff open with a zero wait; otherwise a wait of the truncated minutes |
| ApiClient.WaitWrapsAround | queue_times/src/api.rs:96-97 | a non-zero wait that is a multiple of 65536 becomes a zero wait, not `Open` |
| ApiClient.ApiAgreesWithScraper | queue_times/src/api.rs:150-171 | for waits the page can show, the scraper reads the API's status back unchanged |
| ApiClient.ParseRides | queue_times/src/api.rs:84-104 | `parse_rides` maps each ride object to its ride time, one for one |
| ApiClient.ParseRidesAppend | queue_times/src/api.rs:110-116 | parsing two runs of rides is parsing their concatenation |
| ApiClient.SelectRides | queue_times/src/api.rs:106-117 | without lands, the top-level rides parsed one for one; with lands, each land's parsed rides in land order, whatever the top-level rides are |
| ApiClient.EmptyLandsHideRides | queue_times/src/api.rs:107-116 | lands that all have no rides give no rides at all, even if the top-level list has some |
| ApiClient.ParkJsonUrl | queue_times/src/api.rs:71 | the document's URL is the park page's URL followed by ".json" |
| ApiClient.ParkJsonUrlInjective | queue_times/src/api.rs:71 | different park ids give different JSON document URLs |
| ApiClient.ParkUrlInjective | queue_times/src/api.rs:54-61 | different park ids give different park URLs |
| ApiClient.ScraperUrlAgrees | queue_times/src/api.rs:54-61 | the scraper's join of "/en-US/parks/{id}" gives the same URL as the API client's |
| ApiClient.GetParkUrls | queue_times/src/api.rs:31-67 | the brand and park loops insert every park's (name, URL) pair in order |
| ApiClient.ParkUrlsLastWins | queue_times/src/api.rs:48-62 | every park's name is a key; a name met twice keeps the last park's URL, which is an id's page |
| ApiClient.CedarPointUrl | queue_times/src/api.rs:131-134 | park 50's URL is https://queue-times.com/en-US/parks/50/queue_times |
| CachedClient.Lookup | queue_times/src/client.rs:204-209 | the cached times for a URL, or `BadUrl` exactly when it is not cached |
| CachedClient.RefreshedStep | queue_times/src/client.rs:217-221 | refreshing one more URL is one more insertion |
| CachedClient.RefreshedOnlyInserts | queue_times/src/client.rs:217-221 | a partial refresh only inserts inner answers for the given URLs |
| CachedClient.Client.constructor | queue_times/src/client.rs:166-173 | empty caches, last update six minutes back, stale at once |
| CachedClient.Client.GetParkUrls | queue_times/src/client.rs:181-196 | asks the inner client only while the park cache is empty and keeps a successful answer; otherwise answers from the cache |
| CachedClient.Client.RefreshAll | queue_times/src/client.rs:217-221 | refreshes every URL, or stops at the first inner error having inserted only inner answers |
| CachedClient.Client.GetRideTimes | queue_times/src/client.rs:198-232 | a fresh cache answers alone; a stale one gets the park map, refreshes every park, moves the update time and answers from the new cache |
| CachedClient.RepeatWithinWindow | queue_times/src/client.rs:198-211 | a second request within the window gets the first successful answer again |
| AlertConfig.FindIndex | queue_alert_frontend/app/src/service-worker.ts:148 | the index of the first record with the name, or the length when none has it |
| AlertConfig.FindRecord | queue_alert_frontend/app/src/service-worker.ts:148 | none exactly when no record has the name, otherwise the first such record |
| AlertConfig.AlertBody | queue_alert_frontend/app/src/service-worker.ts:155-199 | a body exists exactly when the rule fires, and it starts with the ride name |
| AlertConfig.AlertBodyShowsWait | queue_alert_frontend/app/src/service-worker.ts:160-192 | an alert on a wait carries the printed minutes right after the rule's phrase |
| AlertConfig.AlertBodySplit | queue_alert_frontend/app/src/service-worker.ts:160-192 | a fired alert is the ride's name followed by the phrase of its status and rule |
| AlertConfig.AlertBodiesDistinguish | queue_alert_frontend/app/src/service-worker.ts:155-199 | two equal alerts for one ride come from the same status, from the same kind of rule, and from the same rule unless it is a wait; only a wait rule's threshold is not shown |
| ServiceWorker.RuleNotification | queue_alert_frontend/app/src/service-worker.ts:161-195 | every alert is titled "Ride Alert" and tagged with its ride's name |
| ServiceWorker.HandlePush | queue_alert_frontend/app/src/service-worker.ts:121-209 | the handler loop shows the alerts of the firing rules in rule order, or only the fallback when none fired |
| ServiceWorker.RuleFiresIff | queue_alert_frontend/app/src/service-worker.ts:148-199 | a rule alerts iff some record has its name and the rule fires on the first such record's status |
| ServiceWorker.AlertsTaggedByFiringRules | queue_alert_frontend/app/src/service-worker.ts:144-200 | one alert per firing rule, in rule order, tagged with that rule's name; the firing rules are a subsequence of the rules |
| ServiceWorker.FiringRulesSubsequence | queue_alert_frontend/app/src/service-worker.ts:144-200 | adding a rule keeps the firing rules a subsequence of the rules |
| ServiceWorker.RuleNotificationsAreAlerts | queue_alert_frontend/app/src/service-worker.ts:144-200 | the rules give at most one notification each, and each is titled "Ride Alert" |
| ServiceWorker.PushNotifications | queue_alert_frontend/app/src/service-worker.ts:121-209 | a push always shows something: the fallback alone, or ride alerts, at most one per rule |
| ServiceWorker.FallbackIffNothingFired | queue_alert_frontend/app/src/service-worker.ts:136-207 | the fallback is shown iff no rule fires, and then it is shown alone; a missing config gives only the fallback |
| ServiceWorker.Worker.constructor | queue_alert_frontend/app/src/service-worker.ts:112-118 | an empty store holds no config |
| ServiceWorker.Worker.SetConfig | queue_alert_frontend/app/src/service-worker.ts:230-241 | 'setConfig' replaces the stored config |
| ServiceWorker.Worker.GetConfig | queue_alert_frontend/app/src/service-worker.ts:246-262 | 'getConfig' posts the stored config to every client, one post per client |
| ServiceWorker.Worker.Push | queue_alert_frontend/app/src/service-worker.ts:214-225 | a push shows what the handler shows for the stored config |
| ServiceWorker.SetThenGet | queue_alert_frontend/app/src/service-worker.ts:230-262 | after 'setConfig', 'getConfig' posts that config to every client |
| ServiceWorker.GetBeforeSet | queue_alert_frontend/app/src/service-worker.ts:246-262 | before any 'setConfig', every client gets null |
| ServiceWorker.LastSlash | queue_alert_frontend/app/src/service-worker.ts:41 | the position of the last '/', or none when there is none |
| ServiceWorker.FileExtensionIsLastSegment | queue_alert_frontend/app/src/service-worker.ts:41-57 | the file-extension regular expression matches iff the last path segment has a '.' that is not its first or last character and has no '?' before it |
| ServiceWorker.AppShellRouteIff | queue_alert_frontend/app/src/service-worker.ts:42-63 | the app shell serves exactly the navigations whose path does not start with "/_" and whose last segment has no extension |
| ServiceWorker.AppShellSkipsImages | queue_alert_frontend/app/src/service-worker.ts:42-81 | a navigation to a ".png" file is not served the app shell, and a same-origin one is taken by the image route |
| ServiceWorker.AllParksNavigationIsAppShell | queue_alert_frontend/app/src/service-worker.ts:42-88 | the app shell, registered first, serves a navigation to a "/allParks" page iff its last segment has no extension |
| ServiceWorker.ChooseWindow | queue_alert_frontend/app/src/service-worker.ts:271-291 | focuses the first window at the app's root URL, or opens one iff no window is there |
| LegacyWorker.TranslateRules | queue_alert_frontend/app/src/api/serviceWorker.ts:28 | the older rules as newer rules, one for one |
| LegacyWorker.Worker.constructor | queue_alert_frontend/app/src/api/serviceWorker.ts:15 | the worker starts without a config |
| LegacyWorker.Worker.SetConfig | queue_alert_frontend/app/src/api/serviceWorker.ts:95-104 | 'setConfig' replaces the config wholesale |
| LegacyWorker.Worker.GetConfig | queue_alert_frontend/app/src/api/serviceWorker.ts:109-123 | 'getConfig' posts the config to every client |
| LegacyWorker.LegacyPush | queue_alert_frontend/app/src/api/serviceWorker.ts:21-78 | a push always shows something: the fallback alone, or at most one alert per rule |
| LegacyWorker.Worker.HandlePush | queue_alert_frontend/app/src/api/serviceWorker.ts:21-78 | the handler loop shows the older alerts in rule order, or only the fallback |
| LegacyWorker.PushBeforeConfig | queue_alert_frontend/app/src/api/serviceWorker.ts:15-76 | without a config a push shows only "No conditions met" |
| LegacyWorker.SameAlertsAsNewerWorker | queue_alert_frontend/app/src/api/serviceWorker.ts:28-69 | the older worker's alerts have the same number, order and bodies as the newer worker's for the same rules |
| LegacyWorker.FallbackIffNothingFired | queue_alert_frontend/app/src/api/serviceWorker.ts:72-76 | the older worker falls back iff no rule fires under the newer worker's rule, and then shows only the fallback |
| ConfigReducer.InitConfig | queue_alert_frontend/app/src/components/ConfigReducer.ts:16-18 | the initial config satisfies the unique-names invariant the reducer keeps |
| ConfigReducer.Reduce | queue_alert_frontend/app/src/components/ConfigReducer.ts:20-73 | only a park change, a load or a reset changes the park; adding or removing leaves only rides from the state or the action's ride |
| ConfigReducer.WithoutName | queue_alert_frontend/app/src/components/ConfigReducer.ts:31-40 | the filter is a subsequence without the name that keeps every entry with another name exactly as many times as it occurs |
| ConfigReducer.ResetIsInit | queue_alert_frontend/app/src/components/ConfigReducer.ts:67-68 | 'reset' gives the initial config "none" with no rides |
| ConfigReducer.MissingPartsLeaveState | queue_alert_frontend/app/src/components/ConfigReducer.ts:23-71 | an action missing what it needs, or of another type, leaves the state |
| ConfigReducer.AddPresentRide | queue_alert_frontend/app/src/components/ConfigReducer.ts:26-29 | adding an Open or Closed rule already present changes nothing |
| ConfigReducer.AddRideResult | queue_alert_frontend/app/src/components/ConfigReducer.ts:23-34 | otherwise adding keeps the park, drops the ride's entries, keeps the rest in order with their multiplicities and appends the rule |
| ConfigReducer.AddWaitRuleReplaces | queue_alert_frontend/app/src/components/ConfigReducer.ts:26-33 | a wait rule is never found present, so adding it always replaces the ride's entries |
| ConfigReducer.RemoveRideResult | queue_alert_frontend/app/src/components/ConfigReducer.ts:37-43 | removal keeps the park, drops exactly the ride's entries, keeps the rest in order with their multiplicities, and looks only at the name |
| ConfigReducer.ChangeParkResult | queue_alert_frontend/app/src/components/ConfigReducer.ts:46-56 | changing the park resets the rides to the action's ride alone, or to none |
| ConfigReducer.LoadConfigResult | queue_alert_frontend/app/src/components/ConfigReducer.ts:59-65 | loading returns the loaded config |
| ConfigReducer.WithoutNameKeepsUnique | queue_alert_frontend/app/src/components/ConfigReducer.ts:31-40 | filtering keeps ride names unique |
| ConfigReducer.KeepsUniqueNames | queue_alert_frontend/app/src/components/ConfigReducer.ts:23-68 | add, remove, change park and reset keep ride names unique |
| ConfigReducer.WithoutNameIdempotent | queue_alert_frontend/app/src/components/ConfigReducer.ts:40 | filtering a name twice is filtering it once |
| ConfigReducer.AddRemoveIdempotent | queue_alert_frontend/app/src/components/ConfigReducer.ts:23-43 | the same add or remove sent twice has the effect of sending it once |
| KeyConversion.PadCount | queue_alert_frontend/app/src/api/queueAlertAccess.ts:192 | the pad count is below four and makes the length a multiple of four; it is zero iff the length already is one |
| KeyConversion.ReplaceAll | queue_alert_frontend/app/src/api/queueAlertAccess.ts:194-195 | every occurrence is replaced and every other character kept |
| KeyConversion.StandardFormShape | queue_alert_server/www/src/index.ts:199-202 | the padded string is a multiple of four long, '-' became '+' and '_' became '/', the padding is '=' and no '-' or '_' is left |
| KeyConversion.Atob | queue_alert_frontend/app/src/api/queueAlertAccess.ts:197 | `atob` yields only chars with codes below 256 |
| KeyConversion.UrlBase64ToUint8Array | queue_alert_frontend/app/src/api/queueAlertAccess.ts:191-204 | the copy loop fills a new array of the decoded length with the char codes; it fails exactly where `atob` throws |
| KeyConversion.EncodeUrl | queue_alert_server/src/main.rs:189 | the server's key encoding: URL-safe digits only, four per three bytes and two or three for a tail, no padding |
| KeyConversion.DecodeSextets | queue_alert_frontend/app/src/api/queueAlertAccess.ts:197 | decoding the base64 digits of bytes gives the bytes back |
| KeyConversion.KeyRoundTrip | queue_alert_frontend/app/src/api/queueAlertAccess.ts:187-204 | an unpadded base64url key converts to exactly the bytes it encodes |
| KeyConversion.RemainderOneRejected | queue_alert_server/www/src/index.ts:199-204 | a whitespace-free key whose length leaves remainder one is rejected |
| KeyConversion.ForeignCharacterRejected | queue_alert_server/www/src/index.ts:198-211 | a character outside both alphabets, other than whitespace or '=', makes the conversion fail |
| QueueAlertAccess.Access.constructor | queue_alert_frontend/app/src/api/queueAlertAccess.ts:31-42 | the client starts without a subscription and without requests |
| QueueAlertAccess.Access.LoadSubscription | queue_alert_frontend/app/src/api/queueAlertAccess.ts:35-41 | the browser's current subscription replaces the field |
| QueueAlertAccess.Access.SubscribeUserToPush | queue_alert_frontend/app/src/api/queueAlertAccess.ts:86-114 | Ok with no request when subscribed; otherwise the key status, the key conversion and the browser's answer decide, and only a granted subscription is kept |
| QueueAlertAccess.Access.UnsubscribeUserFromPush | queue_alert_frontend/app/src/api/queueAlertAccess.ts:119-125 | afterwards there is no subscription; a held one was cancelled |
| QueueAlertAccess.Access.RegisterWithBackend | queue_alert_frontend/app/src/api/queueAlertAccess.ts:132-156 | Err(1) and no request without a subscription; otherwise one post of the subscription and park, Ok iff the status is 2xx |
| QueueAlertAccess.Access.UnregisterWithBackend | queue_alert_frontend/app/src/api/queueAlertAccess.ts:164-185 | Err(1) and no request without a subscription; otherwise one post of the subscription, Ok iff the status is 2xx |
| QueueAlertAccess.UnsubscribedCannotRegister | queue_alert_frontend/app/src/api/queueAlertAccess.ts:119-137 | after unsubscribing, registering fails with 1 and posts nothing |
| QueueAlertAccess.SubscribeTwice | queue_alert_frontend/app/src/api/queueAlertAccess.ts:88-113 | a second subscribe issues no request |
| RegistrationRepo.EncodeAlert | queue_alert_server/src/registration.rs:210-219 | a status is stored as "open", "closed" or "wait", with a wait column exactly for "wait" |
| RegistrationRepo.DecodeAlert | queue_alert_server/src/registration.rs:65-74 | a row reads back exactly when its word is "open" or "closed", or "wait" with a wait; otherwise the read panics |
| RegistrationRepo.DecodeEncode | queue_alert_server/src/registration.rs:65-74 | reading back a stored alert gives the status |
| RegistrationRepo.EncodeDecode | queue_alert_server/src/registration.rs:210-219 | a row that reads back is the row the status is stored as |
| RegistrationRepo.DecodeEncodeRows | queue_alert_server/src/registration.rs:60-74 | the rows stored for a config read back as that config |
| RegistrationRepo.RowsOfAppend | queue_alert_server/src/registration.rs:60-64 | selecting an endpoint's rows distributes over appending |
| RegistrationRepo.RowsOfWithout | queue_alert_server/src/registration.rs:152-156 | deleting an endpoint's rows leaves none of them and keeps every other endpoint's |
| RegistrationRepo.Repository.UserCount | queue_alert_server/src/registration.rs:95-97 | with a consistent cache, the user count is the number of REGISTRATIONS rows |
| RegistrationRepo.Repository.IsRegistered | queue_alert_server/src/registration.rs:100-102 | with a consistent cache, an endpoint is registered iff it has a REGISTRATIONS row |
| RegistrationRepo.AddKeepsConsistent | queue_alert_server/src/registration.rs:105-136 | adding a registration whose endpoint has no RIDEALERTS rows left keeps the cache consistent with the tables |
| RegistrationRepo.AddConsistentIff | queue_alert_server/src/registration.rs:105-136 | after an add from a consistent cache, the cache is consistent with the tables exactly when RIDEALERTS held no rows for the endpoint |
| RegistrationRepo.RemoveThenAddDiverges | queue_alert_server/src/registration.rs:182-197 | removing a registration with rides and adding the endpoint again leaves a cache the tables do not reload as |
| RegistrationRepo.UpdateKeepsConsistent | queue_alert_server/src/registration.rs:139-168 | updating a registration with the subscription REGISTRATIONS already holds keeps the cache consistent with the tables |
| RegistrationRepo.UpdateConsistentIff | queue_alert_server/src/registration.rs:139-168 | after an update of a cached endpoint from a consistent cache, the cache is consistent with the tables exactly when the new subscription is the stored one |
| RegistrationRepo.RemoveKeepsConsistent | queue_alert_server/src/registration.rs:182-197 | removing a registration keeps the cache consistent with the tables |
| RegistrationRepo.RemoveSetKeepsConsistent | queue_alert_server/src/registration.rs:182-197 | removing any set of cached endpoints keeps the cache consistent with the tables |
| RegistrationRepo.AddConfigToTransaction | queue_alert_server/src/registration.rs:200-224 | the ride loop appends one row per ride, or fails with the first failing insert |
| RegistrationRepo.Repository.constructor | queue_alert_server/src/registration.rs:41-92 | the repository holds the given tables and cache |
| RegistrationRepo.Repository.AddRegistration | queue_alert_server/src/registration.rs:105-136 | on commit the tables and the cache gain the registration; on any failing statement nothing changes |
| RegistrationRepo.Repository.UpdateRegistration | queue_alert_server/src/registration.rs:139-168 | on commit the park and rides are replaced and the cache updated; on failure nothing changes |
| RegistrationRepo.Repository.AddOrUpdateRegistration | queue_alert_server/src/registration.rs:171-179 | updates iff the endpoint is cached, otherwise adds; fails exactly when a statement of the chosen call fails, and then changes nothing; on success gives the new tables and cache of the chosen call, and from a consistent cache stays consistent exactly when an add finds no rows left or an update brings the stored subscription |
| RegistrationRepo.Repository.RemoveRegistration | queue_alert_server/src/registration.rs:182-197 | true and the endpoint dropped iff it was registered and the delete succeeded; false and nothing changed iff it was not registered |
| RegistrationRepo.CacheDb | queue_alert_server/src/registration.rs:41-92 | loading succeeds iff every registration has a park and rows that read back, and then the cache is exactly the tables' content |
| RegistrationRepo.LoadedRepositoryStaysConsistent | queue_alert_server/src/registration.rs:41-92 | a repository built from loaded tables is consistent |
| Routes.StringLtTransitive | queue_alert_server/src/routes.rs:46 | the endpoint order is transitive |
| Routes.StringLtTotal | queue_alert_server/src/routes.rs:46 | two different endpoints are ordered one way or the other |
| Routes.BinarySearch | queue_alert_server/src/routes.rs:46-75 | on a sorted vector, returns the index of the endpoint, or the insertion point with smaller endpoints before it and larger after |
| Routes.InsertKeepsSorted | queue_alert_server/src/routes.rs:53-59 | inserting at the insertion point keeps the vector strictly sorted |
| Routes.RemoveKeepsSorted | queue_alert_server/src/routes.rs:73-77 | removing an element keeps the vector strictly sorted |
| Routes.Subscribers.constructor | queue_alert_server/src/main.rs:59 | the subscriber vector starts empty and sorted |
| Routes.Subscribers.Register | queue_alert_server/src/routes.rs:41-61 | Ok; a present endpoint leaves the vector unchanged; a new one is inserted in sorted position; the length grows by one iff new |
| Routes.Subscribers.Unregister | queue_alert_server/src/routes.rs:66-83 | Ok iff present, and then exactly that element is removed; otherwise BadRequest with the vector unchanged; the endpoint is absent afterwards |
| Routes.RemoveInserted | queue_alert_server/src/routes.rs:53-77 | removing the element just inserted gives the vector back |
| Routes.RegisterThenUnregister | queue_alert_server/src/routes.rs:41-83 | registering a new endpoint and unregistering it restores the vector |
| Routes.GetParkWaitTimes | queue_alert_server/src/routes.rs:120-158 | a bad URL and a non-queue-times domain are refused before any fetch; a fetch error is an internal error; otherwise the times come back sorted and with the same elements |
| Routes.WaitTimesOrderUnique | queue_alert_server/src/routes.rs:151 | the sorted answer is unique: any two sorted permutations of the times are equal |
| Routes.LeastNameExists | queue_alert_server/src/routes.rs:100 | a non-empty set of park names has a least name |
| Routes.GetAllParks | queue_alert_server/src/routes.rs:93-107 | the park map as entries in strictly increasing name order, each entry from the map and every park present; a client error is an internal error |
| PushApp.FindConfig | queue_alert_server/src/app.rs:96 | the first config entry with the ride's name, or none exactly when no entry has it |
| PushApp.RidesToSend | queue_alert_server/src/app.rs:95-108 | the records kept are a subsequence of the feed, each one alerted on, and every alerted record is kept |
| PushApp.Alerts | queue_alert_server/src/app.rs:100-104 | the server's test on a status agrees with the client's rule on the same status |
| PushApp.ServerAgreesWithClient | queue_alert_server/src/app.rs:94-108 | with unique ride names in the config, the client alerts for a rule on what was pushed iff the feed has a record for that ride that the server alerts on |
| PushApp.PushedRecordsAlert | queue_alert_server/src/app.rs:94-113 | every pushed record makes the client alert through its ride's rule |
| PushApp.PushToClients | queue_alert_server/src/app.rs:51-168 | nothing is fetched without subscribers; a park-map error stops the round; a push is tried exactly for subscribers with a park URL, fetched times and records to send; stale endpoints are collected and removed from the cache and REGISTRATIONS; the other tables are untouched and a consistent repository stays consistent |
| PushApp.SendToCached | queue_alert_server/src/app.rs:75-158 | the send loop tries a push for exactly the cached subscribers with records to send, with those records, and collects the endpoints whose push came back stale |
| PushApp.RemoveAll | queue_alert_server/src/app.rs:162-167 | each collected endpoint is removed from the cache, and from REGISTRATIONS when it was cached, unless its delete fails; CONFIGS and RIDEALERTS are untouched and consistency is kept |

## Left out

- The HTML parser and the CSS selectors of the `scraper` crate are left out. A page is the
  sequence of spans its selector picks, and the front page is its `.panel-block` elements.
- General URL resolution by the `url` crate is left out. A plain absolute href is joined
  exactly. Any other href goes to a resolution function given as a parameter. A park URL is
  its serialised string.
- The JSON decoding of parks.json and of a park's document is left out, because serde_json is
  a foreign library. The model takes the decoded brands, parks, lands and rides. The
  `unwrap`s on missing fields are not modelled.
- The network is left out, because these are foreign calls. This covers reqwest, the queue
  times client behind `CachedClient`, `fetch`, `web_push` message building and sending, and
  loading the VAPID key. Their answers are parameters of the model.
- The compression and encoding of the push payload is left out:
  - on the server: JSON, gzip, then base64;
  - in the service worker: `toByteArray`, then `decompressSync`, then `JSON.parse`.
  The model takes the ride list as sent and as received.
- Timers, the actix server setup, logging and the locks (`RwLock`, `Mutex`, the worker's
  `configMutex`) are left out. The model is sequential.
- The SQL schema, its keys and its cascading deletes are not modelled. Tables are maps from
  endpoint, and RIDEALERTS is a sequence of rows in table order. An insert over an existing
  key overwrites it.
- RegistrationRepo.Repository.UpdateRegistration: it does not rewrite the REGISTRATIONS row,
  as in the source. The stored subscription keys stay those that were first registered, while
  the cache gets the new ones.
- RegistrationRepo.UpdateKeepsConsistent is stated only for an update that brings the
  subscription REGISTRATIONS already holds. With new keys for the same endpoint, the cache and
  the tables disagree after the update (RegistrationRepo.UpdateConsistentIff).
- RegistrationRepo.AddKeepsConsistent is stated only for an endpoint with no RIDEALERTS rows
  left. `remove_registration` deletes only the REGISTRATIONS row, and the model keeps CONFIGS
  and RIDEALERTS as they are. A later add of the same endpoint then appends its rows after the
  old ones, and the tables reload with the old rides too
  (RegistrationRepo.RemoveThenAddDiverges). Whether the database removes those rows depends on
  the schema's cascades; init.sql is not part of this model.
- QueueAlertAccess.SubscribeError.KeyThrew stands for an exception, not a returned `Err`. The
  key conversion in `subscribeUserToPush` sits outside its `try`, so a key that `atob` rejects
  makes the returned promise reject.
- ConfigReducer: the source imports `alertOption` from alertConfig.ts, which does not define
  it. This affects only the type annotations of the actions, not the reducer's behaviour.
- LegacyWorker.Worker.HandlePush walks the rule list. The source walks the entries of the
  config tuple, so it also walks the characters of the park string. None of those characters
  has a `rideName`, so none matches a record. The model does not represent that walk.
- ApiClient.ApiStatus models `wait as u16` as the low 16 bits. A negative `wait_time` thus
  becomes a very long wait, where the scraper takes the magnitude of "-2 mins".
  ApiClient.ApiAgreesWithScraper is stated only for waits from 0 to 32767.
- ServiceWorker.ChooseWindow takes the root URL to be the origin followed by "/". The model
  does not resolve an origin that has a path.
- Precaching, `skipWaiting`, the workbox strategies and the image cache's expiry are left out.
  Only the three route predicates are modelled.
- Sorting.Sort stands for Rust's `slice::sort`. Since the order on ride times is total, every
  sorted permutation is the same sequence (Routes.WaitTimesOrderUnique). Stability does not
  matter here.
- Routes.GetAllParks builds the name-ordered entries by repeatedly extracting the least name.
  It does not model the `BTreeMap`'s internals, only the order the response has.
- PushApp.PushToClients: building the message can fail with `PayloadTooLarge` or another
  error, and a failed removal is only logged. These are the send outcomes and the removal
  failures given as parameters. A panic of `WebPushMessageBuilder::new` is not modelled.
- QueueAlertAccess: `getAllParks` and `getParkRideTimes` are left out, because they are plain
  fetches with no logic besides the status test. A `fetch` that rejects is not modelled.
- QueueAlertAccess.Access.UnsubscribeUserFromPush always ends without a subscription. In the
  source `this.sub.unsubscribe()` can reject, and then the field is not cleared; that
  rejection is not modelled. A `getRegistration` that rejects, or a missing service worker,
  in any of the access methods is not modelled either.
- KeyConversion.Atob models the forgiving-base64 decode of the WHATWG Infra Standard
  (section 4.7). A code point above U+00FF has no digit value, so the key is rejected just as
  `atob` rejects it.
- The UI components, the config store, the saving of configs and the server's own static site
  are outside this model.
