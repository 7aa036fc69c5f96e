/** The client over the official Queue Times JSON API (queue_times/src/api.rs).

    The HTTP requests and the JSON decoding are not part of this model: the JSON documents
    are given already decoded into the fields the client reads. */
module ApiClient {
  import opened Wrappers
  import opened Text
  import opened RideModel
  import Assoc
  import ParkParser

  /** A ride object: its name, `is_open` and `wait_time` (an `i64`). */
  datatype ApiRide = ApiRide(name: string, isOpen: bool, waitTime: int)

  /** A land object: its rides. */
  datatype ApiLand = ApiLand(rides: seq<ApiRide>)

  /** A park object of parks.json: its `id` (an `i64`) and `name`. */
  datatype ApiPark = ApiPark(id: int, name: string)

  /** A brand of parks.json: the parks nested in it. */
  datatype ApiBrand = ApiBrand(parks: seq<ApiPark>)

  /** `wait as u16`: keeps the low 16 bits of the two's complement value. */
  function TruncateU16(w: int): (r: u16)
    ensures 0 <= w < 0x1_0000 ==> r as int == w
    ensures (w - r as int) % 0x1_0000 == 0
  {
    (w % 0x1_0000) as u16
  }

  /** The status the API's `is_open` and `wait_time` stand for. */
  function ApiStatus(isOpen: bool, wait: int): (s: RideStatus)
    ensures s == Closed <==> !isOpen
    ensures s == Open <==> isOpen && wait == 0
    ensures s.Wait? <==> isOpen && wait != 0
    ensures s.Wait? ==> s.minutes == TruncateU16(wait)
  {
    if isOpen && wait == 0 then Open
    else if isOpen then Wait(TruncateU16(wait))
    else Closed
  }

  /** A wait that is a whole multiple of 65536 minutes wraps to a zero wait, which is not `Open`. */
  lemma WaitWrapsAround(k: int)
    requires k != 0
    ensures ApiStatus(true, k * 0x1_0000) == Wait(0)
  {
    assert (k * 0x1_0000) % 0x1_0000 == 0;
  }

  /** The API and the scraper agree: reading the site's text for the API's status gives that
      status back, for every wait the page can show. */
  lemma ApiAgreesWithScraper(isOpen: bool, wait: int)
    requires 0 <= wait <= I16Max
    ensures ParkParser.ParseStatus(ParkParser.StatusText(ApiStatus(isOpen, wait))) == Ok(ApiStatus(isOpen, wait))
  {
    var s := ApiStatus(isOpen, wait);
    ParkParser.ParseStatusText(s, [], []);
    assert [] + ParkParser.StatusText(s) + [] == ParkParser.StatusText(s);
  }

  /** The ride time of one ride object. */
  function RideOf(r: ApiRide): RideTime {
    RideTime(r.name, ApiStatus(r.isOpen, r.waitTime))
  }

  /** `parse_rides`: the rides mapped one for one. */
  function ParseRides(rides: seq<ApiRide>): (r: seq<RideTime>)
    ensures |r| == |rides|
    ensures forall i :: 0 <= i < |rides| ==> r[i] == RideOf(rides[i])
  {
    if rides == [] then [] else [RideOf(rides[0])] + ParseRides(rides[1..])
  }

  /** Parsing keeps the names in order. */
  lemma ParseRidesKeepsNames(rides: seq<ApiRide>)
    ensures forall i :: 0 <= i < |rides| ==> ParseRides(rides)[i].name == rides[i].name
    ensures forall i :: 0 <= i < |rides| ==>
              (ParseRides(rides)[i].status == Closed <==> !rides[i].isOpen)
  {
  }

  /** Parsing two runs of rides is parsing their concatenation. */
  lemma ParseRidesAppend(a: seq<ApiRide>, b: seq<ApiRide>)
    ensures ParseRides(a + b) == ParseRides(a) + ParseRides(b)
  {
  }

  /** The lands' rides, land after land. */
  function LandRides(lands: seq<ApiLand>): (r: seq<ApiRide>)
  {
    if lands == [] then [] else lands[0].rides + LandRides(lands[1..])
  }

  /** `get_ride_times` on a decoded park document: the top-level rides, parsed one for one,
      when there are no lands; otherwise each land's parsed rides in land order, whatever the
      top-level rides are. */
  function SelectRides(lands: seq<ApiLand>, rides: seq<ApiRide>): (r: seq<RideTime>)
    ensures lands == [] ==> |r| == |rides| && forall i :: 0 <= i < |rides| ==> r[i] == RideOf(rides[i])
    ensures lands != [] ==> r == PerLand(lands)
  {
    if lands == [] then ParseRides(rides)
    else
      ParseRidesPerLand(lands);
      ParseRides(LandRides(lands))
  }

  /** The rides of each land, parsed land by land. */
  function PerLand(lands: seq<ApiLand>): seq<RideTime> {
    if lands == [] then [] else ParseRides(lands[0].rides) + PerLand(lands[1..])
  }

  /** Flattening the lands and parsing is parsing land by land. */
  lemma {:induction false} ParseRidesPerLand(lands: seq<ApiLand>)
    ensures ParseRides(LandRides(lands)) == PerLand(lands)
  {
    if lands != [] {
      ParseRidesAppend(lands[0].rides, LandRides(lands[1..]));
      ParseRidesPerLand(lands[1..]);
    }
  }

  /** A park whose rides all sit in lands that have no rides gives no rides at all. */
  lemma EmptyLandsHideRides(lands: seq<ApiLand>, rides: seq<ApiRide>)
    requires lands != [] && forall i :: 0 <= i < |lands| ==> lands[i].rides == []
    ensures SelectRides(lands, rides) == []
  {
    EmptyLands(lands);
  }

  lemma {:induction false} EmptyLands(lands: seq<ApiLand>)
    requires forall i :: 0 <= i < |lands| ==> lands[i].rides == []
    ensures LandRides(lands) == []
  {
    if lands != [] {
      assert forall i :: 0 <= i < |lands[1..]| ==> lands[1..][i] == lands[i + 1];
      EmptyLands(lands[1..]);
    }
  }

  // ---------------------------------------------------------------------------
  // Park URLs

  /** `BASE_URL.join("en-US/parks/").join("{id}/").join("queue_times")`. */
  function ParkUrl(id: int): string {
    "https://queue-times.com/en-US/parks/" + IntToString(id) + "/queue_times"
  }

  /** The URL of the park's JSON document: the page's URL with ".json" appended. */
  function ParkJsonUrl(parkUrl: string): (r: string)
    ensures StartsWith(r, parkUrl) && EndsWith(r, ".json")
  {
    var r := parkUrl + ".json";
    assert r[..|parkUrl|] == parkUrl;
    r
  }

  /** Different park pages have different JSON documents, so the document of park `id` is
      that park's alone. */
  lemma ParkJsonUrlInjective(a: int, b: int)
    requires ParkJsonUrl(ParkUrl(a)) == ParkJsonUrl(ParkUrl(b))
    ensures a == b
  {
    var ua, ub := ParkUrl(a), ParkUrl(b);
    assert ua == ParkJsonUrl(ua)[..|ua|] && ub == ParkJsonUrl(ub)[..|ub|];
    ParkUrlInjective(a, b);
  }

  /** Different ids give different URLs. */
  lemma ParkUrlInjective(a: int, b: int)
    requires ParkUrl(a) == ParkUrl(b)
    ensures a == b
  {
    var pre := "https://queue-times.com/en-US/parks/";
    var post := "/queue_times";
    var sa, sb := IntToString(a), IntToString(b);
    assert |sa| == |sb| by {
      assert |ParkUrl(a)| == |pre| + |sa| + |post|;
      assert |ParkUrl(b)| == |pre| + |sb| + |post|;
    }
    assert sa == ParkUrl(a)[|pre|..|pre| + |sa|];
    assert sb == ParkUrl(b)[|pre|..|pre| + |sb|];
    IntToStringInjective(a, b);
  }

  /** The scraper, joining the front page's href "/en-US/parks/{id}", reaches the same URL. */
  lemma ScraperUrlAgrees(id: int, resolve: string -> Result<string, ParkParser.ParseError>)
    ensures ParkParser.JoinParkUrl("/en-US/parks/" + IntToString(id), resolve) == Ok(ParkUrl(id))
  {
    var prefix := "/en-US/parks/";
    var number := IntToString(id);
    var href := prefix + number;
    NumberIsPlain(id);
    assert AllPlain(prefix);
    PlainConcat(prefix, number);
    assert href[0] == '/' && href[1] == 'e';
    assert ParkParser.IsPlainAbsolutePath(href);
    assert ParkParser.BaseUrl + prefix == "https://queue-times.com/en-US/parks/";
    assert ParkParser.BaseUrl + href + "/queue_times" == (ParkParser.BaseUrl + prefix) + number + "/queue_times";
  }

  predicate AllPlain(s: string) {
    forall i :: 0 <= i < |s| ==> ParkParser.IsPlainPathChar(s[i])
  }

  lemma PlainConcat(a: string, b: string)
    requires AllPlain(a) && AllPlain(b)
    ensures AllPlain(a + b)
  {
    forall i | 0 <= i < |a + b| ensures ParkParser.IsPlainPathChar((a + b)[i]) {
      if i < |a| { assert (a + b)[i] == a[i]; } else { assert (a + b)[i] == b[i - |a|]; }
    }
  }

  lemma NumberIsPlain(id: int)
    ensures AllPlain(IntToString(id))
  {
    var s := IntToString(id);
    if id < 0 {
      var digits := NatToString(-id);
      forall i | 0 <= i < |s| ensures ParkParser.IsPlainPathChar(s[i]) {
        if i > 0 { assert s[i] == digits[i - 1]; }
      }
    }
  }

  /** The (name, URL) pairs of parks.json, brand after brand. */
  function ParkPairs(brands: seq<ApiBrand>): seq<(string, string)> {
    if brands == [] then [] else PairsOf(brands[0].parks) + ParkPairs(brands[1..])
  }

  function PairsOf(parks: seq<ApiPark>): (r: seq<(string, string)>)
    ensures |r| == |parks|
    ensures forall i :: 0 <= i < |parks| ==> r[i] == (parks[i].name, ParkUrl(parks[i].id))
  {
    seq(|parks|, i requires 0 <= i < |parks| => (parks[i].name, ParkUrl(parks[i].id)))
  }

  /** `ApiClient::get_park_urls` on decoded parks.json: every park of every brand, inserted in order. */
  method GetParkUrls(brands: seq<ApiBrand>) returns (parkMap: map<string, string>)
    ensures parkMap == Assoc.InsertAll(ParkPairs(brands), map[])
  {
    parkMap := map[];
    for b := 0 to |brands|
      invariant Assoc.InsertAll(ParkPairs(brands), map[]) == Assoc.InsertAll(ParkPairs(brands[b..]), parkMap)
    {
      var parks := brands[b].parks;
      ghost var before := parkMap;
      assert brands[b..][1..] == brands[b + 1..];
      assert ParkPairs(brands[b..]) == PairsOf(parks) + ParkPairs(brands[b + 1..]);
      Assoc.InsertAllAppend(PairsOf(parks), ParkPairs(brands[b + 1..]), before);
      for p := 0 to |parks|
        invariant Assoc.InsertAll(PairsOf(parks), before) == Assoc.InsertAll(PairsOf(parks[p..]), parkMap)
      {
        var park := parks[p];
        assert parks[p..][1..] == parks[p + 1..];
        assert PairsOf(parks[p..])[1..] == PairsOf(parks[p + 1..]);
        parkMap := parkMap[park.name := ParkUrl(park.id)];
      }
      assert parks[|parks|..] == [];
    }
    assert brands[|brands|..] == [];
  }

  /** Each park's URL is its id's page, and a park name met twice keeps the URL of the last
      park listed under it. */
  lemma ParkUrlsLastWins(brands: seq<ApiBrand>, j: int)
    requires 0 <= j < |ParkPairs(brands)| && Assoc.IsLastFor(ParkPairs(brands), j)
    ensures ParkPairs(brands)[j].0 in Assoc.InsertAll(ParkPairs(brands), map[])
    ensures Assoc.InsertAll(ParkPairs(brands), map[])[ParkPairs(brands)[j].0] == ParkPairs(brands)[j].1
    ensures exists id :: ParkPairs(brands)[j].1 == ParkUrl(id)
  {
    Assoc.InsertAllLastWins(ParkPairs(brands), map[], j);
    PairsAreParkUrls(brands, j);
  }

  lemma {:induction false} PairsAreParkUrls(brands: seq<ApiBrand>, j: int)
    requires 0 <= j < |ParkPairs(brands)|
    ensures exists id :: ParkPairs(brands)[j].1 == ParkUrl(id)
  {
    var first := PairsOf(brands[0].parks);
    if j < |first| {
      assert ParkPairs(brands)[j] == first[j];
      assert first[j].1 == ParkUrl(brands[0].parks[j].id);
    } else {
      assert ParkPairs(brands)[j] == ParkPairs(brands[1..])[j - |first|];
      PairsAreParkUrls(brands[1..], j - |first|);
    }
  }

  /** The page of park 50 (Cedar Point). */
  lemma CedarPointUrl()
    ensures ParkUrl(50) == "https://queue-times.com/en-US/parks/50/queue_times"
  {
    assert NatToString(50) == "50" by {
      assert NatToString(5) == "5";
      assert DigitChar(0) == '0';
    }
  }
}
