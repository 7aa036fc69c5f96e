/** The scrapers of the `queue_times` library (queue_times/src/parser.rs).

    HTML parsing and CSS selection belong to the `scraper` crate and are not part of
    this model: a park page is given as the sequence of spans its selector picks, each
    span as its text nodes in document order, and the front page as the sequence of
    `.panel-block` elements, each with its `href` attribute and its text nodes. */
module ParkParser {
  import opened Wrappers
  import opened Text
  import opened RideModel
  import Assoc

  /** The errors of queue_times/src/error.rs that the parsers raise, plus `Panic` for an
      `unwrap()` on a missing first text node, where the source aborts. */
  datatype ParseError =
    | WaitTimeParse(text: string)
    | HrefMissing
    | UrlError(href: string)
    | Panic

  /** A selected span: its text nodes. */
  type Span = seq<string>

  // ---------------------------------------------------------------------------
  // Ride statuses

  /** The test the scraper applies to the span after a name: does it read like a status? */
  predicate IsStatusLike(text: string) {
    var t := Trim(text);
    t == "Closed" || t == "Open" || EndsWith(t, "mins")
  }

  /** The status a span's text stands for. */
  function ParseStatus(text: string): (r: Result<RideStatus, ParseError>)
    ensures r.Err? ==> r.error.WaitTimeParse?
  {
    var t := Trim(text);
    if t == "Closed" then Ok(Closed)
    else if t == "Open" then Ok(Open)
    else if EndsWith(t, "mins") then
      match FirstAsciiToken(t)
      case None => Err(WaitTimeParse(t))
      case Some(token) =>
        match ParseI16(token)
        case None => Err(WaitTimeParse(t))
        case Some(n) => Ok(Wait(UnsignedAbs(n)))
    else Err(WaitTimeParse(""))
  }

  /** `i16::unsigned_abs`: the magnitude as a `u16`, defined for `-32768` too. */
  function UnsignedAbs(n: int): (m: u16)
    requires I16Min <= n <= I16Max
    ensures m as int == n || m as int == -n
    ensures m >= 0
  {
    if n < 0 then (-n) as u16 else n as u16
  }

  /** How the site shows a status: "Closed", "Open", or "<minutes> mins". */
  function StatusText(s: RideStatus): string {
    match s
    case Closed => "Closed"
    case Open => "Open"
    case Wait(m) => NatToString(m as nat) + " mins"
  }

  /** Reading a status back from how the site shows it gives the status, for every wait
      an `i16` can hold; surrounding whitespace does not matter. */
  lemma ParseStatusText(s: RideStatus, pad: string, pad': string)
    requires s.Wait? ==> s.minutes as int <= I16Max
    requires forall i :: 0 <= i < |pad| ==> IsWhitespace(pad[i])
    requires forall i :: 0 <= i < |pad'| ==> IsWhitespace(pad'[i])
    ensures IsStatusLike(pad + StatusText(s) + pad')
    ensures ParseStatus(pad + StatusText(s) + pad') == Ok(s)
  {
    var text := StatusText(s);
    TrimPadded(pad, text, pad');
    if s.Wait? {
      var digits := NatToString(s.minutes as nat);
      assert text == digits + " mins";
      assert text[|text| - 4..] == "mins";
      assert text != "Closed" && text != "Open" by {
        assert IsDigit(text[0]);
      }
      assert DropAsciiWhitespace(text) == text by { assert IsDigit(text[0]); }
      var token := TokenPrefix(text);
      assert TokenPrefix(text) == digits by {
        TokenOfDigits(digits, " mins");
      }
      ParseI16OfPrinted(s.minutes as int);
    }
  }

  lemma {:induction false} TokenOfDigits(digits: string, rest: string)
    requires AllDigits(digits)
    requires rest == [] || IsAsciiWhitespace(rest[0])
    ensures TokenPrefix(digits + rest) == digits
  {
    if digits != [] {
      assert (digits + rest)[1..] == digits[1..] + rest;
      TokenOfDigits(digits[1..], rest);
    }
  }

  /** Trimming a text with whitespace around it gives the text, when the text has none at its ends. */
  lemma TrimPadded(pad: string, text: string, pad': string)
    requires text != [] && !IsWhitespace(text[0]) && !IsWhitespace(text[|text| - 1])
    requires forall i :: 0 <= i < |pad| ==> IsWhitespace(pad[i])
    requires forall i :: 0 <= i < |pad'| ==> IsWhitespace(pad'[i])
    ensures Trim(pad + text + pad') == text
  {
    DropPad(pad, text + pad');
    assert pad + text + pad' == pad + (text + pad');
    DropPadEnd(text, pad');
  }

  lemma {:induction false} DropPad(pad: string, s: string)
    requires s != [] && !IsWhitespace(s[0])
    requires forall i :: 0 <= i < |pad| ==> IsWhitespace(pad[i])
    ensures TrimStart(pad + s) == s
  {
    if pad != [] {
      assert (pad + s)[1..] == pad[1..] + s;
      DropPad(pad[1..], s);
    }
  }

  lemma {:induction false} DropPadEnd(s: string, pad: string)
    requires s != [] && !IsWhitespace(s[|s| - 1])
    requires forall i :: 0 <= i < |pad| ==> IsWhitespace(pad[i])
    ensures TrimEnd(s + pad) == s
  {
    if pad != [] {
      assert (s + pad)[..|s + pad| - 1] == s + pad[..|pad| - 1];
      DropPadEnd(s, pad[..|pad| - 1]);
    }
  }

  /** A negative wait is read as its magnitude: "-2 mins" is a two-minute wait. */
  lemma NegativeWaitIsMagnitude(n: nat)
    requires 0 < n <= -I16Min
    ensures ParseStatus("-" + NatToString(n) + " mins") == Ok(Wait(n as u16))
  {
    var digits := NatToString(n);
    var text := "-" + digits + " mins";
    assert Trim(text) == text by {
      TrimPadded([], text, []);
      assert [] + text + [] == text;
    }
    assert EndsWith(text, "mins") by { assert text[|text| - 4..] == "mins"; }
    assert text != "Closed" && text != "Open" by { assert text[0] == '-'; }
    var token := "-" + digits;
    assert FirstAsciiToken(text) == Some(token) by {
      assert DropAsciiWhitespace(text) == text;
      assert text[1..] == digits + " mins";
      TokenOfDigits(digits, " mins");
    }
    assert ParseI16(token) == Some(-(n as int)) by {
      assert IntToString(-(n as int)) == token;
      ParseI16OfPrinted(-(n as int));
    }
  }

  /** A "... mins" text whose first word is not an `i16` fails with that text. */
  lemma BadMinutesFail(text: string)
    requires EndsWith(Trim(text), "mins")
    requires FirstAsciiToken(Trim(text)).Some? && ParseI16(FirstAsciiToken(Trim(text)).value).None?
    ensures ParseStatus(text) == Err(WaitTimeParse(Trim(text)))
  {
    var t := Trim(text);
    assert t != "Open" && t != "Closed" by {
      assert t[|t| - 4..] == "mins";
    }
  }

  // ---------------------------------------------------------------------------
  // The park page state machine

  /** Combines rides found so far with the outcome of the rest of the scan. */
  function Then(done: seq<RideTime>, rest: Result<seq<RideTime>, ParseError>): Result<seq<RideTime>, ParseError> {
    match rest
    case Ok(more) => Ok(done + more)
    case Err(e) => Err(e)
  }

  /** The scan while it looks for a name: a span followed by one that does not read like a
      status is skipped; otherwise the span's first text node, trimmed, is the name. Every
      ride takes two spans, so there are at most half as many rides as spans. */
  function ScanName(spans: seq<Span>): (r: Result<seq<RideTime>, ParseError>)
    ensures r.Ok? ==> 2 * |r.value| <= |spans|
    decreases |spans|, 1
  {
    if spans == [] then Ok([])
    else if |spans| > 1 && !IsStatusLike(Concat(spans[1])) then ScanName(spans[1..])
    else if spans[0] == [] then Err(Panic)
    else ScanStatus(Trim(spans[0][0]), spans[1..])
  }

  /** The scan once a name is read: the next span is its status (a trailing name is dropped). */
  function ScanStatus(name: string, spans: seq<Span>): (r: Result<seq<RideTime>, ParseError>)
    ensures r.Ok? ==> 2 * |r.value| <= |spans| + 1
    decreases |spans|, 0
  {
    if spans == [] then Ok([])
    else
      match ParseStatus(Concat(spans[0]))
      case Err(e) => Err(e)
      case Ok(status) => Then([RideTime(name, status)], ScanName(spans[1..]))
  }

  /** `GenericParkParser::get_ride_times` on the selected spans. */
  method GetRideTimes(spans: seq<Span>) returns (r: Result<seq<RideTime>, ParseError>)
    ensures r == ScanName(spans)
  {
    var rideTimes: seq<RideTime> := [];
    var nameBeingProcessed := true;
    var temp := DefaultRideTime();
    var i := 0;
    assert spans[0..] == spans;
    assert Then([], ScanName(spans)) == ScanName(spans) by {
      if ScanName(spans).Ok? { assert [] + ScanName(spans).value == ScanName(spans).value; }
    }
    while i < |spans|
      invariant 0 <= i <= |spans|
      invariant nameBeingProcessed ==> ScanName(spans) == Then(rideTimes, ScanName(spans[i..]))
      invariant !nameBeingProcessed ==> ScanName(spans) == Then(rideTimes, ScanStatus(temp.name, spans[i..]))
      invariant !nameBeingProcessed && i < |spans| ==> IsStatusLike(Concat(spans[i]))
    {
      var span := spans[i];
      i := i + 1;
      if nameBeingProcessed && i < |spans| {
        // Skip this span when the next one does not read like a status.
        var shouldBreak := !IsStatusLike(Concat(spans[i]));
        if shouldBreak {
          assert spans[i - 1..][1..] == spans[i..];
          continue;
        }
      }
      if nameBeingProcessed {
        if span == [] {
          assert ScanName(spans[i - 1..]) == Err(Panic);
          return Err(Panic);
        }
        temp := temp.(name := Trim(span[0]));
        nameBeingProcessed := false;
        assert spans[i - 1..][1..] == spans[i..];
      } else {
        var status: RideStatus;
        match ParseStatus(Concat(span)) {
          case Err(e) =>
            return Err(e);
          case Ok(s) =>
            status := s;
        }
        temp := temp.(status := status);
        assert spans[i - 1..][1..] == spans[i..];
        assert rideTimes + [temp] + [] == rideTimes + [temp];
        ThenAssoc(rideTimes, [temp], ScanName(spans[i..]));
        rideTimes := rideTimes + [temp];
        temp := DefaultRideTime();
        nameBeingProcessed := true;
      }
    }
    assert spans[i..] == [];
    assert rideTimes + [] == rideTimes;
    r := Ok(rideTimes);
  }

  lemma ThenAssoc(a: seq<RideTime>, b: seq<RideTime>, rest: Result<seq<RideTime>, ParseError>)
    ensures Then(a, Then(b, rest)) == Then(a + b, rest)
  {
    if rest.Ok? {
      assert a + (b + rest.value) == (a + b) + rest.value;
    }
  }

  /** `ride` is read from the name span `k` and the status span right after it. */
  ghost predicate PairAt(spans: seq<Span>, ride: RideTime, k: nat) {
    && k + 1 < |spans|
    && spans[k] != []
    && ride.name == Trim(spans[k][0])
    && ParseStatus(Concat(spans[k + 1])) == Ok(ride.status)
  }

  /** Ride `j` of the result pairs the name span `ks[j]` with the status span right after it,
      and the pairs do not overlap. */
  ghost predicate PairedAt(spans: seq<Span>, rides: seq<RideTime>, ks: seq<nat>) {
    && |ks| == |rides|
    && (forall j :: 0 <= j < |ks| ==> PairAt(spans, rides[j], ks[j]))
    && (forall j :: 0 <= j < |ks| - 1 ==> ks[j] + 2 <= ks[j + 1])
  }

  lemma PairAtShift(spans: seq<Span>, d: nat, ride: RideTime, k: nat)
    requires d <= |spans| && PairAt(spans[d..], ride, k)
    ensures PairAt(spans, ride, k + d)
  {
    assert spans[k + d] == spans[d..][k] && spans[k + d + 1] == spans[d..][k + 1];
  }

  /** Every index of `ks` moved `d` places on. */
  function Shift(ks: seq<nat>, d: nat): (r: seq<nat>)
    ensures |r| == |ks| && forall j :: 0 <= j < |ks| ==> r[j] == ks[j] + d
  {
    if ks == [] then [] else [ks[0] + d] + Shift(ks[1..], d)
  }

  /** Pairs found after `d` skipped spans are pairs of the whole page, `d` places on. */
  lemma PairedAfterSkip(spans: seq<Span>, d: nat, rides: seq<RideTime>, ks: seq<nat>)
    requires d <= |spans| && PairedAt(spans[d..], rides, ks)
    ensures PairedAt(spans, rides, Shift(ks, d))
  {
    var ks2 := Shift(ks, d);
    forall j | 0 <= j < |ks2| ensures PairAt(spans, rides[j], ks2[j]) {
      PairAtShift(spans, d, rides[j], ks[j]);
    }
  }

  /** A name span and its status span in front of paired spans give one more pair. */
  lemma PairedCons(spans: seq<Span>, ride: RideTime, rides: seq<RideTime>, ks: seq<nat>)
    requires |spans| >= 2 && spans[0] != [] && ride.name == Trim(spans[0][0])
    requires ParseStatus(Concat(spans[1])) == Ok(ride.status)
    requires PairedAt(spans[2..], rides, ks)
    ensures PairedAt(spans, [ride] + rides, [0] + Shift(ks, 2))
  {
    PairedAfterSkip(spans, 2, rides, ks);
    var ks2 := [0] + Shift(ks, 2);
    var rides2 := [ride] + rides;
    assert PairAt(spans, ride, 0);
    forall j | 1 <= j < |ks2| ensures PairAt(spans, rides2[j], ks2[j]) {
      assert ks2[j] == Shift(ks, 2)[j - 1] && rides2[j] == rides[j - 1];
    }
  }

  /** Every ride the scan produces is a name span followed by its status span, in page order. */
  lemma {:induction false} RidesPairSpans(spans: seq<Span>) returns (ks: seq<nat>)
    requires ScanName(spans).Ok?
    ensures PairedAt(spans, ScanName(spans).value, ks)
    ensures forall j :: 0 <= j < |ks| ==> ks[j] >= 2 * j
    decreases |spans|
  {
    if spans == [] {
      ks := [];
    } else if |spans| > 1 && !IsStatusLike(Concat(spans[1])) {
      var ks' := RidesPairSpans(spans[1..]);
      PairedAfterSkip(spans, 1, ScanName(spans[1..]).value, ks');
      ks := Shift(ks', 1);
    } else if |spans| == 1 {
      ks := [];
    } else {
      var status := ParseStatus(Concat(spans[1])).value;
      assert spans[1..][1..] == spans[2..];
      var rest := ScanName(spans[2..]).value;
      var ks' := RidesPairSpans(spans[2..]);
      var ride := RideTime(Trim(spans[0][0]), status);
      assert ScanName(spans).value == [ride] + rest;
      PairedCons(spans, ride, rest, ks');
      ks := [0] + Shift(ks', 2);
    }
  }

  /** The only errors the scan can end in: a name span without text (an `unwrap` that
      aborts) or a "... mins" text whose first word is not an `i16`. The catch-all status
      error, with its empty text, cannot occur. */
  lemma {:induction false} ScanErrors(spans: seq<Span>)
    requires ScanName(spans).Err?
    ensures ScanName(spans).error == Panic
         || (ScanName(spans).error.WaitTimeParse? && EndsWith(ScanName(spans).error.text, "mins"))
    decreases |spans|
  {
    if |spans| > 1 && !IsStatusLike(Concat(spans[1])) {
      ScanErrors(spans[1..]);
    } else if spans[0] != [] && |spans| > 1 {
      var text := Concat(spans[1]);
      if ParseStatus(text).Ok? {
        assert spans[1..][1..] == spans[2..];
        ScanErrors(spans[2..]);
      }
    }
  }

  // ---------------------------------------------------------------------------
  // The front page

  /** A `.panel-block` element of the front page. */
  datatype Block = Block(href: Option<string>, texts: seq<string>)

  const BaseUrl: string := "https://queue-times.com"

  /** Characters of a path that URL joining copies unchanged: ASCII letters, digits, '-', '_', '~', '/'. */
  predicate IsPlainPathChar(c: char) {
    ('a' <= c <= 'z') || ('A' <= c <= 'Z') || ('0' <= c <= '9') || c == '-' || c == '_' || c == '~' || c == '/'
  }

  /** An absolute path ("/en-US/parks/50") with no dot segment, query, fragment or
      character that would be escaped, and not a network-path reference ("//host"). */
  predicate IsPlainAbsolutePath(href: string) {
    |href| >= 2 && href[0] == '/' && href[1] != '/' && forall i :: 0 <= i < |href| ==> IsPlainPathChar(href[i])
  }

  /** `BASE_URL.join(href + "/").join("queue_times")`. Joining a plain absolute path replaces
      the base's path with it; any other reference is resolved by `resolve`, which stands for
      the general resolution of RFC 3986 section 5.2 done by the `url` crate. A plain
      absolute path therefore cannot fail: the URL is the site, then the path, then
      "/queue_times". */
  function JoinParkUrl(href: string, resolve: string -> Result<string, ParseError>): (r: Result<string, ParseError>)
    ensures IsPlainAbsolutePath(href) ==>
              r.Ok? && StartsWith(r.value, BaseUrl + href) && EndsWith(r.value, "/queue_times")
  {
    if IsPlainAbsolutePath(href) then
      var u := BaseUrl + href + "/queue_times";
      assert u[..|BaseUrl + href|] == BaseUrl + href;
      Ok(u)
    else resolve(href)
  }

  /** A block from which a park can be read: it has an href that joins and a first text node. */
  predicate WellFormed(b: Block, resolve: string -> Result<string, ParseError>) {
    b.href.Some? && JoinParkUrl(b.href.value, resolve).Ok? && b.texts != []
  }

  /** The park name a well-formed block gives. */
  function BlockName(b: Block): string {
    if b.texts == [] then "" else Trim(b.texts[0])
  }

  /** The park URL a well-formed block gives. */
  function BlockUrl(b: Block, resolve: string -> Result<string, ParseError>): string {
    if WellFormed(b, resolve) then JoinParkUrl(b.href.value, resolve).value else ""
  }

  /** The front-page loop from a map built so far: a missing href fails, a join error fails,
      a block without text aborts, and otherwise the park's name is bound to its URL. */
  function ParkUrlsFrom(blocks: seq<Block>, acc: map<string, string>, resolve: string -> Result<string, ParseError>)
    : (r: Result<map<string, string>, ParseError>)
    ensures r.Ok? ==> acc.Keys <= r.value.Keys
  {
    if blocks == [] then Ok(acc)
    else
      var b := blocks[0];
      if b.href.None? then Err(HrefMissing)
      else
        match JoinParkUrl(b.href.value, resolve)
        case Err(e) => Err(e)
        case Ok(url) =>
          if b.texts == [] then Err(Panic)
          else ParkUrlsFrom(blocks[1..], acc[Trim(b.texts[0]) := url], resolve)
  }

  /** `FrontPageParser::get_park_urls` on the selected blocks. */
  method GetParkUrls(blocks: seq<Block>, resolve: string -> Result<string, ParseError>)
    returns (r: Result<map<string, string>, ParseError>)
    ensures r == ParkUrlsFrom(blocks, map[], resolve)
  {
    var parkToUrl: map<string, string> := map[];
    for i := 0 to |blocks|
      invariant ParkUrlsFrom(blocks, map[], resolve) == ParkUrlsFrom(blocks[i..], parkToUrl, resolve)
    {
      var park := blocks[i];
      assert blocks[i..][1..] == blocks[i + 1..];
      var url: string;
      match park.href {
        case None =>
          return Err(HrefMissing);
        case Some(link) =>
          var joined := JoinParkUrl(link, resolve);
          if joined.Err? {
            return Err(joined.error);
          }
          url := joined.value;
      }
      if park.texts == [] {
        return Err(Panic);
      }
      var parkName := Trim(park.texts[0]);
      parkToUrl := parkToUrl[parkName := url];
    }
    assert blocks[|blocks|..] == [];
    r := Ok(parkToUrl);
  }

  /** The first block that is not well formed decides the error: a block without an href
      after well-formed blocks fails with `HrefMissing`. */
  lemma {:induction false} MissingHrefFails(blocks: seq<Block>, acc: map<string, string>,
                                            resolve: string -> Result<string, ParseError>, k: nat)
    requires k < |blocks| && blocks[k].href.None?
    requires forall j :: 0 <= j < k ==> WellFormed(blocks[j], resolve)
    ensures ParkUrlsFrom(blocks, acc, resolve) == Err(HrefMissing)
  {
    if k > 0 {
      assert forall j :: 0 <= j < k - 1 ==> blocks[1..][j] == blocks[j + 1];
      MissingHrefFails(blocks[1..], acc[BlockName(blocks[0]) := BlockUrl(blocks[0], resolve)], resolve, k - 1);
    }
  }

  /** A successful front-page parse read every block: each has an href that joins and a name. */
  lemma {:induction false} ParkUrlsOkMeansWellFormed(blocks: seq<Block>, acc: map<string, string>,
                                                     resolve: string -> Result<string, ParseError>)
    requires ParkUrlsFrom(blocks, acc, resolve).Ok?
    ensures forall j :: 0 <= j < |blocks| ==> WellFormed(blocks[j], resolve)
  {
    if blocks != [] {
      ParkUrlsOkMeansWellFormed(blocks[1..], acc[BlockName(blocks[0]) := BlockUrl(blocks[0], resolve)], resolve);
      forall j | 1 <= j < |blocks| ensures WellFormed(blocks[j], resolve) {
        assert blocks[j] == blocks[1..][j - 1];
      }
    }
  }

  /** The (name, URL) pair each block gives. */
  function BlockPairs(blocks: seq<Block>, resolve: string -> Result<string, ParseError>): (r: seq<(string, string)>)
    ensures |r| == |blocks|
    ensures forall j :: 0 <= j < |blocks| ==> r[j] == (BlockName(blocks[j]), BlockUrl(blocks[j], resolve))
  {
    if blocks == [] then [] else [(BlockName(blocks[0]), BlockUrl(blocks[0], resolve))] + BlockPairs(blocks[1..], resolve)
  }

  /** On well-formed blocks the front-page loop succeeds and inserts each block's pair in page order. */
  lemma {:induction false} ParkUrlsOfWellFormed(blocks: seq<Block>, acc: map<string, string>,
                                                resolve: string -> Result<string, ParseError>)
    requires forall j :: 0 <= j < |blocks| ==> WellFormed(blocks[j], resolve)
    ensures ParkUrlsFrom(blocks, acc, resolve) == Ok(Assoc.InsertAll(BlockPairs(blocks, resolve), acc))
  {
    if blocks != [] {
      assert forall j :: 0 <= j < |blocks[1..]| ==> blocks[1..][j] == blocks[j + 1];
      ParkUrlsOfWellFormed(blocks[1..], acc[BlockName(blocks[0]) := BlockUrl(blocks[0], resolve)], resolve);
      assert BlockPairs(blocks, resolve)[1..] == BlockPairs(blocks[1..], resolve);
    }
  }

  /** The map's keys are exactly the parks' trimmed names. */
  lemma ParkUrlsKeys(blocks: seq<Block>, resolve: string -> Result<string, ParseError>)
    requires forall j :: 0 <= j < |blocks| ==> WellFormed(blocks[j], resolve)
    ensures ParkUrlsFrom(blocks, map[], resolve).Ok?
    ensures forall name :: name in ParkUrlsFrom(blocks, map[], resolve).value
              <==> exists l :: 0 <= l < |blocks| && BlockName(blocks[l]) == name
  {
    var pairs := BlockPairs(blocks, resolve);
    ParkUrlsOfWellFormed(blocks, map[], resolve);
    Assoc.InsertAllKeys(pairs, map[]);
    var m := Assoc.InsertAll(pairs, map[]);
    forall name ensures name in m <==> exists l :: 0 <= l < |blocks| && BlockName(blocks[l]) == name {
      if name in m {
        var l :| 0 <= l < |pairs| && pairs[l].0 == name;
        assert BlockName(blocks[l]) == name;
      }
      if exists l :: 0 <= l < |blocks| && BlockName(blocks[l]) == name {
        var l :| 0 <= l < |blocks| && BlockName(blocks[l]) == name;
        assert pairs[l].0 == name;
      }
    }
  }

  /** A name seen twice keeps the URL of its last block. */
  lemma ParkUrlsLastWins(blocks: seq<Block>, resolve: string -> Result<string, ParseError>, j: int)
    requires forall j :: 0 <= j < |blocks| ==> WellFormed(blocks[j], resolve)
    requires 0 <= j < |blocks| && forall l :: j < l < |blocks| ==> BlockName(blocks[l]) != BlockName(blocks[j])
    ensures ParkUrlsFrom(blocks, map[], resolve).Ok?
    ensures BlockName(blocks[j]) in ParkUrlsFrom(blocks, map[], resolve).value
    ensures ParkUrlsFrom(blocks, map[], resolve).value[BlockName(blocks[j])] == BlockUrl(blocks[j], resolve)
  {
    var pairs := BlockPairs(blocks, resolve);
    ParkUrlsOfWellFormed(blocks, map[], resolve);
    assert Assoc.IsLastFor(pairs, j) by {
      forall l | j < l < |pairs| ensures pairs[l].0 != pairs[j].0 {
        assert pairs[l].0 == BlockName(blocks[l]);
      }
    }
    Assoc.InsertAllLastWins(pairs, map[], j);
    assert pairs[j] == (BlockName(blocks[j]), BlockUrl(blocks[j], resolve));
  }
}
