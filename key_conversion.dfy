/** `urlBase64ToUint8Array`, the conversion of the server's VAPID public key for
    `pushManager.subscribe` (queue_alert_frontend/app/src/api/queueAlertAccess.ts, with an
    identical copy in queue_alert_server/www/src/index.ts).

    The key arrives in the URL-safe alphabet of section 5 of RFC 4648 without padding. The
    converter pads it to a multiple of four characters, maps the alphabet to the one of
    section 4, decodes it with the browser's `atob` and copies the char codes into a byte
    array. `atob` is modelled by the forgiving-base64 decode of the WHATWG Infra Standard
    (section 4.7): strip ASCII whitespace, drop one or two trailing '=' from a length that is
    a multiple of four, fail on a remainder of one or a character outside the alphabet, and
    discard the bits left over at the end. */
module KeyConversion {
  import opened Wrappers

  newtype byte = x: int | 0 <= x < 0x100

  /** One base64 digit: six bits. */
  type sextet = x: int | 0 <= x < 64

  // ---------------------------------------------------------------------------
  // Padding and alphabet

  /** `(4 - n % 4) % 4`: the fewest '=' that make the length a multiple of four. */
  function PadCount(n: nat): (p: nat)
    ensures p < 4 && (n + p) % 4 == 0
    ensures n % 4 == 0 <==> p == 0
  {
    (4 - n % 4) % 4
  }

  /** `'='.repeat(count)`. */
  function Repeat(c: char, count: nat): (r: string)
    ensures |r| == count && forall i :: 0 <= i < count ==> r[i] == c
  {
    if count == 0 then [] else [c] + Repeat(c, count - 1)
  }

  function Padding(s: string): string {
    Repeat('=', PadCount(|s|))
  }

  /** `s.replace(/from/g, to)`: every occurrence, and nothing else, is replaced. */
  function ReplaceAll(s: string, from: char, to: char): (r: string)
    ensures |r| == |s|
    ensures forall i :: 0 <= i < |s| ==> r[i] == (if s[i] == from then to else s[i])
  {
    if s == [] then [] else [if s[0] == from then to else s[0]] + ReplaceAll(s[1..], from, to)
  }

  /** The string handed to `atob`. */
  function StandardForm(base64String: string): string {
    ReplaceAll(ReplaceAll(base64String + Padding(base64String), '-', '+'), '_', '/')
  }

  /** The digit of a character of the standard alphabet. */
  function Value(c: char): Option<sextet> {
    if 'A' <= c <= 'Z' then Some(c as int - 'A' as int)
    else if 'a' <= c <= 'z' then Some(c as int - 'a' as int + 26)
    else if '0' <= c <= '9' then Some(c as int - '0' as int + 52)
    else if c == '+' then Some(62)
    else if c == '/' then Some(63)
    else None
  }

  /** The character of a digit in the standard alphabet (section 4 of RFC 4648). */
  function StdChar(v: sextet): (c: char)
    ensures Value(c) == Some(v)
  {
    if v < 26 then ('A' as int + v) as char
    else if v < 52 then ('a' as int + v - 26) as char
    else if v < 62 then ('0' as int + v - 52) as char
    else if v == 62 then '+'
    else '/'
  }

  /** The character of a digit in the URL-safe alphabet (section 5 of RFC 4648). */
  function UrlChar(v: sextet): (c: char)
    ensures c == (if v == 62 then '-' else if v == 63 then '_' else StdChar(v))
  {
    if v == 62 then '-' else if v == 63 then '_' else StdChar(v)
  }

  /** The padded string with '-' as '+' and '_' as '/': a multiple of four long, with the
      characters of the input mapped one by one and the '=' after them. */
  lemma StandardFormShape(s: string)
    ensures var t := StandardForm(s);
      && |t| % 4 == 0 && |t| == |s| + PadCount(|s|)
      && (forall i :: 0 <= i < |s| ==> t[i] == (if s[i] == '-' then '+' else if s[i] == '_' then '/' else s[i]))
      && (forall i :: |s| <= i < |t| ==> t[i] == '=')
      && (forall i :: 0 <= i < |t| ==> t[i] != '-' && t[i] != '_')
  {
    var padded := s + Padding(s);
    assert forall i :: |s| <= i < |padded| ==> padded[i] == Padding(s)[i - |s|];
  }

  // ---------------------------------------------------------------------------
  // Forgiving-base64 decode

  predicate IsAsciiWhitespace(c: char) {
    c == '\t' || c == '\n' || c == '\U{C}' || c == '\r' || c == ' '
  }

  function StripWhitespace(s: string): (r: string)
    ensures |r| <= |s|
    ensures forall i :: 0 <= i < |r| ==> !IsAsciiWhitespace(r[i])
    ensures (forall i :: 0 <= i < |s| ==> !IsAsciiWhitespace(s[i])) ==> r == s
  {
    if s == [] then []
    else if IsAsciiWhitespace(s[0]) then StripWhitespace(s[1..])
    else [s[0]] + StripWhitespace(s[1..])
  }

  /** One or two '=' at the end are dropped from a length that is a multiple of four. */
  function StripPadding(s: string): (r: string)
    ensures || r == s
            || (|s| % 4 == 0 && |s| >= 1 && r == s[..|s| - 1] && s[|s| - 1] == '=')
            || (|s| % 4 == 0 && |s| >= 2 && r == s[..|s| - 2] && s[|s| - 2..] == "==")
  {
    if |s| % 4 != 0 then s
    else if |s| >= 2 && s[|s| - 2..] == "==" then s[..|s| - 2]
    else if |s| >= 1 && s[|s| - 1] == '=' then s[..|s| - 1]
    else s
  }

  /** The digits of a string, or None if a character is outside the alphabet. */
  function Values(s: string): (r: Option<seq<sextet>>)
    ensures r.Some? <==> forall i :: 0 <= i < |s| ==> Value(s[i]).Some?
    ensures r.Some? ==> |r.value| == |s| && forall i :: 0 <= i < |s| ==> Value(s[i]) == Some(r.value[i])
  {
    if s == [] then Some([])
    else
      match (Value(s[0]), Values(s[1..]))
      case (Some(v), Some(rest)) => Some([v] + rest)
      case _ => None
  }

  /** The bytes of a group of four digits, each from the bits of two neighbouring digits. */
  function First(v0: sextet, v1: sextet): byte {
    (v0 as int * 4 + v1 as int / 16) as byte
  }

  function Second(v1: sextet, v2: sextet): byte {
    ((v1 as int % 16) * 16 + v2 as int / 4) as byte
  }

  function Third(v2: sextet, v3: sextet): byte {
    ((v2 as int % 4) * 64 + v3 as int) as byte
  }

  /** Four digits give three bytes; a tail of two or three digits gives one or two bytes and
      its last digit's low bits are dropped. */
  function DecodeValues(v: seq<sextet>): (r: seq<byte>)
    requires |v| % 4 != 1
    ensures |r| == |v| / 4 * 3 + (if |v| % 4 == 0 then 0 else |v| % 4 - 1)
  {
    if |v| == 0 then []
    else if |v| == 2 then [First(v[0], v[1])]
    else if |v| == 3 then [First(v[0], v[1]), Second(v[1], v[2])]
    else [First(v[0], v[1]), Second(v[1], v[2]), Third(v[2], v[3])] + DecodeValues(v[4..])
  }

  /** A binary string: one char per byte, its code the byte. */
  function BinaryString(b: seq<byte>): (r: string)
    ensures |r| == |b| && forall i :: 0 <= i < |b| ==> r[i] as int == b[i] as int
  {
    seq(|b|, i requires 0 <= i < |b| => (b[i] as int) as char)
  }

  /** `window.atob`: the decoded binary string, or None where it throws. */
  function Atob(data: string): (r: Option<string>)
    ensures r.Some? ==> forall i :: 0 <= i < |r.value| ==> r.value[i] as int < 0x100
  {
    var stripped := StripPadding(StripWhitespace(data));
    if |stripped| % 4 == 1 then None
    else
      match Values(stripped)
      case None => None
      case Some(v) => Some(BinaryString(DecodeValues(v)))
  }

  /** The char codes of a binary string as bytes. */
  function CharCodes(raw: string): (r: seq<byte>)
    requires forall i :: 0 <= i < |raw| ==> raw[i] as int < 0x100
    ensures |r| == |raw| && forall i :: 0 <= i < |raw| ==> r[i] as int == raw[i] as int
  {
    seq(|raw|, i requires 0 <= i < |raw| => raw[i] as int as byte)
  }

  /** What the converter returns for a key, or None where `atob` throws. */
  function KeyBytes(base64String: string): Option<seq<byte>> {
    match Atob(StandardForm(base64String))
    case None => None
    case Some(raw) => Some(CharCodes(raw))
  }

  /** `urlBase64ToUint8Array`: pads and maps the key, decodes it, and copies the char codes
      one by one into a new `Uint8Array` of the decoded length. */
  method UrlBase64ToUint8Array(base64String: string) returns (outputArray: Option<array<byte>>)
    ensures outputArray.None? <==> KeyBytes(base64String).None?
    ensures outputArray.Some? ==> fresh(outputArray.value) && outputArray.value[..] == KeyBytes(base64String).value
  {
    var padding := Repeat('=', (4 - |base64String| % 4) % 4);
    assert padding == Padding(base64String);
    var base64 := ReplaceAll(ReplaceAll(base64String + padding, '-', '+'), '_', '/');
    assert base64 == StandardForm(base64String);
    var rawData := Atob(base64);
    if rawData.None? {
      return None;
    }
    var raw := rawData.value;
    var output := new byte[|raw|];
    for i := 0 to |raw|
      invariant forall j :: 0 <= j < i ==> output[j] as int == raw[j] as int
    {
      output[i] := raw[i] as int as byte;
    }
    assert output[..] == CharCodes(raw);
    return Some(output);
  }

  // ---------------------------------------------------------------------------
  // The encoder the key comes from, and the round trip

  /** Base64url without padding: three bytes give four digits, a tail of one or two bytes
      gives two or three digits with zero low bits. */
  function Sextets(b: seq<byte>): (r: seq<sextet>)
    ensures |r| % 4 != 1
    ensures |r| == |b| / 3 * 4 + (if |b| % 3 == 0 then 0 else |b| % 3 + 1)
  {
    if |b| == 0 then []
    else if |b| == 1 then [b[0] as int / 4, (b[0] as int % 4) * 16]
    else if |b| == 2 then [b[0] as int / 4, (b[0] as int % 4) * 16 + b[1] as int / 16, (b[1] as int % 16) * 4]
    else [b[0] as int / 4, (b[0] as int % 4) * 16 + b[1] as int / 16, (b[1] as int % 16) * 4 + b[2] as int / 64, b[2] as int % 64]
         + Sextets(b[3..])
  }

  /** `base64::encode_config(.., URL_SAFE_NO_PAD)`: the digits in the URL-safe alphabet,
      four for every three bytes and two or three for a tail, with no '+', '/' or '='. */
  function EncodeUrl(b: seq<byte>): (r: string)
    ensures |r| == |Sextets(b)| && forall i :: 0 <= i < |r| ==> r[i] == UrlChar(Sextets(b)[i])
    ensures |r| == |b| / 3 * 4 + (if |b| % 3 == 0 then 0 else |b| % 3 + 1)
    ensures forall i :: 0 <= i < |r| ==> r[i] != '+' && r[i] != '/' && r[i] != '='
  {
    var v := Sextets(b);
    seq(|v|, i requires 0 <= i < |v| => UrlChar(v[i]))
  }

  /** The two digits of a last single byte decode to it. */
  lemma DecodeOne(b0: byte)
    ensures First(b0 as int / 4, (b0 as int % 4) * 16) == b0
  {
    var x0 := b0 as int;
    assert ((x0 % 4) * 16) / 16 == x0 % 4;
  }

  /** The three digits of two last bytes decode to them. */
  lemma DecodeTwo(b0: byte, b1: byte)
    ensures var v1 := (b0 as int % 4) * 16 + b1 as int / 16;
      && First(b0 as int / 4, v1) == b0
      && Second(v1, (b1 as int % 16) * 4) == b1
  {
    var x0, x1 := b0 as int, b1 as int;
    var v1 := (x0 % 4) * 16 + x1 / 16;
    assert v1 / 16 == x0 % 4 && v1 % 16 == x1 / 16;
    var v2 := (x1 % 16) * 4;
    assert v2 / 4 == x1 % 16;
  }

  /** The four digits of three bytes decode to them. */
  lemma DecodeGroup(b0: byte, b1: byte, b2: byte)
    ensures var v1, v2 := (b0 as int % 4) * 16 + b1 as int / 16, (b1 as int % 16) * 4 + b2 as int / 64;
      && First(b0 as int / 4, v1) == b0
      && Second(v1, v2) == b1
      && Third(v2, b2 as int % 64) == b2
  {
    var x0, x1, x2 := b0 as int, b1 as int, b2 as int;
    var v1 := (x0 % 4) * 16 + x1 / 16;
    var v2 := (x1 % 16) * 4 + x2 / 64;
    assert v1 / 16 == x0 % 4 && v1 % 16 == x1 / 16;
    assert v2 / 4 == x1 % 16 && v2 % 4 == x2 / 64;
  }

  /** Decoding the digits of bytes gives the bytes back. */
  lemma {:induction false} DecodeSextets(b: seq<byte>)
    ensures DecodeValues(Sextets(b)) == b
  {
    if |b| == 1 {
      DecodeOne(b[0]);
    } else if |b| == 2 {
      DecodeTwo(b[0], b[1]);
    } else if |b| >= 3 {
      var v := Sextets(b);
      var rest := Sextets(b[3..]);
      assert v[4..] == rest;
      DecodeGroup(b[0], b[1], b[2]);
      assert DecodeValues(v) == [First(v[0], v[1]), Second(v[1], v[2]), Third(v[2], v[3])] + DecodeValues(rest);
      assert [First(v[0], v[1]), Second(v[1], v[2]), Third(v[2], v[3])] == b[..3];
      DecodeSextets(b[3..]);
      assert b == b[..3] + b[3..];
    }
  }

  /** Digits written in the standard alphabet. */
  function StdString(v: seq<sextet>): (r: string)
    ensures |r| == |v| && forall i :: 0 <= i < |v| ==> r[i] == StdChar(v[i])
  {
    seq(|v|, i requires 0 <= i < |v| => StdChar(v[i]))
  }

  lemma EncodedStandardForm(b: seq<byte>)
    ensures StandardForm(EncodeUrl(b)) == StdString(Sextets(b)) + Repeat('=', PadCount(|Sextets(b)|))
  {
    var s := EncodeUrl(b);
    StandardFormShape(s);
  }

  /** A full last group that does not end in '=' is left alone. */
  lemma StripNoPad(d: string)
    requires |d| % 4 == 0 && (d == [] || d[|d| - 1] != '=')
    ensures StripPadding(d) == d
  {
    if |d| >= 2 {
      assert d[|d| - 2..][1] == d[|d| - 1];
    }
  }

  /** One '=' after a group of three digits is dropped. */
  lemma StripOnePad(d: string)
    requires |d| % 4 == 3 && d[|d| - 1] != '='
    ensures StripPadding(d + "=") == d
  {
    var t := d + "=";
    assert t[|t| - 2..][0] == d[|d| - 1];
    assert t[..|t| - 1] == d;
  }

  /** Two '=' after a group of two digits are dropped. */
  lemma StripTwoPad(d: string)
    requires |d| % 4 == 2
    ensures StripPadding(d + "==") == d
  {
    var t := d + "==";
    assert t[|t| - 2..] == "==";
    assert t[..|t| - 2] == d;
  }

  lemma StripStdPadding(v: seq<sextet>)
    requires |v| % 4 != 1
    ensures StripPadding(StdString(v) + Repeat('=', PadCount(|v|))) == StdString(v)
  {
    var d := StdString(v);
    var pad := Repeat('=', PadCount(|v|));
    if |v| > 0 {
      assert Value(d[|d| - 1]) == Some(v[|v| - 1]);
    }
    if |v| % 4 == 0 {
      assert pad == [];
      assert d + pad == d;
      StripNoPad(d);
    } else if |v| % 4 == 3 {
      assert pad == "=";
      StripOnePad(d);
    } else {
      assert pad == "==";
      StripTwoPad(d);
    }
  }

  /** Standard digits followed by padding hold no whitespace. */
  lemma StdHasNoWhitespace(v: seq<sextet>)
    ensures var t := StdString(v) + Repeat('=', PadCount(|v|)); StripWhitespace(t) == t
  {
    var d := StdString(v);
    var t := d + Repeat('=', PadCount(|v|));
    forall i | 0 <= i < |t| ensures !IsAsciiWhitespace(t[i]) {
      if i < |d| {
        assert t[i] == StdChar(v[i]);
      }
    }
  }

  /** Standard digits read back as their values. */
  lemma ValuesOfStd(v: seq<sextet>)
    ensures Values(StdString(v)) == Some(v)
  {
    var d := StdString(v);
    forall i | 0 <= i < |d| ensures Value(d[i]) == Some(v[i]) {
      assert d[i] == StdChar(v[i]);
    }
    var r := Values(d);
    assert r.Some?;
    assert |r.value| == |v|;
    assert forall i :: 0 <= i < |v| ==> r.value[i] == v[i];
    assert r.value == v;
  }

  /** `atob` decodes digits written in the standard alphabet and padded. */
  lemma AtobOfStd(v: seq<sextet>)
    requires |v| % 4 != 1
    ensures Atob(StdString(v) + Repeat('=', PadCount(|v|))) == Some(BinaryString(DecodeValues(v)))
  {
    StdHasNoWhitespace(v);
    StripStdPadding(v);
    ValuesOfStd(v);
  }

  /** A key in the URL-safe alphabet, as the encoder writes it, converts to its bytes. */
  lemma KeyRoundTrip(b: seq<byte>)
    ensures KeyBytes(EncodeUrl(b)) == Some(b)
  {
    EncodedStandardForm(b);
    AtobOfStd(Sextets(b));
    DecodeSextets(b);
    var raw := BinaryString(b);
    assert CharCodes(raw) == b;
  }

  /** A key whose length leaves a remainder of one, with no whitespace in it, is rejected:
      three '=' are appended, `atob` drops two, and the third is outside the alphabet. */
  lemma RemainderOneRejected(s: string)
    requires |s| % 4 == 1
    requires forall i :: 0 <= i < |s| ==> !IsAsciiWhitespace(s[i])
    ensures KeyBytes(s) == None
  {
    var t := StandardForm(s);
    StandardFormShape(s);
    assert StripWhitespace(t) == t by {
      forall i | 0 <= i < |t| ensures !IsAsciiWhitespace(t[i]) {
        if i < |s| {
          assert t[i] == s[i] || t[i] == '+' || t[i] == '/';
        }
      }
    }
    assert t[|t| - 2..] == "==";
    var stripped := StripPadding(t);
    assert stripped == t[..|t| - 2];
    assert Value(stripped[|stripped| - 1]).None?;
  }

  /** Characters outside the URL-safe and standard alphabets make the conversion fail, unless
      they are whitespace or the padding that `atob` drops. */
  lemma ForeignCharacterRejected(s: string, i: nat)
    requires i < |s| && Value(s[i]).None? && s[i] != '-' && s[i] != '_' && s[i] != '='
    requires !IsAsciiWhitespace(s[i])
    ensures KeyBytes(s) == None
  {
    var t := StandardForm(s);
    StandardFormShape(s);
    assert t[i] == s[i];
    StripWhitespaceKeeps(t, i);
    var w := StripWhitespace(t);
    var k :| 0 <= k < |w| && w[k] == s[i];
    var stripped := StripPadding(w);
    if |stripped| % 4 != 1 {
      assert k < |stripped|;
      assert stripped[k] == s[i];
    }
  }

  lemma {:induction false} StripWhitespaceKeeps(s: string, i: nat)
    requires i < |s| && !IsAsciiWhitespace(s[i])
    ensures s[i] in StripWhitespace(s)
  {
    if i > 0 {
      assert s[1..][i - 1] == s[i];
      StripWhitespaceKeeps(s[1..], i - 1);
    }
  }
}
