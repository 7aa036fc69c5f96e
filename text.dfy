/** String helpers that stand for the library calls the source makes on text:
    Rust's `str::trim`, `ends_with`, `split_ascii_whitespace`, `i16::from_str`,
    integer `Display`, the `Ord` of `String`, and JavaScript's `startsWith`,
    `endsWith` and number-to-string conversion for integral numbers. */
module Text {
  import opened Wrappers

  /** Rust's `char::is_whitespace`: the Unicode White_Space property. */
  predicate IsWhitespace(c: char) {
    ('\U{0009}' <= c <= '\U{000D}') || c == ' ' || c == '\U{0085}' || c == '\U{00A0}'
    || c == '\U{1680}' || ('\U{2000}' <= c <= '\U{200A}') || c == '\U{2028}' || c == '\U{2029}'
    || c == '\U{202F}' || c == '\U{205F}' || c == '\U{3000}'
  }

  /** Rust's `char::is_ascii_whitespace`: space, tab, line feed, form feed, carriage return. */
  predicate IsAsciiWhitespace(c: char) {
    c == ' ' || c == '\t' || c == '\n' || c == '\U{000C}' || c == '\r'
  }

  /** `str::trim_start`: drops the leading whitespace. */
  function TrimStart(s: string): string
  {
    if s != [] && IsWhitespace(s[0]) then TrimStart(s[1..]) else s
  }

  /** `str::trim_end`: drops the trailing whitespace. */
  function TrimEnd(s: string): string
  {
    if s != [] && IsWhitespace(s[|s| - 1]) then TrimEnd(s[..|s| - 1]) else s
  }

  /** `str::trim`. */
  function Trim(s: string): string
  {
    TrimEnd(TrimStart(s))
  }

  /** `trim_start` drops the leading whitespace and nothing else. */
  lemma {:induction false} TrimStartShape(s: string)
    ensures |TrimStart(s)| <= |s| && TrimStart(s) == s[|s| - |TrimStart(s)|..]
    ensures TrimStart(s) == [] || !IsWhitespace(TrimStart(s)[0])
    ensures forall i :: 0 <= i < |s| - |TrimStart(s)| ==> IsWhitespace(s[i])
  {
    if s != [] && IsWhitespace(s[0]) {
      TrimStartShape(s[1..]);
      forall i | 1 <= i < |s| - |TrimStart(s)| ensures IsWhitespace(s[i]) {
        assert s[i] == s[1..][i - 1];
      }
    }
  }

  /** `trim_end` drops the trailing whitespace and nothing else. */
  lemma {:induction false} TrimEndShape(s: string)
    ensures |TrimEnd(s)| <= |s| && TrimEnd(s) == s[..|TrimEnd(s)|]
    ensures TrimEnd(s) == [] || !IsWhitespace(TrimEnd(s)[|TrimEnd(s)| - 1])
    ensures forall i :: |TrimEnd(s)| <= i < |s| ==> IsWhitespace(s[i])
  {
    if s != [] && IsWhitespace(s[|s| - 1]) {
      TrimEndShape(s[..|s| - 1]);
      forall i | |TrimEnd(s)| <= i < |s| - 1 ensures IsWhitespace(s[i]) {
        assert s[i] == s[..|s| - 1][i];
      }
    }
  }

  /** The trimmed string is a slice of the input with whitespace only around it,
      and it neither starts nor ends with whitespace. */
  lemma TrimIsSlice(s: string)
    ensures exists lo, hi :: (0 <= lo <= hi <= |s| && Trim(s) == s[lo..hi]
      && (forall i :: 0 <= i < lo ==> IsWhitespace(s[i]))
      && (forall i :: hi <= i < |s| ==> IsWhitespace(s[i])))
    ensures Trim(s) == [] || (!IsWhitespace(Trim(s)[0]) && !IsWhitespace(Trim(s)[|Trim(s)| - 1]))
  {
    var t := TrimStart(s);
    TrimStartShape(s);
    TrimEndShape(t);
    var lo := |s| - |t|;
    var hi := lo + |TrimEnd(t)|;
    assert Trim(s) == s[lo..hi];
    forall i | hi <= i < |s| ensures IsWhitespace(s[i]) {
      assert s[i] == t[i - lo];
    }
  }

  /** Trimming twice is trimming once. */
  lemma TrimIdempotent(s: string)
    ensures Trim(Trim(s)) == Trim(s)
  {
    var t := Trim(s);
    TrimIsSlice(s);
    if t != [] {
      assert TrimStart(t) == t;
      assert TrimEnd(t) == t;
    }
  }

  predicate StartsWith(s: string, prefix: string) {
    |prefix| <= |s| && s[..|prefix|] == prefix
  }

  predicate EndsWith(s: string, suffix: string) {
    |suffix| <= |s| && s[|s| - |suffix|..] == suffix
  }

  /** `s.contains(part)` / `s.includes(part)`. */
  predicate Contains(s: string, part: string) {
    exists i :: 0 <= i <= |s| && OccursAt(s, part, i)
  }

  /** `part` stands in `s` from position `i` on. */
  predicate OccursAt(s: string, part: string, i: int) {
    0 <= i && i + |part| <= |s| && s[i..i + |part|] == part
  }

  /** Concatenation of a sequence of text nodes, as `text().collect::<String>()`. */
  function Concat(parts: seq<string>): (r: string)
    ensures parts == [] ==> r == []
  {
    if parts == [] then [] else parts[0] + Concat(parts[1..])
  }

  // ---------------------------------------------------------------------------
  // Decimal digits

  predicate IsDigit(c: char) {
    '0' <= c <= '9'
  }

  predicate AllDigits(s: string) {
    forall i :: 0 <= i < |s| ==> IsDigit(s[i])
  }

  function DigitChar(d: nat): (c: char)
    requires d < 10
    ensures IsDigit(c) && (c as int) - ('0' as int) == d
  {
    (('0' as int) + d) as char
  }

  /** The value of a string of decimal digits, most significant first. */
  function DigitsValue(s: string): nat
    requires AllDigits(s)
  {
    if s == [] then 0 else 10 * DigitsValue(s[..|s| - 1]) + ((s[|s| - 1] as int) - ('0' as int))
  }

  /** The decimal representation of a natural number, without leading zeros:
      Rust's `Display` for unsigned integers and JavaScript's `String(n)` for
      non-negative integral numbers. */
  function NatToString(n: nat): (s: string)
    ensures |s| >= 1 && AllDigits(s)
    ensures |s| > 1 ==> s[0] != '0'
  {
    if n < 10 then [DigitChar(n)] else NatToString(n / 10) + [DigitChar(n % 10)]
  }

  /** `NatToString` and `DigitsValue` are inverse: reading back the printed number gives it. */
  lemma {:induction false} NatToStringValue(n: nat)
    ensures DigitsValue(NatToString(n)) == n
  {
    if n >= 10 {
      var s := NatToString(n);
      NatToStringValue(n / 10);
      assert s[..|s| - 1] == NatToString(n / 10);
    }
  }

  /** Rust's `Display` for signed integers and JavaScript's `String(n)` for integral numbers. */
  function IntToString(i: int): (s: string)
  {
    if i < 0 then "-" + NatToString(-i) else NatToString(i)
  }

  /** Different numbers print differently. */
  lemma IntToStringInjective(a: int, b: int)
    requires IntToString(a) == IntToString(b)
    ensures a == b
  {
    PrintedSign(a);
    PrintedSign(b);
    if a < 0 {
      var s := IntToString(a);
      assert s[1..] == NatToString(-a);
      assert s[1..] == NatToString(-b);
      NatToStringInjective(-a, -b);
    } else {
      NatToStringInjective(a, b);
    }
  }

  lemma NatToStringInjective(m: nat, n: nat)
    requires NatToString(m) == NatToString(n)
    ensures m == n
  {
    NatToStringValue(m);
    NatToStringValue(n);
  }

  /** A printed number starts with '-' exactly when it is negative. */
  lemma PrintedSign(i: int)
    ensures |IntToString(i)| >= 1 && (IntToString(i)[0] == '-' <==> i < 0)
  {
    if i >= 0 {
      assert IsDigit(NatToString(i)[0]);
    }
  }

  // ---------------------------------------------------------------------------
  // `i16::from_str` and `split_ascii_whitespace().next()`

  const I16Min: int := -32768
  const I16Max: int := 32767

  /** `s.parse::<i16>()`: an optional `+` or `-`, then one or more ASCII digits,
      whose value lies in the range of `i16`. */
  function ParseI16(s: string): (r: Option<int>)
    ensures r.Some? ==> I16Min <= r.value <= I16Max
  {
    var negative := |s| > 0 && s[0] == '-';
    var digits := if |s| > 0 && (s[0] == '+' || s[0] == '-') then s[1..] else s;
    if digits == [] || !AllDigits(digits) then None
    else
      var v: int := if negative then 0 - DigitsValue(digits) else DigitsValue(digits);
      if I16Min <= v <= I16Max then Some(v) else None
  }

  /** Every `i16` printed in decimal parses back to itself. */
  lemma ParseI16OfPrinted(n: int)
    requires I16Min <= n <= I16Max
    ensures ParseI16(IntToString(n)) == Some(n)
  {
    var s := IntToString(n);
    if n < 0 {
      var digits := NatToString(-n);
      assert s == "-" + digits && s[0] == '-';
      assert s[1..] == digits;
      NatToStringValue(-n);
      assert 0 - DigitsValue(digits) == n;
    } else {
      assert s == NatToString(n);
      assert IsDigit(s[0]);
      NatToStringValue(n);
    }
  }

  /** `s.split_ascii_whitespace().next()`: the first maximal run of characters that
      are not ASCII whitespace, or nothing when there is none. */
  function FirstAsciiToken(s: string): Option<string>
  {
    var rest := DropAsciiWhitespace(s);
    if rest == [] then None else Some(TokenPrefix(rest))
  }

  /** `s` without its leading ASCII whitespace. */
  function DropAsciiWhitespace(s: string): string
  {
    if s != [] && IsAsciiWhitespace(s[0]) then DropAsciiWhitespace(s[1..]) else s
  }

  /** The longest prefix of `s` without ASCII whitespace. */
  function TokenPrefix(s: string): string
  {
    if s == [] || IsAsciiWhitespace(s[0]) then [] else [s[0]] + TokenPrefix(s[1..])
  }

  lemma {:induction false} DropAsciiWhitespaceShape(s: string)
    ensures |DropAsciiWhitespace(s)| <= |s| && DropAsciiWhitespace(s) == s[|s| - |DropAsciiWhitespace(s)|..]
    ensures DropAsciiWhitespace(s) == [] || !IsAsciiWhitespace(DropAsciiWhitespace(s)[0])
    ensures forall i :: 0 <= i < |s| - |DropAsciiWhitespace(s)| ==> IsAsciiWhitespace(s[i])
  {
    if s != [] && IsAsciiWhitespace(s[0]) {
      DropAsciiWhitespaceShape(s[1..]);
      forall i | 1 <= i < |s| - |DropAsciiWhitespace(s)| ensures IsAsciiWhitespace(s[i]) {
        assert s[i] == s[1..][i - 1];
      }
    }
  }

  lemma {:induction false} TokenPrefixShape(s: string)
    ensures |TokenPrefix(s)| <= |s| && TokenPrefix(s) == s[..|TokenPrefix(s)|]
    ensures forall i :: 0 <= i < |TokenPrefix(s)| ==> !IsAsciiWhitespace(TokenPrefix(s)[i])
    ensures |TokenPrefix(s)| == |s| || IsAsciiWhitespace(s[|TokenPrefix(s)|])
    ensures s != [] && !IsAsciiWhitespace(s[0]) ==> TokenPrefix(s) != []
  {
    if s != [] && !IsAsciiWhitespace(s[0]) {
      TokenPrefixShape(s[1..]);
      var t := TokenPrefix(s);
      forall i | 1 <= i < |t| ensures !IsAsciiWhitespace(t[i]) {
        assert t[i] == TokenPrefix(s[1..])[i - 1];
      }
    }
  }

  /** The first token is a non-empty run without ASCII whitespace at the start of the text
      once its leading whitespace is dropped, and it runs to the next whitespace or the
      end; there is none exactly when the text is all ASCII whitespace. */
  lemma FirstAsciiTokenShape(s: string)
    ensures var r := FirstAsciiToken(s);
      && (r.Some? ==> r.value != [] && StartsWith(DropAsciiWhitespace(s), r.value))
      && (r.Some? ==> forall i :: 0 <= i < |r.value| ==> !IsAsciiWhitespace(r.value[i]))
      && (r.Some? ==> |r.value| == |DropAsciiWhitespace(s)| || IsAsciiWhitespace(DropAsciiWhitespace(s)[|r.value|]))
      && (r.None? <==> forall i :: 0 <= i < |s| ==> IsAsciiWhitespace(s[i]))
  {
    DropAsciiWhitespaceShape(s);
    TokenPrefixShape(DropAsciiWhitespace(s));
    var rest := DropAsciiWhitespace(s);
    if rest != [] {
      assert s[|s| - |rest|] == rest[0];
    }
  }

  // ---------------------------------------------------------------------------
  // The order of `String` in Rust: lexicographic by code point

  /** `a <= b` for Rust strings (byte-wise UTF-8 order, which is code point order). */
  predicate StringLe(a: string, b: string) {
    if a == [] then true
    else if b == [] then false
    else if a[0] != b[0] then a[0] < b[0]
    else StringLe(a[1..], b[1..])
  }

  lemma {:induction false} StringLeTotal(a: string, b: string)
    ensures StringLe(a, b) || StringLe(b, a)
  {
    if a != [] && b != [] && a[0] == b[0] {
      StringLeTotal(a[1..], b[1..]);
    }
  }

  lemma {:induction false} StringLeAntisymmetric(a: string, b: string)
    requires StringLe(a, b) && StringLe(b, a)
    ensures a == b
  {
    if a != [] && b != [] {
      StringLeAntisymmetric(a[1..], b[1..]);
      assert a == [a[0]] + a[1..];
      assert b == [b[0]] + b[1..];
    }
  }

  lemma {:induction false} StringLeTransitive(a: string, b: string, c: string)
    requires StringLe(a, b) && StringLe(b, c)
    ensures StringLe(a, c)
  {
    if a != [] && b != [] && c != [] && a[0] == b[0] && b[0] == c[0] {
      StringLeTransitive(a[1..], b[1..], c[1..]);
    }
  }

  lemma {:induction false} StringLeReflexive(a: string)
    ensures StringLe(a, a)
  {
    if a != [] {
      StringLeReflexive(a[1..]);
    }
  }
}
