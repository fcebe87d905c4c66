/**
  The two URI handling functions of ECMAScript (ECMA-262, "URI Handling
  Functions") that the server depends on: `encodeURI`, built on the
  abstract operation `Encode`, and `decodeURIComponent`, built on `Decode`.
  Strings here are sequences of Unicode scalar values; each one is encoded
  as UTF-8 octets written as `%XY` escapes.
 */
module UriCoding {
  import opened Strings

  /** The one exception both functions can raise. */
  datatype UriError = URIError

  predicate IsUriAlpha(c: char) { 'a' <= c <= 'z' || 'A' <= c <= 'Z' }

  predicate IsDecimalDigit(c: char) { '0' <= c <= '9' }

  /** uriMark: `- _ . ! ~ * ' ( )` */
  predicate IsUriMark(c: char)
  {
    c == '-' || c == '_' || c == '.' || c == '!' || c == '~' || c == '*' || c == '\'' || c == '(' || c == ')'
  }

  /** uriReserved: `; / ? : @ & = + $ ,` */
  predicate IsUriReserved(c: char)
  {
    c == ';' || c == '/' || c == '?' || c == ':' || c == '@' || c == '&' || c == '=' || c == '+' || c == '$' || c == ','
  }

  /** The characters `encodeURI` copies unchanged: uriUnescaped, uriReserved and `#`. */
  predicate EncodeUriUnescaped(c: char)
  {
    IsUriAlpha(c) || IsDecimalDigit(c) || IsUriMark(c) || IsUriReserved(c) || c == '#'
  }

  /** Upper-case hexadecimal digit of a value below 16. */
  function HexDigit(n: nat): (c: char)
    requires n < 16
    ensures IsDecimalDigit(c) || 'A' <= c <= 'F'
  {
    if n < 10 then ('0' as int + n) as char else ('A' as int + n - 10) as char
  }

  /** Value of a hexadecimal digit of either case. */
  function HexValue(c: char): (r: Option<nat>)
    ensures r.Some? ==> r.value < 16
  {
    if '0' <= c <= '9' then Some(c as int - '0' as int)
    else if 'A' <= c <= 'F' then Some(c as int - 'A' as int + 10)
    else if 'a' <= c <= 'f' then Some(c as int - 'a' as int + 10)
    else None
  }

  // ---------------------------------------------------------------- encodeURI

  /** The UTF-8 octets of a scalar value. */
  function Utf8Octets(c: char): (bs: seq<nat>)
    ensures 1 <= |bs| <= 4
    ensures forall k :: 0 <= k < |bs| ==> bs[k] < 256
  {
    var cp := c as int;
    var q := cp / 64;
    if cp < 0x80 then [cp]
    else if cp < 0x800 then [0xC0 + q, 0x80 + cp % 64]
    else if cp < 0x10000 then [0xE0 + q / 64, 0x80 + q % 64, 0x80 + cp % 64]
    else [0xF0 + q / 4096, 0x80 + q / 64 % 64, 0x80 + q % 64, 0x80 + cp % 64]
  }

  /** `%XY` for one octet. */
  function PercentOctet(b: nat): string
    requires b < 256
  {
    ['%', HexDigit(b / 16), HexDigit(b % 16)]
  }

  function PercentOctets(bs: seq<nat>): (r: string)
    requires forall k :: 0 <= k < |bs| ==> bs[k] < 256
    ensures |r| == 3 * |bs|
  {
    if bs == [] then [] else PercentOctet(bs[0]) + PercentOctets(bs[1..])
  }

  /** `encodeURI` on one character. */
  function EncodeUriChar(c: char): (r: string)
    ensures 1 <= |r| <= 12
  {
    if EncodeUriUnescaped(c) then [c] else PercentOctets(Utf8Octets(c))
  }

  /** `encodeURI(s)`: copies the unescaped set, percent-encodes the UTF-8
      octets of every other character. */
  function EncodeURI(s: string): (r: string)
    ensures |s| <= |r| <= 12 * |s|
  {
    if s == [] then [] else EncodeUriChar(s[0]) + EncodeURI(s[1..])
  }

  // ------------------------------------------------------ decodeURIComponent

  /** The octet written as `%XY` at position `k` of `s`, if one is written there. */
  function EscapedOctet(s: string, k: nat): (r: Option<nat>)
    ensures r.Some? ==> r.value < 256 && k + 3 <= |s|
  {
    if k + 2 < |s| && s[k] == '%' then
      match (HexValue(s[k + 1]), HexValue(s[k + 2]))
      case (Some(hi), Some(lo)) => Some(hi * 16 + lo)
      case _ => None
    else None
  }

  /** The low six bits of a continuation octet (`10xxxxxx`) escaped at `k`. */
  function ContinuationAt(s: string, k: nat): (r: Option<nat>)
    ensures r.Some? ==> r.value < 64 && k + 3 <= |s|
  {
    match EscapedOctet(s, k)
    case Some(b) => if 0x80 <= b < 0xC0 then Some(b - 0x80) else None
    case None => None
  }

  /** A decoded code point, accepted when it is a scalar value not below
      `least` (the smallest value that needs that many octets). */
  function ScalarOf(cp: int, least: int, width: nat): (r: Option<(char, nat)>)
    ensures r.Some? ==> r.value.1 == width && r.value.0 as int == cp
  {
    if least <= cp < 0x11_0000 && !(0xD800 <= cp < 0xE000) && 0 <= cp then Some((cp as char, width))
    else None
  }

  /** Decodes the escape sequence at the head of `s` (one to four escaped
      octets forming one UTF-8 encoded scalar value), giving the character
      and the number of characters of `s` it takes. */
  function DecodeEscape(s: string): (r: Option<(char, nat)>)
    ensures r.Some? ==> 3 <= r.value.1 <= |s|
  {
    match EscapedOctet(s, 0)
    case None => None
    case Some(b0) =>
      if b0 < 0x80 then Some((b0 as char, 3))
      else if b0 < 0xC0 || 0xF8 <= b0 then None
      else if b0 < 0xE0 then
        match ContinuationAt(s, 3)
        case Some(t1) => ScalarOf((b0 - 0xC0) * 64 + t1, 0x80, 6)
        case None => None
      else if b0 < 0xF0 then
        match (ContinuationAt(s, 3), ContinuationAt(s, 6))
        case (Some(t1), Some(t2)) => ScalarOf((b0 - 0xE0) * 4096 + t1 * 64 + t2, 0x800, 9)
        case _ => None
      else
        match (ContinuationAt(s, 3), ContinuationAt(s, 6), ContinuationAt(s, 9))
        case (Some(t1), Some(t2), Some(t3)) =>
          ScalarOf((b0 - 0xF0) * 0x4_0000 + t1 * 4096 + t2 * 64 + t3, 0x1_0000, 12)
        case _ => None
  }

  function Prepend(c: char, r: Option<string>): Option<string>
  {
    match r
    case Some(t) => Some([c] + t)
    case None => None
  }

  /** `decodeURIComponent(s)`: `None` stands for the URIError it throws on a
      malformed escape or an invalid UTF-8 sequence. */
  function DecodeURIComponent(s: string): (r: Option<string>)
    ensures r.Some? ==> |r.value| <= |s|
    decreases |s|
  {
    if s == [] then Some([])
    else if s[0] != '%' then Prepend(s[0], DecodeURIComponent(s[1..]))
    else
      match DecodeEscape(s)
      case None => None
      case Some((c, n)) => Prepend(c, DecodeURIComponent(s[n..]))
  }

  // ------------------------------------------------------------ properties

  lemma HexRoundTrip(b: nat)
    requires b < 256
    ensures HexValue(HexDigit(b / 16)) == Some(b / 16)
    ensures HexValue(HexDigit(b % 16)) == Some(b % 16)
  {
  }

  /** The escape `%XY` of octet `j` sits at position `3 * j` of the encoding. */
  lemma {:induction false} PercentOctetsAt(bs: seq<nat>, j: nat, rest: string)
    requires forall k :: 0 <= k < |bs| ==> bs[k] < 256
    requires j < |bs|
    ensures EscapedOctet(PercentOctets(bs) + rest, 3 * j) == Some(bs[j])
    decreases j
  {
    var s := PercentOctets(bs) + rest;
    if j == 0 {
      HexRoundTrip(bs[0]);
      assert s[0] == '%' && s[1] == HexDigit(bs[0] / 16) && s[2] == HexDigit(bs[0] % 16);
    } else {
      PercentOctetsAt(bs[1..], j - 1, rest);
      assert s == PercentOctet(bs[0]) + (PercentOctets(bs[1..]) + rest);
      var t := PercentOctets(bs[1..]) + rest;
      assert s[3 * j..3 * j + 3] == t[3 * (j - 1)..3 * (j - 1) + 3];
    }
  }

  /** The escape sequence `encodeURI` writes for an escaped character decodes
      to that character and takes exactly the escape's length. */
  lemma DecodeEscapeOfEncoded(c: char, rest: string)
    requires !EncodeUriUnescaped(c)
    ensures DecodeEscape(PercentOctets(Utf8Octets(c)) + rest) == Some((c, |PercentOctets(Utf8Octets(c))|))
  {
    var n := |Utf8Octets(c)|;
    if n == 1 {
      PercentOctetsAt(Utf8Octets(c), 0, rest);
      assert (c as int) as char == c;
    } else if n == 2 {
      DecodeTwoOctetEscape(c, rest);
    } else if n == 3 {
      DecodeThreeOctetEscape(c, rest);
    } else {
      DecodeFourOctetEscape(c, rest);
    }
  }

  lemma DecodeTwoOctetEscape(c: char, rest: string)
    requires |Utf8Octets(c)| == 2
    ensures DecodeEscape(PercentOctets(Utf8Octets(c)) + rest) == Some((c, 6))
  {
    var bs := Utf8Octets(c);
    PercentOctetsAt(bs, 0, rest);
    PercentOctetsAt(bs, 1, rest);
    TwoOctets(c);
  }

  lemma DecodeThreeOctetEscape(c: char, rest: string)
    requires |Utf8Octets(c)| == 3
    ensures DecodeEscape(PercentOctets(Utf8Octets(c)) + rest) == Some((c, 9))
  {
    var bs := Utf8Octets(c);
    PercentOctetsAt(bs, 0, rest);
    PercentOctetsAt(bs, 1, rest);
    PercentOctetsAt(bs, 2, rest);
    ThreeOctets(c);
  }

  lemma DecodeFourOctetEscape(c: char, rest: string)
    requires |Utf8Octets(c)| == 4
    ensures DecodeEscape(PercentOctets(Utf8Octets(c)) + rest) == Some((c, 12))
  {
    var bs := Utf8Octets(c);
    PercentOctetsAt(bs, 0, rest);
    PercentOctetsAt(bs, 1, rest);
    PercentOctetsAt(bs, 2, rest);
    PercentOctetsAt(bs, 3, rest);
    FourOctets(c);
  }

  lemma TwoOctets(c: char)
    requires |Utf8Octets(c)| == 2
    ensures var bs := Utf8Octets(c);
      0xC0 <= bs[0] < 0xE0 && 0x80 <= bs[1] < 0xC0 &&
      (bs[0] - 0xC0) * 64 + (bs[1] - 0x80) == c as int >= 0x80
  {
  }

  lemma ThreeOctets(c: char)
    requires |Utf8Octets(c)| == 3
    ensures var bs := Utf8Octets(c);
      0xE0 <= bs[0] < 0xF0 && 0x80 <= bs[1] < 0xC0 && 0x80 <= bs[2] < 0xC0 &&
      (bs[0] - 0xE0) * 4096 + (bs[1] - 0x80) * 64 + (bs[2] - 0x80) == c as int >= 0x800
  {
    var cp := c as int;
    var q := cp / 64;
    assert q == (q / 64) * 64 + q % 64;
  }

  lemma FourOctets(c: char)
    requires |Utf8Octets(c)| == 4
    ensures var bs := Utf8Octets(c);
      0xF0 <= bs[0] < 0xF8 && 0x80 <= bs[1] < 0xC0 && 0x80 <= bs[2] < 0xC0 && 0x80 <= bs[3] < 0xC0 &&
      (bs[0] - 0xF0) * 0x4_0000 + (bs[1] - 0x80) * 4096 + (bs[2] - 0x80) * 64 + (bs[3] - 0x80) == c as int >= 0x1_0000
  {
    var cp := c as int;
    var q := cp / 64;
    var q2 := q / 64;
    assert q2 == (q2 / 64) * 64 + q2 % 64;
    assert q == q2 * 64 + q % 64;
  }

  /** Decoding the encoding of one character followed by anything: the
      character comes back and decoding carries on with the rest. */
  lemma DecodeEncodedChar(c: char, rest: string)
    ensures DecodeURIComponent(EncodeUriChar(c) + rest) == Prepend(c, DecodeURIComponent(rest))
  {
    var s := EncodeUriChar(c) + rest;
    if EncodeUriUnescaped(c) {
      assert s[0] == c && c != '%' && s[1..] == rest;
    } else {
      var e := PercentOctets(Utf8Octets(c));
      DecodeEscapeOfEncoded(c, rest);
      PercentOctetsAt(Utf8Octets(c), 0, rest);
      assert s[0] == '%';
      assert s[|e|..] == rest;
    }
  }

  /** `decodeURIComponent(encodeURI(s)) == s` for every string: the filename
      written into a header can always be recovered. */
  lemma {:induction false} DecodeEncodeURI(s: string)
    ensures DecodeURIComponent(EncodeURI(s)) == Some(s)
    decreases |s|
  {
    if s != [] {
      DecodeEncodedChar(s[0], EncodeURI(s[1..]));
      DecodeEncodeURI(s[1..]);
      assert [s[0]] + s[1..] == s;
    }
  }

  /** `encodeURI` is injective. */
  lemma EncodeURIInjective(s: string, t: string)
    requires EncodeURI(s) == EncodeURI(t)
    ensures s == t
  {
    DecodeEncodeURI(s);
    DecodeEncodeURI(t);
  }

  /** A character `encodeURI` can emit: one it copies, or the `%` of an escape. */
  predicate UriSafe(c: char) { EncodeUriUnescaped(c) || c == '%' }

  predicate AllUriSafe(s: string) { forall k :: 0 <= k < |s| ==> UriSafe(s[k]) }

  lemma AllUriSafeConcat(a: string, b: string)
    requires AllUriSafe(a) && AllUriSafe(b)
    ensures AllUriSafe(a + b)
  {
    forall k | 0 <= k < |a + b| ensures UriSafe((a + b)[k]) {
      if k >= |a| { assert (a + b)[k] == b[k - |a|]; }
    }
  }

  /** Neither a space nor a double quote is URI-safe. */
  lemma SafeHasNoSpaceOrQuote(s: string)
    requires AllUriSafe(s)
    ensures ' ' !in s && '"' !in s
  {
    assert !UriSafe(' ') && !UriSafe('"');
  }

  /** Every character of the output is either in the unescaped set or the `%`
      of an escape; so there is no space and no double quote in it. */
  lemma EncodeURIAlphabet(s: string)
    ensures AllUriSafe(EncodeURI(s))
    ensures ' ' !in EncodeURI(s) && '"' !in EncodeURI(s)
  {
    EncodeURISafe(s);
    SafeHasNoSpaceOrQuote(EncodeURI(s));
  }

  lemma {:induction false} EncodeURISafe(s: string)
    ensures AllUriSafe(EncodeURI(s))
    decreases |s|
  {
    if s != [] {
      EncodeURISafe(s[1..]);
      if !EncodeUriUnescaped(s[0]) {
        PercentOctetsAlphabet(Utf8Octets(s[0]));
      }
      AllUriSafeConcat(EncodeUriChar(s[0]), EncodeURI(s[1..]));
    }
  }

  lemma {:induction false} PercentOctetsAlphabet(bs: seq<nat>)
    requires forall k :: 0 <= k < |bs| ==> bs[k] < 256
    ensures AllUriSafe(PercentOctets(bs))
    decreases |bs|
  {
    if bs != [] {
      PercentOctetsAlphabet(bs[1..]);
      AllUriSafeConcat(PercentOctet(bs[0]), PercentOctets(bs[1..]));
    }
  }

  /** `encodeURI` works character by character. */
  lemma {:induction false} EncodeURIConcat(a: string, b: string)
    ensures EncodeURI(a + b) == EncodeURI(a) + EncodeURI(b)
    decreases |a|
  {
    if a == [] {
      assert a + b == b;
    } else {
      assert (a + b)[0] == a[0] && (a + b)[1..] == a[1..] + b;
      EncodeURIConcat(a[1..], b);
    }
  }

  /** Text already in the unescaped set is left as it is. */
  lemma {:induction false} EncodeURIUnescapedText(s: string)
    requires forall k :: 0 <= k < |s| ==> EncodeUriUnescaped(s[k])
    ensures EncodeURI(s) == s
    decreases |s|
  {
    if s != [] {
      EncodeURIUnescapedText(s[1..]);
      assert [s[0]] + s[1..] == s;
    }
  }

  /** Text without `%` decodes to itself. */
  lemma {:induction false} DecodeWithoutPercent(s: string)
    requires '%' !in s
    ensures DecodeURIComponent(s) == Some(s)
    decreases |s|
  {
    if s != [] {
      DecodeWithoutPercent(s[1..]);
      assert [s[0]] + s[1..] == s;
    }
  }

  /** Text without `%` in front of anything decodes to itself in front of
      the decoding of the rest. */
  lemma {:induction false} DecodePlainPrefix(p: string, rest: string)
    requires '%' !in p
    ensures DecodeURIComponent(p + rest) ==
      match DecodeURIComponent(rest)
      case Some(t) => Some(p + t)
      case None => None
    decreases |p|
  {
    if p != [] {
      assert (p + rest)[0] == p[0] != '%';
      assert (p + rest)[1..] == p[1..] + rest;
      DecodePlainPrefix(p[1..], rest);
      match DecodeURIComponent(rest)
      case Some(t) => assert [p[0]] + (p[1..] + t) == p + t;
      case None =>
    } else {
      assert p + rest == rest;
      match DecodeURIComponent(rest)
      case Some(t) => assert p + t == t;
      case None =>
    }
  }

  /** One escaped ASCII octet decodes to its character. */
  lemma DecodeAsciiEscape(b: nat, rest: string)
    requires b < 0x80
    ensures DecodeURIComponent(PercentOctet(b) + rest) == Prepend(b as char, DecodeURIComponent(rest))
  {
    PercentOctetsAt([b], 0, rest);
    assert PercentOctets([b]) == PercentOctet(b);
    assert (PercentOctet(b) + rest)[3..] == rest;
  }

  /** A `%` at the very end of the text is a URIError, whatever comes before it. */
  lemma TruncatedEscapeFails(s: string)
    requires |s| >= 1 && s[|s| - 1] == '%'
    ensures DecodeURIComponent(s) == None
  {
    TruncatedEscapeFailsFrom(s, 0);
  }

  lemma {:induction false} TruncatedEscapeFailsFrom(s: string, i: nat)
    requires i < |s| && s[|s| - 1] == '%'
    ensures DecodeURIComponent(s[i..]) == None
    decreases |s| - i
  {
    var t := s[i..];
    if t[0] != '%' {
      assert t[1..] == s[i + 1..];
      TruncatedEscapeFailsFrom(s, i + 1);
    } else if DecodeEscape(t).Some? {
      var n := DecodeEscape(t).value.1;
      assert t[n..] == s[i + n..];
      TruncatedEscapeFailsFrom(s, i + n);
    }
  }
}
