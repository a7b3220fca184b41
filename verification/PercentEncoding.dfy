/** UTF-8, with ill-formed input refused. */
module Utf8 {
  import opened Sequences

  type byte = b: int | 0 <= b < 256

  function EncodeChar(c: char): (bs: seq<byte>)
    ensures bs != []
  {
    var n := c as int;
    if n < 0x80 then [n]
    else if n < 0x800 then [0xC0 + n / 64, 0x80 + n % 64]
    else if n < 0x10000 then [0xE0 + n / 4096, 0x80 + n / 64 % 64, 0x80 + n % 64]
    else [0xF0 + n / 262144, 0x80 + n / 4096 % 64, 0x80 + n / 64 % 64, 0x80 + n % 64]
  }

  function Encode(s: string): seq<byte> {
    if s == [] then [] else EncodeChar(s[0]) + Encode(s[1..])
  }

  predicate Continuation(b: byte) {
    0x80 <= b < 0xC0
  }

  /** The payload of a byte that starts at `tag`. */
  function Bits(b: byte, tag: int): int {
    b - tag
  }

  /** The scalar value at the front and the bytes after it; overlong forms, surrogates and
      truncated sequences are refused. */
  function DecodeChar(bs: seq<byte>): (r: Option<(char, seq<byte>)>)
    requires bs != []
    ensures r.Some? ==> |r.value.1| < |bs|
  {
    var b := bs[0];
    if b < 0x80 then Some((b as char, bs[1..]))
    else if 0xC0 <= b < 0xE0 && |bs| >= 2 && Continuation(bs[1]) then
      Scalar(0x80, Bits(b, 0xC0) * 64 + Bits(bs[1], 0x80), bs[2..])
    else if 0xE0 <= b < 0xF0 && |bs| >= 3 && Continuation(bs[1]) && Continuation(bs[2]) then
      Scalar(0x800, Bits(b, 0xE0) * 4096 + Bits(bs[1], 0x80) * 64 + Bits(bs[2], 0x80), bs[3..])
    else if 0xF0 <= b < 0xF8 && |bs| >= 4 && Continuation(bs[1]) && Continuation(bs[2]) && Continuation(bs[3]) then
      Scalar(0x10000,
             Bits(b, 0xF0) * 262144 + Bits(bs[1], 0x80) * 4096 + Bits(bs[2], 0x80) * 64 + Bits(bs[3], 0x80),
             bs[4..])
    else None
  }

  function Scalar(least: int, n: int, rest: seq<byte>): Option<(char, seq<byte>)>
    requires least >= 0
  {
    if n < least || 0xD800 <= n < 0xE000 || n >= 0x110000 then None else Some((n as char, rest))
  }

  function Decode(bs: seq<byte>): Option<string>
    decreases |bs|
  {
    if bs == [] then Some("")
    else match DecodeChar(bs)
      case None => None
      case Some((c, rest)) =>
        match Decode(rest)
        case None => None
        case Some(s) => Some([c] + s)
  }

  lemma DecodeEncodedChar(c: char, rest: seq<byte>)
    ensures DecodeChar(EncodeChar(c) + rest) == Some((c, rest))
  {
    var n := c as int;
    var bs := EncodeChar(c) + rest;
    if n < 0x80 {
      assert bs[1..] == rest;
    } else if n < 0x800 {
      assert bs[2..] == rest;
    } else if n < 0x10000 {
      assert n / 64 / 64 == n / 4096;
      assert bs[3..] == rest;
    } else {
      assert n / 64 / 64 == n / 4096 && n / 4096 / 64 == n / 262144;
      assert bs[4..] == rest;
    }
  }

  lemma {:induction false} DecodeEncode(s: string)
    ensures Decode(Encode(s)) == Some(s)
  {
    if s != [] {
      DecodeEncode(s[1..]);
      DecodeEncodedChar(s[0], Encode(s[1..]));
      assert s == [s[0]] + s[1..];
    }
  }

  lemma {:induction false} EncodeConcat(a: string, b: string)
    ensures Encode(a + b) == Encode(a) + Encode(b)
  {
    if a == [] {
      assert a + b == b;
    } else {
      assert (a + b)[1..] == a[1..] + b;
      EncodeConcat(a[1..], b);
    }
  }

  /** The bits that the bytes after the first carry. */
  function Trailing(bs: seq<byte>): int {
    if bs == [] then 0 else Trailing(bs[..|bs| - 1]) * 64 + Bits(bs[|bs| - 1], 0x80)
  }

  lemma TrailingIs(a: byte, b: byte, c: byte)
    ensures Trailing([a]) == Bits(a, 0x80)
    ensures Trailing([a, b]) == Bits(a, 0x80) * 64 + Bits(b, 0x80)
    ensures Trailing([a, b, c]) == (Bits(a, 0x80) * 64 + Bits(b, 0x80)) * 64 + Bits(c, 0x80)
  {
    assert [a][..0] == [] && [a, b][..1] == [a] && [a, b, c][..2] == [a, b];
  }

  /** The first byte of a form of this length, and what it adds to the bits of the others. */
  predicate Leads(b: byte, length: nat, high: int) {
    || (length == 1 && b < 0x80 && high == b)
    || (length == 2 && 0xC0 <= b < 0xE0 && high == Bits(b, 0xC0) * 64)
    || (length == 3 && 0xE0 <= b < 0xF0 && high == Bits(b, 0xE0) * 4096)
    || (length == 4 && 0xF0 <= b < 0xF8 && high == Bits(b, 0xF0) * 262144)
  }

  /** The form of an encoded character: as many bytes as its value needs, the first one telling how
      many, the others from 0x80 to 0xBF, and the value in their low bits, most significant first. */
  lemma EncodedForm(c: char)
    ensures var n, bs := c as int, EncodeChar(c);
            && |bs| == (if n < 0x80 then 1 else if n < 0x800 then 2 else if n < 0x10000 then 3 else 4)
            && (forall i :: 1 <= i < |bs| ==> Continuation(bs[i]))
            && Leads(bs[0], |bs|, n - Trailing(bs[1..]))
  {
    var n, bs := c as int, EncodeChar(c);
    assert n / 64 / 64 == n / 4096 && n / 4096 / 64 == n / 262144;
    if |bs| == 2 {
      assert bs[1..] == [bs[1]];
      TrailingIs(bs[1], 0, 0);
    } else if |bs| == 3 {
      assert bs[1..] == [bs[1], bs[2]];
      TrailingIs(bs[1], bs[2], 0);
    } else if |bs| == 4 {
      assert bs[1..] == [bs[1], bs[2], bs[3]];
      TrailingIs(bs[1], bs[2], bs[3]);
    }
  }
}

/** Percent-encoding as Foundation does it (section 2.1 of RFC 3986): the bytes of the UTF-8
    form, upper-case digits, and only characters of the allowed ASCII set left alone. */
module PercentEncoding {
  import opened Sequences
  import opened Utf8

  function HexDigit(n: int): char
    requires 0 <= n < 16
  {
    if n < 10 then '0' + n as char else 'A' + (n - 10) as char
  }

  function HexValue(c: char): Option<int> {
    if '0' <= c <= '9' then Some(c as int - '0' as int)
    else if 'A' <= c <= 'F' then Some(c as int - 'A' as int + 10)
    else if 'a' <= c <= 'f' then Some(c as int - 'a' as int + 10)
    else None
  }

  function Triplet(b: byte): string {
    ['%', HexDigit(b / 16), HexDigit(b % 16)]
  }

  function EncodeByte(b: byte, allowed: char -> bool): (r: string)
    ensures r != []
  {
    if b < 0x80 && allowed(b as char) then [b as char] else Triplet(b)
  }

  function EncodeBytes(bs: seq<byte>, allowed: char -> bool): string {
    if bs == [] then "" else EncodeByte(bs[0], allowed) + EncodeBytes(bs[1..], allowed)
  }

  function AddingPercentEncoding(s: string, allowed: char -> bool): string {
    EncodeBytes(Encode(s), allowed)
  }

  function DecodeTriplet(hi: char, lo: char): (r: Option<byte>) {
    match (HexValue(hi), HexValue(lo))
    case (Some(h), Some(l)) => Some(h * 16 + l)
    case _ => None
  }

  /** The bytes a percent-encoded text stands for; a `%` without two digits is refused. */
  function ToBytes(s: string): Option<seq<byte>> {
    if s == [] then Some([])
    else if s[0] != '%' then
      match ToBytes(s[1..])
      case None => None
      case Some(rest) => Some(EncodeChar(s[0]) + rest)
    else if |s| < 3 then None
    else
      match (DecodeTriplet(s[1], s[2]), ToBytes(s[3..]))
      case (Some(b), Some(rest)) => Some([b] + rest)
      case _ => None
  }

  function RemovingPercentEncoding(s: string): Option<string> {
    match ToBytes(s)
    case None => None
    case Some(bs) => Decode(bs)
  }

  lemma DecodeTripletOf(b: byte)
    ensures DecodeTriplet(HexDigit(b / 16), HexDigit(b % 16)) == Some(b)
  {
    HexDigitValue(b / 16);
    HexDigitValue(b % 16);
  }

  lemma HexDigitValue(n: int)
    requires 0 <= n < 16
    ensures HexValue(HexDigit(n)) == Some(n)
  {}

  lemma {:induction false} ToBytesOfEncoded(bs: seq<byte>, allowed: char -> bool)
    requires !allowed('%')
    ensures ToBytes(EncodeBytes(bs, allowed)) == Some(bs)
  {
    if bs != [] {
      var b, rest := bs[0], EncodeBytes(bs[1..], allowed);
      var s := EncodeByte(b, allowed) + rest;
      ToBytesOfEncoded(bs[1..], allowed);
      if b < 0x80 && allowed(b as char) {
        assert s[1..] == rest;
        assert EncodeChar(b as char) == [b];
      } else {
        DecodeTripletOf(b);
        assert s[3..] == rest;
      }
      assert bs == [b] + bs[1..];
    }
  }

  /** Decoding undoes encoding for every text and every allowed set without `%`; so encoding
      is injective. */
  lemma RoundTrip(s: string, allowed: char -> bool)
    requires !allowed('%')
    ensures RemovingPercentEncoding(AddingPercentEncoding(s, allowed)) == Some(s)
  {
    ToBytesOfEncoded(Encode(s), allowed);
    DecodeEncode(s);
  }

  /** A text made of allowed characters and well-formed triplets only. */
  ghost predicate WellEncoded(s: string, allowed: char -> bool) {
    s == [] ||
    (s[0] as int < 0x80 && allowed(s[0]) && WellEncoded(s[1..], allowed)) ||
    (|s| >= 3 && s[0] == '%' && HexValue(s[1]).Some? && HexValue(s[2]).Some? && WellEncoded(s[3..], allowed))
  }

  lemma {:induction false} EncodedBytesAreWellEncoded(bs: seq<byte>, allowed: char -> bool)
    ensures WellEncoded(EncodeBytes(bs, allowed), allowed)
  {
    if bs != [] {
      var b, rest := bs[0], EncodeBytes(bs[1..], allowed);
      EncodedBytesAreWellEncoded(bs[1..], allowed);
      var s := EncodeByte(b, allowed) + rest;
      if b < 0x80 && allowed(b as char) {
        assert s[1..] == rest;
      } else {
        HexDigitValue(b / 16);
        HexDigitValue(b % 16);
        assert s[3..] == rest;
      }
    }
  }

  lemma EncodedIsWellEncoded(s: string, allowed: char -> bool)
    ensures WellEncoded(AddingPercentEncoding(s, allowed), allowed)
  {
    EncodedBytesAreWellEncoded(Encode(s), allowed);
  }

  /** A character that is not allowed, not `%` and not a digit cannot occur in encoded text. */
  lemma {:induction false} WellEncodedExcludes(s: string, allowed: char -> bool, c: char)
    requires WellEncoded(s, allowed) && !allowed(c) && c != '%' && HexValue(c).None?
    ensures c !in s
  {
    if s != [] {
      if s[0] as int < 0x80 && allowed(s[0]) && WellEncoded(s[1..], allowed) {
        WellEncodedExcludes(s[1..], allowed, c);
        assert s == [s[0]] + s[1..];
      } else {
        WellEncodedExcludes(s[3..], allowed, c);
        assert s == [s[0], s[1], s[2]] + s[3..];
      }
    }
  }

  lemma EncodedExcludes(s: string, allowed: char -> bool, c: char)
    requires !allowed(c) && c != '%' && HexValue(c).None?
    ensures c !in AddingPercentEncoding(s, allowed)
  {
    EncodedIsWellEncoded(s, allowed);
    WellEncodedExcludes(AddingPercentEncoding(s, allowed), allowed, c);
  }

  lemma {:induction false} EncodeBytesConcat(a: seq<byte>, b: seq<byte>, allowed: char -> bool)
    ensures EncodeBytes(a + b, allowed) == EncodeBytes(a, allowed) + EncodeBytes(b, allowed)
  {
    if a == [] {
      assert a + b == b;
    } else {
      assert (a + b)[1..] == a[1..] + b;
      EncodeBytesConcat(a[1..], b, allowed);
    }
  }

  lemma EncodingConcat(a: string, b: string, allowed: char -> bool)
    ensures AddingPercentEncoding(a + b, allowed) == AddingPercentEncoding(a, allowed) + AddingPercentEncoding(b, allowed)
  {
    EncodeConcat(a, b);
    EncodeBytesConcat(Encode(a), Encode(b), allowed);
  }

  /** The digits of a triplet are read in either case. */
  lemma TripletReadInAnyCase(b: byte)
    ensures var hi, lo := HexDigit(b / 16), HexDigit(b % 16);
            DecodeTriplet(hi, lo) == DecodeTriplet(LowerChar(hi), LowerChar(lo)) == Some(b)
  {
    HexDigitIs(b / 16);
    HexDigitIs(b % 16);
  }

  /** They are written in upper case. */
  lemma HexDigitIs(n: int)
    requires 0 <= n < 16
    ensures HexDigit(n) == "0123456789ABCDEF"[n]
    ensures HexValue(HexDigit(n)) == HexValue(LowerChar(HexDigit(n))) == Some(n)
  {}

  /** Every character of the text is in the allowed set. */
  ghost predicate AllAllowed(s: string, allowed: char -> bool) {
    forall i :: 0 <= i < |s| ==> s[i] as int < 0x80 && allowed(s[i])
  }

  lemma EncodedCharLength(c: char, allowed: char -> bool)
    ensures var e := EncodeBytes(EncodeChar(c), allowed);
            if c as int < 0x80 && allowed(c) then e == [c] else |e| > 1
  {
    var bs := EncodeChar(c);
    assert EncodeBytes(bs, allowed) == EncodeByte(bs[0], allowed) + EncodeBytes(bs[1..], allowed);
    if |bs| == 1 { assert bs[1..] == []; }
  }

  lemma {:induction false} EncodingGrows(s: string, allowed: char -> bool)
    ensures |AddingPercentEncoding(s, allowed)| >= |s|
    ensures if AllAllowed(s, allowed) then AddingPercentEncoding(s, allowed) == s
            else |AddingPercentEncoding(s, allowed)| > |s|
  {
    if s != [] {
      EncodingGrows(s[1..], allowed);
      EncodedCharLength(s[0], allowed);
      EncodeBytesConcat(EncodeChar(s[0]), Encode(s[1..]), allowed);
      AllAllowedCons(s, allowed);
    }
  }

  lemma AllAllowedCons(s: string, allowed: char -> bool)
    requires s != []
    ensures AllAllowed(s, allowed) <==> s[0] as int < 0x80 && allowed(s[0]) && AllAllowed(s[1..], allowed)
  {
    assert forall i :: 1 <= i < |s| ==> s[i] == s[1..][i - 1];
  }

  /** A text is its own encoding if and only if all its characters are allowed. */
  lemma FixedExactlyWhen(s: string, allowed: char -> bool)
    ensures AddingPercentEncoding(s, allowed) == s <==> AllAllowed(s, allowed)
  {
    EncodingGrows(s, allowed);
  }

  // ---------- Foundation's query character set and the client's own ----------

  predicate Unreserved(c: char) {
    'a' <= c <= 'z' || 'A' <= c <= 'Z' || '0' <= c <= '9' || c in "-._~"
  }

  /** `CharacterSet.urlQueryAllowed` (section 3.4 of RFC 3986). */
  predicate UrlQueryAllowed(c: char) {
    Unreserved(c) || c in "!$&'()*+,;=" || c in ":@/?"
  }

  /** The unreserved characters of section 2.3 of RFC 3986: letters, digits, and four marks. */
  lemma UnreservedExactlyWhen(c: char)
    ensures Unreserved(c) <==>
      || 'A' <= c <= 'Z' || 'a' <= c <= 'z' || '0' <= c <= '9'
      || c == '-' || c == '.' || c == '_' || c == '~'
  {
    assert "-._~" == ['-', '.', '_', '~'];
  }

  /** The characters of a query: unreserved ones, sub-delimiters, `:`, `@`, `/` and `?`. */
  lemma QueryCharactersExactlyWhen(c: char)
    ensures UrlQueryAllowed(c) <==> Unreserved(c) || c in ['!', '$', '&', '\'', '(', ')', '*', '+', ',', ';', '=', ':', '@', '/', '?']
  {
    assert forall i :: 0 <= i < 11 ==> "!$&'()*+,;="[i] == ['!', '$', '&', '\'', '(', ')', '*', '+', ',', ';', '='][i];
  }

  /** What `escape` leaves alone: the query set without `:#[]@` and `!$&'()*+,;=`. */
  predicate EscapeAllowed(c: char) {
    UrlQueryAllowed(c) && c !in ":#[]@" && c !in "!$&'()*+,;="
  }

  function Escaped(s: string): string {
    AddingPercentEncoding(s, EscapeAllowed)
  }

  /** The 50-character batches of `escape`. `graphemes` is any division of the text into
      characters; where the batches fall makes no difference. */
  method Escape(graphemes: seq<string>) returns (escaped: string)
    ensures escaped == Escaped(Flatten(graphemes))
  {
    escaped := "";
    var batchSize := 50;
    var index := 0;
    while index != |graphemes|
      invariant 0 <= index <= |graphemes|
      invariant escaped == Escaped(Flatten(graphemes[..index]))
      decreases |graphemes| - index
    {
      var endIndex := if index + batchSize <= |graphemes| then index + batchSize else |graphemes|;
      var substring := Flatten(graphemes[index..endIndex]);
      assert graphemes[..endIndex] == graphemes[..index] + graphemes[index..endIndex];
      FlattenConcat(graphemes[..index], graphemes[index..endIndex]);
      EncodingConcat(Flatten(graphemes[..index]), substring, EscapeAllowed);
      escaped := escaped + AddingPercentEncoding(substring, EscapeAllowed);
      index := endIndex;
    }
    assert graphemes[..index] == graphemes;
  }

  /** Escaped text holds only unreserved characters, `?`, `/` and triplets (sections 2.1, 2.3
      and 3.4 of RFC 3986), in particular no `&` and no `=`; and unescaping gives the text back. */
  lemma EscapedIsSafe(s: string)
    ensures WellEncoded(Escaped(s), c => Unreserved(c) || c == '?' || c == '/')
    ensures '&' !in Escaped(s) && '=' !in Escaped(s)
    ensures RemovingPercentEncoding(Escaped(s)) == Some(s)
  {
    RoundTrip(s, EscapeAllowed);
    EncodedIsWellEncoded(s, EscapeAllowed);
    EncodedExcludes(s, EscapeAllowed, '&');
    EncodedExcludes(s, EscapeAllowed, '=');
    forall c | EscapeAllowed(c)
      ensures Unreserved(c) || c == '?' || c == '/'
    {
      AllowedCharacters(c);
    }
    WeakerSet(Escaped(s), EscapeAllowed, c => Unreserved(c) || c == '?' || c == '/');
  }

  lemma AllowedCharacters(c: char)
    requires EscapeAllowed(c)
    ensures Unreserved(c) || c == '?' || c == '/'
  {
    if !Unreserved(c) {
      var i :| 0 <= i < 4 && c == ":@/?"[i];
    }
  }

  lemma {:induction false} WeakerSet(s: string, a: char -> bool, b: char -> bool)
    requires WellEncoded(s, a) && forall c :: a(c) ==> b(c)
    ensures WellEncoded(s, b)
  {
    if s != [] {
      if s[0] as int < 0x80 && a(s[0]) && WellEncoded(s[1..], a) {
        WeakerSet(s[1..], a, b);
      } else {
        WeakerSet(s[3..], a, b);
      }
    }
  }

  /** What is left alone is no less than it may be: a text is its own escape if and only if it holds
      only unreserved characters, `?` and `/`. */
  lemma EscapeFixesExactlyWhen(s: string)
    ensures Escaped(s) == s <==> forall i :: 0 <= i < |s| ==> Unreserved(s[i]) || s[i] == '?' || s[i] == '/'
  {
    FixedExactlyWhen(s, EscapeAllowed);
    forall i | 0 <= i < |s|
      ensures s[i] as int < 0x80 && EscapeAllowed(s[i]) <==> Unreserved(s[i]) || s[i] == '?' || s[i] == '/'
    {
      EscapeAllowedIs(s[i]);
    }
  }

  lemma EscapeAllowedIs(c: char)
    ensures c as int < 0x80 && EscapeAllowed(c) <==> Unreserved(c) || c == '?' || c == '/'
  {
    if EscapeAllowed(c) { AllowedCharacters(c); }
    if Unreserved(c) { UnreservedIs(c); }
    if c == '?' { assert ":@/?"[3] == c; }
    if c == '/' { assert ":@/?"[2] == c; }
  }

  lemma UnreservedIs(c: char)
    requires Unreserved(c)
    ensures c as int < 0x80 && c !in ":#[]@" && c !in "!$&'()*+,;="
  {}
}
