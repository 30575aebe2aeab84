/** Percent coding (section 2.1 of RFC 3986) as totp.rs writes and reads labels. */
module Percent {
  import opened Text
  import opened Utf8

  function Hex(n: nat): char
    requires n < 16
  {
    if n < 10 then '0' + n as char else 'A' + (n - 10) as char
  }

  /** `hex_val`, either case. */
  function HexVal(c: char): Option<nat> {
    if '0' <= c <= '9' then Some((c - '0') as nat)
    else if 'a' <= c <= 'f' then Some((c - 'a') as nat + 10)
    else if 'A' <= c <= 'F' then Some((c - 'A') as nat + 10)
    else None
  }

  predicate Literal(c: char) {
    || 'A' <= c <= 'Z' || 'a' <= c <= 'z' || '0' <= c <= '9'
    || c == '-' || c == '.' || c == '_' || c == '~' || c == ':' || c == '@'
  }

  function EncodeByte(c: char): (s: string)
    ensures |s| >= 1
  {
    if Literal(c) then [c] else ['%', Hex(c as nat / 16 % 16), Hex(c as nat % 16)]
  }

  function Encode(s: string): string {
    if s == [] then [] else EncodeByte(s[0]) + Encode(s[1..])
  }

  /** Bytes an escape takes at the front of `s`: 3, or 0 when there is none. A lone
      `%`, or one too near the end, passes through. */
  predicate EscapeAt(s: string) {
    |s| > 2 && s[0] == '%' && HexVal(s[1]).Some? && HexVal(s[2]).Some?
  }

  function EscapeValue(s: string): char
    requires EscapeAt(s)
  {
    (HexVal(s[1]).value * 16 + HexVal(s[2]).value) as char
  }

  /** The bytes an encoded text stands for. */
  function Unescape(s: string): string
    decreases |s|
  {
    if s == [] then []
    else if EscapeAt(s) then [EscapeValue(s)] + Unescape(s[3..])
    else [s[0]] + Unescape(s[1..])
  }

  function Decode(s: string): string {
    Lossy(Unescape(s))
  }

  method PercentEncode(s: string) returns (out: string)
    ensures out == Encode(s)
  {
    hide EncodeByte;
    out := "";
    var rest := s;
    while rest != []
      invariant Encode(s) == out + Encode(rest)
      decreases |rest|
    {
      out := out + EncodeByte(rest[0]);
      rest := rest[1..];
    }
  }

  method PercentDecode(s: string) returns (r: string)
    ensures r == Decode(s)
  {
    hide EscapeAt, EscapeValue;
    var out, rest := "", s;
    while rest != []
      invariant Unescape(s) == out + Unescape(rest)
      decreases |rest|
    {
      if EscapeAt(rest) {
        EscapeLong(rest);
        out := out + [EscapeValue(rest)];
        rest := rest[3..];
      } else {
        out := out + [rest[0]];
        rest := rest[1..];
      }
    }
    assert out + Unescape(rest) == out;
    return Lossy(out);
  }

  lemma EscapeLong(s: string)
    requires EscapeAt(s)
    ensures |s| >= 3
  {
  }

  lemma {:induction false} Utf8Bytes(s: string)
    requires IsUtf8(s)
    ensures forall k :: 0 <= k < |s| ==> s[k] < 0x100 as char
    decreases |s|
  {
    if s != [] {
      var n := CharLen(s);
      Utf8Bytes(s[n..]);
      assert forall k :: n <= k < |s| ==> s[k] == s[n..][k - n];
    }
  }

  lemma UnescapeOne(c: char, rest: string)
    requires c < 0x100 as char
    ensures Unescape(EncodeByte(c) + rest) == [c] + Unescape(rest)
  {
    var s := EncodeByte(c) + rest;
    if Literal(c) {
      assert s[1..] == rest;
    } else {
      HexRound(c as nat);
      assert s[0] == '%' && s[1] == Hex(c as nat / 16 % 16) && s[2] == Hex(c as nat % 16);
      assert s[3..] == rest;
    }
  }

  lemma HexRound(n: nat)
    requires n < 0x100
    ensures HexVal(Hex(n / 16 % 16)) == Some(n / 16) && HexVal(Hex(n % 16)) == Some(n % 16)
  {
  }

  lemma {:induction false} UnescapeEncode(s: string)
    requires forall k :: 0 <= k < |s| ==> s[k] < 0x100 as char
    ensures Unescape(Encode(s)) == s
  {
    if s != [] {
      UnescapeEncode(s[1..]);
      UnescapeOne(s[0], Encode(s[1..]));
    }
  }

  /** Any text survives, whatever characters it holds. */
  lemma RoundTrip(s: string)
    requires IsUtf8(s)
    ensures Decode(Encode(s)) == s
  {
    Utf8Bytes(s);
    UnescapeEncode(s);
    LossyId(s);
  }

  lemma {:induction false} EncodeShape(s: string)
    ensures forall k :: 0 <= k < |Encode(s)| ==> '%' <= Encode(s)[k] <= '~'
  {
    if s != [] {
      EncodeShape(s[1..]);
    }
  }

  /** No separator of a URI, and no line break, survives encoding. */
  lemma {:induction false} EncodeLacks(s: string, c: char)
    requires !Literal(c) && c != '%'
    ensures c !in Encode(s)
  {
    if s != [] {
      EncodeLacks(s[1..], c);
    }
  }

  // --- the characters ------------------------------------------------------------

  /** Hexadecimal digits are read in either case and written in upper case. */
  lemma HexTable(c: char, n: nat)
    ensures HexVal(c) == Some(n) <==> n < 16 && (c == "0123456789abcdef"[n] || c == "0123456789ABCDEF"[n])
    ensures n < 16 ==> Hex(n) == "0123456789ABCDEF"[n]
  {
    LowerDigits();
    UpperDigits();
  }

  lemma LowerDigits()
    ensures forall n :: 0 <= n < 16 ==> "0123456789abcdef"[n] == if n < 10 then '0' + n as char else 'a' + (n - 10) as char
  {
  }

  lemma UpperDigits()
    ensures forall n :: 0 <= n < 16 ==> "0123456789ABCDEF"[n] == if n < 10 then '0' + n as char else 'A' + (n - 10) as char
  {
  }

  /** Letters, digits and six marks are written as they are, every other byte as its two
      hexadecimal digits. */
  lemma EncodeByteIs(c: char)
    requires c < 0x100 as char
    ensures EncodeByte(c) ==
      if 'a' <= c <= 'z' || 'A' <= c <= 'Z' || '0' <= c <= '9' || c in "-._~:@" then [c]
      else ['%', "0123456789ABCDEF"[c as nat / 16], "0123456789ABCDEF"[c as nat % 16]]
  {
    HexTable(c, c as nat / 16);
    HexTable(c, c as nat % 16);
  }

  /** Two hexadecimal digits after a `%` are one byte; any other byte stands for itself, a `%`
      without them too. */
  lemma UnescapeIs(h: char, l: char, m: nat, n: nat, rest: string)
    requires HexVal(h) == Some(m) && HexVal(l) == Some(n)
    ensures Unescape(['%', h, l] + rest) == [(16 * m + n) as char] + Unescape(rest)
  {
    hide HexVal;
    var s := ['%', h, l] + rest;
    assert s[3..] == rest;
  }

  lemma UnescapePlain(c: char, rest: string)
    requires c != '%' || |rest| < 2 || HexVal(rest[0]).None? || HexVal(rest[1]).None?
    ensures Unescape([c] + rest) == [c] + Unescape(rest)
  {
    hide HexVal;
    assert ([c] + rest)[1..] == rest;
  }
}
