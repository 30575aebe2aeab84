/** Base64 (section 4 of RFC 4648): the encoder of ssh.rs, its strict decoder that masks
    the accumulator, and the tolerant decoder of migration.rs that never does. */
module Base64 {
  import opened Text
  import opened Bits

  const UPPER := "ABCDEFGHIJKLMNOPQRSTUVWXYZ"
  const LOWER := "abcdefghijklmnopqrstuvwxyz"
  const DIGITS := "0123456789"
  const B64: string := UPPER + LOWER + DIGITS + "+/"

  function Symbol(v: nat): char {
    if v < 26 then 'A' + v as char
    else if v < 52 then 'a' + (v - 26) as char
    else if v < 62 then '0' + (v - 52) as char
    else if v == 62 then '+'
    else if v == 63 then '/'
    else '='
  }

  /** The arithmetic is the table lookup. */
  lemma SymbolTable()
    ensures |B64| == 64
    ensures forall v :: 0 <= v < 64 ==> B64[v] == Symbol(v)
  {
    UpperTable();
    LowerTable();
    assert |UPPER| == 26 && |LOWER| == 26 && |DIGITS| == 10;
    assert forall v :: 0 <= v < 10 ==> DIGITS[v] == '0' + v as char;
  }

  lemma UpperTable()
    ensures forall v :: 0 <= v < 26 ==> UPPER[v] == 'A' + v as char
  {
  }

  lemma LowerTable()
    ensures forall v :: 0 <= v < 26 ==> LOWER[v] == 'a' + v as char
  {
  }

  function Value(c: char): Option<nat> {
    if 'A' <= c <= 'Z' then Some((c - 'A') as nat)
    else if 'a' <= c <= 'z' then Some((c - 'a') as nat + 26)
    else if '0' <= c <= '9' then Some((c - '0') as nat + 52)
    else if c == '+' then Some(62)
    else if c == '/' then Some(63)
    else None
  }

  function Symbols(vals: seq<nat>): (s: string)
    ensures |s| == |vals|
  {
    seq(|vals|, i requires 0 <= i < |vals| => Symbol(vals[i]))
  }

  function Pads(n: nat): (s: string)
    ensures |s| == n
  {
    seq(n, _ => '=')
  }

  /** The reference: six-bit groups, then `=` up to a multiple of four. */
  function Encode(bytes: seq<u8>, pad: bool): string {
    Symbols(Pack(BytesBits(bytes), 6)) + (if pad then Pads((3 - |bytes| % 3) % 3) else "")
  }

  // --- encoding ----------------------------------------------------------------

  /** `(b0 << 16) | (b1 << 8) | b2`. */
  function Triple(b0: u8, b1: u8, b2: u8): nat {
    b0 * 0x1_0000 + b1 * 0x100 + b2
  }

  /** The four six-bit groups of a 24-bit number. */
  function Groups(n: nat): (g: seq<nat>)
    ensures |g| == 4
  {
    seq(4, i requires 0 <= i < 4 => Shr(n, 18 - 6 * i) % 64)
  }

  lemma ShiftedByte(x: nat, n: nat, b: u8, bytes: seq<u8>)
    requires x < 0x1_0000 && n <= 16
    ensures Encoded(x, n, [b] + bytes, 6) == Encoded(x * 0x100 + b, n + 8, bytes, 6)
  {
    EncodedByte(x, n, b, bytes, 6, TWO_32);
    ShlIs(x, 8);
    assert ShiftIn(x, 8, b, TWO_32) == x * 0x100 + b;
  }

  lemma TripleBits(b0: u8, b1: u8, b2: u8, rest: seq<u8>)
    ensures Pack(BytesBits([b0, b1, b2] + rest), 6) == Encoded(Triple(b0, b1, b2), 24, rest, 6)
  {
    var tail := [b1] + ([b2] + rest);
    assert [b0, b1, b2] + rest == [b0] + tail;
    EncodedStart([b0] + tail, 6);
    ShiftedByte(0, 0, b0, tail);
    ShiftedByte(b0, 8, b1, [b2] + rest);
    ShiftedByte(b0 * 0x100 + b1, 16, b2, rest);
  }

  lemma {:induction false} FourGroups(n: nat, j: nat, rest: seq<u8>)
    requires j <= 4
    ensures Encoded(n, 24 - 6 * j, rest, 6) == Groups(n)[j..] + Pack(BytesBits(rest), 6)
    decreases 4 - j
  {
    if j == 4 {
      assert ToBits(n, 0) + BytesBits(rest) == BytesBits(rest);
    } else {
      FourGroups(n, j + 1, rest);
      EncodedGroup(n, 24 - 6 * j, rest, 6);
      LowIs(Shr(n, 18 - 6 * j), 6);
      assert Groups(n)[j..] == [Groups(n)[j]] + Groups(n)[j + 1..];
    }
  }

  lemma FullChunk(b0: u8, b1: u8, b2: u8, rest: seq<u8>)
    ensures Pack(BytesBits([b0, b1, b2] + rest), 6)
         == Groups(Triple(b0, b1, b2)) + Pack(BytesBits(rest), 6)
  {
    TripleBits(b0, b1, b2, rest);
    FourGroups(Triple(b0, b1, b2), 0, rest);
  }

  /** A short chunk's groups are the first ones of the chunk filled with zero bytes. */
  lemma ShortChunk(chunk: seq<u8>, fill: seq<u8>)
    requires 1 <= |chunk| <= 2 && |chunk| + |fill| == 3
    requires forall i :: 0 <= i < |fill| ==> fill[i] == 0
    ensures Pack(BytesBits(chunk), 6) <= Pack(BytesBits(chunk + fill), 6)
    ensures |Pack(BytesBits(chunk), 6)| == |chunk| + 1
  {
    BytesBitsConcat(chunk, fill);
    ZeroBytes(fill);
    PackZeros(BytesBits(chunk), 8 * |fill|, 6);
    PackUnpack(chunk, 6);
  }

  lemma {:induction false} BytesBitsConcat(a: seq<u8>, b: seq<u8>)
    ensures BytesBits(a + b) == BytesBits(a) + BytesBits(b)
  {
    if a == [] {
      assert a + b == b;
    } else {
      BytesBitsConcat(a[1..], b);
      BytesBitsCons(a[0], a[1..] + b);
      assert a + b == [a[0]] + (a[1..] + b);
    }
  }

  lemma BytesBitsCons(x: u8, rest: seq<u8>)
    ensures BytesBits([x] + rest) == ToBits(x, 8) + BytesBits(rest)
  {
    assert ([x] + rest)[1..] == rest;
  }

  lemma {:induction false} ZeroBytes(z: seq<u8>)
    requires forall i :: 0 <= i < |z| ==> z[i] == 0
    ensures BytesBits(z) == Zeros(8 * |z|)
  {
    if z != [] {
      ZeroBytes(z[1..]);
      ZeroBits(8);
    }
  }

  /** The text of one chunk of `len` bytes, its first `j` places. */
  function ChunkText(chars: seq<nat>, len: nat, pad: bool, j: nat): string
    requires j <= |chars|
  {
    if j == 0 then ""
    else
      ChunkText(chars, len, pad, j - 1) +
      (if j - 1 <= len then [Symbol(chars[j - 1])] else if pad then "=" else "")
  }

  lemma ChunkIs(chars: seq<nat>, len: nat, pad: bool)
    requires |chars| == 4 && 1 <= len <= 3
    ensures ChunkText(chars, len, pad, 4) == Symbols(chars[..len + 1]) + (if pad then Pads(3 - len) else "")
  {
    assert ChunkText(chars, len, pad, 1) == [Symbol(chars[0])];
    assert ChunkText(chars, len, pad, 2) == Symbols(chars[..2]);
    if len >= 2 {
      assert ChunkText(chars, len, pad, 3) == Symbols(chars[..3]);
    }
  }

  lemma EncodeChunk(b0: u8, b1: u8, b2: u8, rest: seq<u8>, pad: bool)
    ensures Encode([b0, b1, b2] + rest, pad)
         == ChunkText(Groups(Triple(b0, b1, b2)), 3, pad, 4) + Encode(rest, pad)
  {
    var g, p := Groups(Triple(b0, b1, b2)), Pack(BytesBits(rest), 6);
    FullChunk(b0, b1, b2, rest);
    ChunkIs(g, 3, pad);
    assert g[..4] == g;
    SymbolsConcat(g, p);
    assert Pads(0) == "";
    SamePads(rest, [b0, b1, b2] + rest);
    var pads := if pad then Pads((3 - |rest| % 3) % 3) else "";
    assert (Symbols(g) + Symbols(p)) + pads == Symbols(g) + (Symbols(p) + pads);
  }

  lemma SamePads(rest: seq<u8>, all: seq<u8>)
    requires |all| == |rest| + 3
    ensures (3 - |all| % 3) % 3 == (3 - |rest| % 3) % 3
  {
  }

  lemma SymbolsConcat(a: seq<nat>, b: seq<nat>)
    ensures Symbols(a + b) == Symbols(a) + Symbols(b)
  {
  }

  lemma EncodeLast(chunk: seq<u8>, b1: u8, pad: bool)
    requires 1 <= |chunk| <= 2 && b1 == if |chunk| > 1 then chunk[1] else 0
    ensures Encode(chunk, pad) == ChunkText(Groups(Triple(chunk[0], b1, 0)), |chunk|, pad, 4)
  {
    var full := [chunk[0], b1, 0];
    var fill := full[|chunk|..];
    assert chunk + fill == full;
    ShortChunk(chunk, fill);
    FullChunk(chunk[0], b1, 0, []);
    assert full + [] == full;
    var g := Groups(Triple(chunk[0], b1, 0));
    assert g + Pack(BytesBits([]), 6) == g;
    ChunkIs(g, |chunk|, pad);
  }

  lemma EncodeStep(data: seq<u8>, m: nat, b1: u8, b2: u8, pad: bool)
    requires 1 <= m <= |data| && m == if |data| < 3 then |data| else 3
    requires b1 == (if m > 1 then data[1] else 0) && b2 == (if m > 2 then data[2] else 0)
    ensures Encode(data, pad) == ChunkText(Groups(Triple(data[0], b1, b2)), m, pad, 4) + Encode(data[m..], pad)
  {
    if m == 3 {
      EncodeChunk(data[0], b1, b2, data[3..], pad);
      assert data == [data[0], b1, b2] + data[3..];
    } else {
      EncodeLast(data, b1, pad);
      assert data[m..] == [];
      assert Encode([], pad) == "";
    }
  }

  lemma EncodeEmpty(pad: bool)
    ensures Encode([], pad) == ""
  {
  }

  /** The four places of one chunk of `len` bytes. */
  method PushChunk(out: string, chars: seq<nat>, len: nat, pad: bool) returns (r: string)
    requires |chars| == 4
    ensures r == out + ChunkText(chars, len, pad, 4)
  {
    r := out;
    for i := 0 to 4
      invariant r == out + ChunkText(chars, len, pad, i)
    {
      if i <= len {
        r := r + [Symbol(chars[i])];
      } else if pad {
        r := r + "=";
      }
    }
  }

  method EncodeBase64(data: seq<u8>, pad: bool) returns (out: string)
    ensures out == Encode(data, pad)
  {
    hide Encode, Groups, ChunkText, Triple;
    out := "";
    var rest := data;
    while rest != []
      invariant Encode(data, pad) == out + Encode(rest, pad)
      decreases |rest|
    {
      var m := if |rest| < 3 then |rest| else 3;
      var b1 := if m > 1 then rest[1] else 0;
      var b2 := if m > 2 then rest[2] else 0;
      EncodeStep(rest, m, b1, b2, pad);
      out := PushChunk(out, Groups(Triple(rest[0], b1, b2)), m, pad);
      rest := rest[m..];
    }
    EncodeEmpty(pad);
  }

  // --- decoding ----------------------------------------------------------------

  /** `text.trim_end_matches('=')`. */
  function TrimPads(s: string): string {
    if s != [] && s[|s| - 1] == '=' then TrimPads(s[..|s| - 1]) else s
  }

  function StrictValues(s: string): Option<seq<nat>> {
    if s == [] then Some([])
    else match Value(s[0])
      case None => None
      case Some(v) => Cons(v, StrictValues(s[1..]))
  }

  function DecodeStrict(s: string): Option<seq<u8>> {
    Decoded(0, 0, StrictValues(TrimPads(s)), 6)
  }

  /** ssh.rs `base64_decode`. */
  method DecodeMasking(text: string) returns (r: Option<seq<u8>>)
    ensures r == DecodeStrict(text)
  {
    var rest := TrimPads(text);
    hide Decoded, Prepend, Shr, ShiftIn;
    var out: seq<u8> := [];
    var acc: nat, bits: nat := 0, 0;
    DecodedStart(StrictValues(rest), 6);
    while rest != []
      invariant bits < 8
      invariant DecodeStrict(text) == Prepend(out, Decoded(acc, bits, StrictValues(rest), 6))
      decreases |rest|
    {
      var v := Value(rest[0]);
      if v.None? {
        DecodedBad(out, acc, bits, 6);
        return None;
      }
      rest := rest[1..];
      DecodedSymbol(acc, bits, v.value, StrictValues(rest), 6, TWO_32);
      acc := ShiftIn(acc, 6, v.value, TWO_32);
      bits := bits + 6;
      if bits >= 8 {
        DecodedByte(out, acc, bits, StrictValues(rest), 6);
        bits := bits - 8;
        out := out + [Shr(acc, bits) % 256];
        DecodedMask(acc, bits, StrictValues(rest), 6);
        acc := acc % Pow2(bits);
      }
    }
    DecodedEnd(out, acc, bits, 6);
    return Some(out);
  }

  /** Clearing the bits above the queue changes nothing. */
  lemma DecodedMask(x: nat, n: nat, vals: Option<seq<nat>>, k: nat)
    ensures Decoded(x % Pow2(n), n, vals, k) == Decoded(x, n, vals, k)
  {
    Word(x, n, n);
  }

  /** A character outside the alphabet is refused. */
  lemma {:induction false} NotStrict(s: string, c: char)
    requires c in s && Value(c).None? && c != '='
    ensures DecodeStrict(s).None?
  {
    TrimKeeps(s, c);
    NoValues(TrimPads(s), c);
  }

  lemma {:induction false} TrimKeeps(s: string, c: char)
    requires c in s && c != '='
    ensures c in TrimPads(s)
  {
    if s[|s| - 1] == '=' {
      TrimKeeps(s[..|s| - 1], c);
    }
  }

  lemma {:induction false} NoValues(s: string, c: char)
    requires c in s && Value(c).None?
    ensures StrictValues(s).None?
  {
    hide Value;
    if s[0] != c {
      NoValues(s[1..], c);
    }
  }

  predicate Skipped(c: char) {
    c == '=' || c == ' ' || c == '\n' || c == '\r' || c == '\t'
  }

  function TolerantValue(c: char): Option<nat> {
    if c == '-' then Some(62) else if c == '_' then Some(63) else Value(c)
  }

  function TolerantValues(s: string): Option<seq<nat>> {
    if s == [] then Some([])
    else if Skipped(s[0]) then TolerantValues(s[1..])
    else match TolerantValue(s[0])
      case None => None
      case Some(v) => Cons(v, TolerantValues(s[1..]))
  }

  function DecodeTolerant(s: string): Option<seq<u8>> {
    Decoded(0, 0, TolerantValues(s), 6)
  }

  /** migration.rs `decode_base64`. */
  method DecodeUnmasked(input: string) returns (r: Option<seq<u8>>)
    ensures r == DecodeTolerant(input)
  {
    var rest := input;
    hide Decoded, Prepend, Shr, ShiftIn;
    var out: seq<u8> := [];
    var bits: nat, nbits: nat := 0, 0;
    DecodedStart(TolerantValues(rest), 6);
    while rest != []
      invariant nbits < 8
      invariant DecodeTolerant(input) == Prepend(out, Decoded(bits, nbits, TolerantValues(rest), 6))
      decreases |rest|
    {
      var c := rest[0];
      var v := TolerantValue(c);
      rest := rest[1..];
      if !Skipped(c) {
        if v.None? {
          DecodedBad(out, bits, nbits, 6);
          return None;
        }
        DecodedSymbol(bits, nbits, v.value, TolerantValues(rest), 6, TWO_32);
        bits := ShiftIn(bits, 6, v.value, TWO_32);
        nbits := nbits + 6;
        if nbits >= 8 {
          DecodedByte(out, bits, nbits, TolerantValues(rest), 6);
          nbits := nbits - 8;
          out := out + [Shr(bits, nbits) % 256];
        }
      }
    }
    DecodedEnd(out, bits, nbits, 6);
    return Some(out);
  }

  // --- round trips -------------------------------------------------------------

  lemma {:induction false} ValuesOfSymbols(vals: seq<nat>, pads: string)
    requires Below(vals, 64) && forall k :: 0 <= k < |pads| ==> pads[k] == '='
    ensures StrictValues(Symbols(vals)) == Some(vals)
    ensures TolerantValues(Symbols(vals) + pads) == Some(vals)
  {
    var s := Symbols(vals);
    if vals != [] {
      ValuesOfSymbols(vals[1..], pads);
      assert s[1..] == Symbols(vals[1..]);
      assert (s + pads)[1..] == s[1..] + pads;
      assert Value(s[0]) == Some(vals[0]);
      assert vals == [vals[0]] + vals[1..];
    } else {
      assert s + pads == pads;
      SkipPads(pads);
    }
  }

  lemma {:induction false} SkipPads(pads: string)
    requires forall k :: 0 <= k < |pads| ==> pads[k] == '='
    ensures TolerantValues(pads) == Some([])
  {
    if pads != [] {
      SkipPads(pads[1..]);
    }
  }

  lemma {:induction false} TrimPadsExact(s: string, pads: string)
    requires forall k :: 0 <= k < |s| ==> s[k] != '='
    requires forall k :: 0 <= k < |pads| ==> pads[k] == '='
    ensures TrimPads(s + pads) == s
    decreases |pads|
  {
    if pads == [] {
      assert s + pads == s;
    } else {
      var init := pads[..|pads| - 1];
      assert (s + pads)[..|s + pads| - 1] == s + init;
      TrimPadsExact(s, init);
    }
  }

  /** Both decoders invert the encoder, padded or not. */
  lemma RoundTrip(bytes: seq<u8>, pad: bool)
    ensures DecodeStrict(Encode(bytes, pad)) == Some(bytes)
    ensures DecodeTolerant(Encode(bytes, pad)) == Some(bytes)
  {
    var vals := Pack(BytesBits(bytes), 6);
    var pads := if pad then Pads((3 - |bytes| % 3) % 3) else "";
    PackBits(BytesBits(bytes), 6);
    ValuesOfSymbols(vals, pads);
    TrimPadsExact(Symbols(vals), pads);
    DecodedStart(Some(vals), 6);
    PackUnpack(bytes, 6);
  }

  /** An encoding is never empty for a nonempty input and has no white space. */
  lemma EncodeShape(bytes: seq<u8>, pad: bool)
    ensures bytes != [] ==> Encode(bytes, pad) != []
    ensures forall k :: 0 <= k < |Encode(bytes, pad)| ==> '+' <= Encode(bytes, pad)[k] <= 'z'
  {
    PackBits(BytesBits(bytes), 6);
  }

  /** Padded text comes in groups of four; unpadded text has just the characters its bits need
      and no `=`. */
  lemma EncodeLength(bytes: seq<u8>, pad: bool)
    ensures pad ==> |Encode(bytes, pad)| == 4 * ((|bytes| + 2) / 3)
    ensures !pad ==> |Encode(bytes, pad)| == (8 * |bytes| + 5) / 6 && '=' !in Encode(bytes, pad)
  {
    hide Pack, BytesBits, Symbols, Symbol, Pads;
    PackBits(BytesBits(bytes), 6);
    PackUnpack(bytes, 6);
    SymbolsLack(Pack(BytesBits(bytes), 6));
  }

  lemma SymbolsLack(vals: seq<nat>)
    requires forall k :: 0 <= k < |vals| ==> vals[k] < 64
    ensures |Symbols(vals)| == |vals| && '=' !in Symbols(vals)
  {
  }

  // --- what the decoders take ------------------------------------------------------

  /** A character has a value exactly when it is in the alphabet, and then its position. */
  lemma ValueTable(c: char, v: nat)
    ensures Value(c) == Some(v) <==> v < 64 && B64[v] == c
  {
    hide B64;
    SymbolTable();
    if Value(c) == Some(v) {
      assert Symbol(v) == c;
    }
  }

  /** One character to the strict decoder. */
  lemma StrictOne(c: char)
    requires c != '='
    ensures StrictValues([c]) == match Value(c) case Some(v) => Some([v]) case None => None
  {
    hide Value;
    assert [c][1..] == [] && StrictValues([]) == Some([]);
    assert forall v: nat :: [v] + [] == [v];
  }

  /** One character to the tolerant decoder: the URL alphabet too, and pads and white space are
      passed over. */
  lemma TolerantOne(c: char)
    ensures TolerantValues([c]) ==
      if c in "= \n\r\t" then Some([])
      else if c == '-' then Some([62])
      else if c == '_' then Some([63])
      else match Value(c) case Some(v) => Some([v]) case None => None
  {
    hide Value;
    assert [c][1..] == [] && TolerantValues([]) == Some([]);
    assert forall v: nat :: [v] + [] == [v];
    assert Skipped(c) <==> c in "= \n\r\t";
  }

  function Joined(a: Option<seq<nat>>, b: Option<seq<nat>>): Option<seq<nat>> {
    if a.Some? && b.Some? then Some(a.value + b.value) else None
  }

  lemma JoinedCons(v: nat, a: Option<seq<nat>>, b: Option<seq<nat>>)
    ensures Joined(Cons(v, a), b) == Cons(v, Joined(a, b)) && (b.Some? ==> Joined(Some([]), b) == b)
  {
    if b.Some? {
      assert [] + b.value == b.value;
    }
    if a.Some? && b.Some? {
      assert [v] + a.value + b.value == [v] + (a.value + b.value);
    }
  }

  /** Both decoders read text piece by piece. */
  lemma {:induction false} ValuesConcat(a: string, b: string)
    ensures StrictValues(a + b) == Joined(StrictValues(a), StrictValues(b))
    ensures TolerantValues(a + b) == Joined(TolerantValues(a), TolerantValues(b))
  {
    hide Value, TolerantValue, Skipped;
    if a == "" {
      assert a + b == b;
      JoinedCons(0, None, StrictValues(b));
      JoinedCons(0, None, TolerantValues(b));
    } else {
      assert (a + b)[1..] == a[1..] + b && (a + b)[0] == a[0];
      ValuesConcat(a[1..], b);
      if Value(a[0]).Some? { JoinedCons(Value(a[0]).value, StrictValues(a[1..]), StrictValues(b)); }
      if TolerantValue(a[0]).Some? { JoinedCons(TolerantValue(a[0]).value, TolerantValues(a[1..]), TolerantValues(b)); }
    }
  }
}
