/** Base32 without padding (section 6 of RFC 4648): totp.rs `encode_base32` and the
    tolerant `decode_base32`, whose 64-bit accumulators are never masked. */
module Base32 {
  import opened Text
  import opened Utf8
  import opened Bits

  const ALPHABET: string := "ABCDEFGHIJKLMNOPQRSTUVWXYZ234567"

  function Symbol(v: nat): char {
    if v < 26 then 'A' + v as char
    else if v < 32 then '2' + (v - 26) as char
    else '='
  }

  /** The arithmetic is the table lookup. */
  lemma SymbolTable()
    ensures |ALPHABET| == 32
    ensures forall v :: 0 <= v < 32 ==> ALPHABET[v] == Symbol(v)
  {
  }

  function Value(c: char): Option<nat> {
    if 'A' <= c <= 'Z' then Some((c - 'A') as nat)
    else if '2' <= c <= '7' then Some((c - '2') as nat + 26)
    else None
  }

  function Symbols(vals: seq<nat>): (s: string)
    ensures |s| == |vals|
  {
    seq(|vals|, i requires 0 <= i < |vals| => Symbol(vals[i]))
  }

  /** The reference: the bits in groups of five, the last filled with zeros. */
  function Encode(bytes: seq<u8>): string {
    Symbols(Pack(BytesBits(bytes), 5))
  }

  /** Bytes of what the decoder ignores at the front: white space, `-`, `=`. */
  function Ignored(s: string): (n: nat)
    ensures n <= |s|
  {
    if SpaceAt(s) > 0 then SpaceAt(s)
    else if s != [] && (s[0] == '-' || s[0] == '=') then 1
    else 0
  }

  function Values(s: string): Option<seq<nat>>
    decreases |s|
  {
    if s == [] then Some([])
    else if Ignored(s) > 0 then Values(s[Ignored(s)..])
    else match Value(ToUpper(s[0]))
      case None => None
      case Some(v) => Cons(v, Values(s[1..]))
  }

  /** The reference: whole bytes of the symbols' bits; None is a bad secret. */
  function Decode(s: string): Option<seq<u8>> {
    match Values(s)
    case None => None
    case Some(vals) => Some(Unpack(BitsOf(vals, 5)))
  }

  lemma Emit(out: string, x: nat, n: nat, bytes: seq<u8>)
    requires n >= 5
    ensures out + Symbols(Encoded(x, n, bytes, 5))
         == (out + [Symbol(Shr(x, n - 5) % 32)]) + Symbols(Encoded(x, n - 5, bytes, 5))
  {
    LowIs(Shr(x, n - 5), 5);
    EncodedGroup(x, n, bytes, 5);
  }

  lemma Finish(out: string, x: nat, n: nat)
    requires n < 5
    ensures out + Symbols(Encoded(x, n, [], 5))
         == out + (if n == 0 then [] else [Symbol(ShiftIn(x, 5 - n, 0, TWO_64) % 32)])
  {
    EncodedEnd(x, n, 5, TWO_64);
    LowIs(ShiftIn(x, 5 - n, 0, TWO_64), 5);
  }

  lemma EncodeIs(bytes: seq<u8>)
    ensures Encode(bytes) == [] + Symbols(Encoded(0, 0, bytes, 5))
  {
    EncodedStart(bytes, 5);
  }

  method EncodeBase32(input: seq<u8>) returns (out: string)
    ensures out == Encode(input)
  {
    hide Encode, Encoded, Symbols, Shr, ShiftIn;
    out := [];
    var bits, nbits, i := 0, 0, 0;
    ghost var rest := input;
    EncodeIs(input);
    while i < |input|
      invariant i <= |input| && nbits < 5 && rest == input[i..]
      invariant Encode(input) == out + Symbols(Encoded(bits, nbits, rest, 5))
    {
      EncodedByte(bits, nbits, rest[0], rest[1..], 5, TWO_64);
      assert rest == [rest[0]] + rest[1..];
      bits := ShiftIn(bits, 8, input[i], TWO_64);
      nbits := nbits + 8;
      i, rest := i + 1, rest[1..];
      while nbits >= 5
        invariant Encode(input) == out + Symbols(Encoded(bits, nbits, rest, 5))
      {
        Emit(out, bits, nbits, rest);
        nbits := nbits - 5;
        out := out + [Symbol(Shr(bits, nbits) % 32)];
      }
    }
    Finish(out, bits, nbits);
    if nbits > 0 {
      out := out + [Symbol(ShiftIn(bits, 5 - nbits, 0, TWO_64) % 32)];
    }
  }

  lemma DecodeIs(s: string)
    ensures Decode(s) == Decoded(0, 0, Values(s), 5)
  {
    DecodedStart(Values(s), 5);
  }

  method DecodeBase32(input: string) returns (r: Option<seq<u8>>)
    ensures r == Decode(input)
  {
    hide Decoded, Prepend, Shr, ShiftIn, Ignored, Value;
    var out: seq<u8> := [];
    var bits, nbits := 0, 0;
    var rest := input;
    DecodedStart(Values(input), 5);
    DecodeIs(input);
    while rest != []
      invariant nbits < 8
      invariant Decode(input) == Prepend(out, Decoded(bits, nbits, Values(rest), 5))
      decreases |rest|
    {
      var skip := Ignored(rest);
      if skip > 0 {
        rest := rest[skip..];
      } else {
        var val := Value(ToUpper(rest[0]));
        if val.None? {
          DecodedBad(out, bits, nbits, 5);
          return None;
        }
        ValueFits(ToUpper(rest[0]));
        rest := rest[1..];
        DecodedSymbol(bits, nbits, val.value, Values(rest), 5, TWO_64);
        bits := ShiftIn(bits, 5, val.value, TWO_64);
        nbits := nbits + 5;
        if nbits >= 8 {
          DecodedByte(out, bits, nbits, Values(rest), 5);
          nbits := nbits - 8;
          out := out + [Shr(bits, nbits) % 256];
        }
      }
    }
    DecodedEnd(out, bits, nbits, 5);
    return Some(out);
  }

  lemma ValueFits(c: char)
    ensures Value(c).Some? ==> Value(c).value < Pow2(5)
  {
  }

  lemma {:induction false} ValuesOfSymbols(vals: seq<nat>)
    requires Below(vals, 32)
    ensures Values(Symbols(vals)) == Some(vals)
  {
    hide Symbol, Value;
    if vals != [] {
      var s := Symbols(vals);
      ValuesOfSymbols(vals[1..]);
      assert s[1..] == Symbols(vals[1..]);
      SymbolValue(vals[0], s);
      assert vals == [vals[0]] + vals[1..];
    }
  }

  lemma SymbolValue(v: nat, s: string)
    requires v < 32 && s != "" && s[0] == Symbol(v)
    ensures Value(ToUpper(s[0])) == Some(v) && Ignored(s) == 0
  {
  }

  /** Every byte string survives, and takes ceil(8n/5) characters. */
  lemma RoundTrip(bytes: seq<u8>)
    ensures Decode(Encode(bytes)) == Some(bytes)
    ensures |Encode(bytes)| == (8 * |bytes| + 4) / 5
  {
    var q := BytesBits(bytes);
    PackBits(q, 5);
    ValuesOfSymbols(Pack(q, 5));
    PackUnpack(bytes, 5);
  }

  /** The characters an encoding can contain. */
  predicate Plain(s: string) {
    forall k :: 0 <= k < |s| ==> 'A' <= s[k] <= 'Z' || '2' <= s[k] <= '7'
  }

  lemma EncodePlain(bytes: seq<u8>)
    ensures Plain(Encode(bytes))
  {
    PackBits(BytesBits(bytes), 5);
  }

  // --- what the decoder takes ----------------------------------------------------

  /** A character has a value exactly when it is in the alphabet, and then its position. */
  lemma ValueTable(c: char, v: nat)
    ensures Value(c) == Some(v) <==> v < 32 && ALPHABET[v] == c
    ensures Value(c).None? ==> c !in ALPHABET
  {
    hide ALPHABET;
    SymbolTable();
    assert forall i :: 0 <= i < 32 ==> (Value(c) == Some(i) <==> Symbol(i) == c);
    assert Value(c).Some? ==> Value(c).value < 32;
    if c in ALPHABET {
      var i :| 0 <= i < 32 && ALPHABET[i] == c;
      assert Symbol(i) == c;
    }
  }

  /** One ASCII character: white space, `-` and `=` are passed over, the alphabet is read in
      either case, and nothing else is accepted. */
  lemma OneCharacter(c: char)
    requires c < 0x80 as char
    ensures Values([c]) ==
      if AsciiSpace(c) || c == '-' || c == '=' then Some([])
      else match Value(ToUpper(c)) case Some(v) => Some([v]) case None => None
  {
    hide Value, Values;
    ValuesStep([c]);
    assert [c][1..] == "";
    NothingFirst(None);
    var v := Value(ToUpper(c));
    if v.Some? {
      assert [v.value] + [] == [v.value];
    }
    assert Ignored([c]) == if AsciiSpace(c) || c == '-' || c == '=' then 1 else 0;
  }

  function Joined(a: Option<seq<nat>>, b: Option<seq<nat>>): Option<seq<nat>> {
    if a.Some? && b.Some? then Some(a.value + b.value) else None
  }

  lemma IgnoredConcat(a: string, b: string)
    requires a != "" && IsUtf8(a)
    ensures Ignored(a + b) == Ignored(a)
    ensures Ignored(a) > 0 ==> CharLen(a) == Ignored(a)
  {
  }

  lemma ValuesStep(s: string)
    requires s != ""
    ensures Values(s) ==
      if Ignored(s) > 0 then Values(s[Ignored(s)..])
      else match Value(ToUpper(s[0])) case None => None case Some(v) => Joined(Some([v]), Values(s[1..]))
  {
    hide Value, Ignored;
  }

  lemma AsciiValue(c: char)
    requires Value(ToUpper(c)).Some?
    ensures c < 0x80 as char
  {
  }

  lemma JoinedAssoc(a: Option<seq<nat>>, b: Option<seq<nat>>, c: Option<seq<nat>>)
    ensures Joined(Joined(a, b), c) == Joined(a, Joined(b, c))
  {
    if a.Some? && b.Some? && c.Some? {
      assert (a.value + b.value) + c.value == a.value + (b.value + c.value);
    }
  }

  /** Text is read piece by piece. */
  lemma {:induction false} ValuesConcat(a: string, b: string)
    requires IsUtf8(a)
    ensures Values(a + b) == Joined(Values(a), Values(b))
    decreases |a|
  {
    hide Value, Values, Ignored, Joined;
    var s := a + b;
    if a == "" {
      assert s == b;
      NothingFirst(Values(b));
    } else {
      IgnoredConcat(a, b);
      ValuesStep(a);
      ValuesStep(s);
      var n := Ignored(a);
      var v := Value(ToUpper(a[0]));
      if n > 0 {
        assert s[n..] == a[n..] + b;
        ValuesConcat(a[n..], b);
      } else if v.Some? {
        AsciiValue(a[0]);
        assert s[1..] == a[1..] + b;
        ValuesConcat(a[1..], b);
        JoinedAssoc(Some([v.value]), Values(a[1..]), Values(b));
      } else {
        NothingJoins(Values(b));
      }
    }
  }

  lemma NothingFirst(b: Option<seq<nat>>)
    ensures Values("") == Some([]) && Joined(Some([]), b) == b
  {
    if b.Some? { assert [] + b.value == b.value; }
  }

  lemma NothingJoins(b: Option<seq<nat>>)
    ensures Joined(None, b) == None
  {
  }
}
