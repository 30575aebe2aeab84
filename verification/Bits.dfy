/** Bit strings, big-endian: what section 3 and following of RFC 4648 regroup.
    The codecs keep a shift accumulator; the low `n` bits of it are the queue of
    bits not written yet, whatever stale bits lie above them. */
module Bits {
  import opened Text

  type u8 = x: int | 0 <= x < 0x100

  /** Bytes as text, one `char` per byte. */
  function AsText(bytes: seq<u8>): (s: string)
    ensures |s| == |bytes|
  {
    seq(|bytes|, i requires 0 <= i < |bytes| => bytes[i] as char)
  }

  const TWO_32: nat := 0x1_0000_0000
  const TWO_64: nat := 0x1_0000_0000_0000_0000

  function Pow2(n: nat): (r: nat)
    ensures r >= 1
  {
    if n == 0 then 1 else 2 * Pow2(n - 1)
  }

  /** `from_be_bytes`. */
  function BigEndian(bytes: seq<u8>): nat {
    if bytes == [] then 0 else 0x100 * BigEndian(bytes[..|bytes| - 1]) + bytes[|bytes| - 1]
  }

  /** `to_be_bytes` of an `n`-byte number. */
  function ToBytes(x: nat, n: nat): (b: seq<u8>)
    ensures |b| == n
  {
    if n == 0 then [] else ToBytes(x / 0x100, n - 1) + [x % 0x100]
  }

  lemma BigEndianSnoc(bytes: seq<u8>, x: u8)
    ensures BigEndian(bytes + [x]) == 0x100 * BigEndian(bytes) + x && BigEndian([]) == 0
  {
    assert (bytes + [x])[..|bytes|] == bytes;
  }

  lemma {:induction false} BytesRead(bytes: seq<u8>)
    ensures ToBytes(BigEndian(bytes), |bytes|) == bytes
  {
    if bytes != [] {
      BytesRead(bytes[..|bytes| - 1]);
    }
  }

  /** Four bytes of a number, each where its place value says. */
  lemma FourBytes(a: u8, b: u8, c: u8, d: u8)
    ensures var n := a * 0x100_0000 + b * 0x1_0000 + c * 0x100 + d;
      && n / 0x100_0000 == a && n / 0x1_0000 % 0x100 == b && n / 0x100 % 0x100 == c && n % 0x100 == d
      && n / 0x100_0000 % 0x100 == a
  {
    var n := a * 0x100_0000 + b * 0x1_0000 + c * 0x100 + d;
    assert n / 0x100 == a * 0x1_0000 + b * 0x100 + c;
    assert n / 0x1_0000 == a * 0x100 + b;
  }

  predicate Bit(x: nat, j: nat) {
    if j == 0 then x % 2 == 1 else Bit(x / 2, j - 1)
  }

  /** The low `n` bits of `x`, highest first. */
  function ToBits(x: nat, n: nat): (b: seq<bool>)
    ensures |b| == n
  {
    seq(n, i requires 0 <= i < n => Bit(x, n - 1 - i))
  }

  lemma LastBit(x: nat, n: nat)
    requires n > 0
    ensures ToBits(x, n) == ToBits(x / 2, n - 1) + [x % 2 == 1]
  {
    var a, b := ToBits(x, n), ToBits(x / 2, n - 1) + [x % 2 == 1];
    forall i | 0 <= i < n
      ensures a[i] == b[i]
    {
      assert a[i] == Bit(x, n - 1 - i);
    }
  }

  function FromBits(b: seq<bool>): (x: nat)
    ensures x < Pow2(|b|)
  {
    if b == [] then 0 else 2 * FromBits(b[..|b| - 1]) + (if b[|b| - 1] then 1 else 0)
  }

  /** `x & (2^n - 1)`. */
  function Low(x: nat, n: nat): (r: nat)
    ensures r < Pow2(n)
  {
    FromBits(ToBits(x, n))
  }

  /** `x << k` before it is cut to the word. */
  function Shl(x: nat, k: nat): nat {
    if k == 0 then x else 2 * Shl(x, k - 1)
  }

  /** `x >> k`. */
  function Shr(x: nat, k: nat): nat {
    if k == 0 then x else Shr(x / 2, k - 1)
  }

  /** `(x << k) | v` for v < 2^k, in an unsigned word of `modulus` values. */
  function ShiftIn(x: nat, k: nat, v: nat, modulus: nat): nat
    requires modulus > 0
  {
    (Shl(x, k) + v) % modulus
  }

  ghost predicate Fits(n: nat, modulus: nat) {
    (modulus == TWO_32 && n <= 32) || (modulus == TWO_64 && n <= 64)
  }

  lemma {:induction false} ToFrom(b: seq<bool>)
    ensures ToBits(FromBits(b), |b|) == b
  {
    if b != [] {
      var init, last := b[..|b| - 1], b[|b| - 1];
      ToFrom(init);
      assert FromBits(b) / 2 == FromBits(init) && (FromBits(b) % 2 == 1) == last;
      LastBit(FromBits(b), |b|);
      assert b == init + [last];
    }
  }

  lemma {:induction false} FromTo(x: nat, n: nat)
    requires x < Pow2(n)
    ensures Low(x, n) == x
  {
    if n > 0 {
      FromTo(x / 2, n - 1);
      LastBit(x, n);
      assert ToBits(x, n)[..n - 1] == ToBits(x / 2, n - 1);
    }
  }

  /** The bit operations are the arithmetic they stand for. */
  lemma {:induction false} ShlIs(x: nat, k: nat)
    ensures Shl(x, k) == x * Pow2(k)
  {
    if k > 0 {
      ShlIs(x, k - 1);
    }
  }

  lemma {:induction false} ShrIs(x: nat, k: nat)
    ensures Shr(x, k) == x / Pow2(k)
  {
    if k > 0 {
      ShrIs(x / 2, k - 1);
      Halves(x, Pow2(k - 1));
    }
  }

  lemma {:induction false} LowIs(x: nat, n: nat)
    ensures Low(x, n) == x % Pow2(n)
  {
    if n > 0 {
      LowIs(x / 2, n - 1);
      LastBit(x, n);
      assert ToBits(x, n)[..n - 1] == ToBits(x / 2, n - 1);
      Halves(x, Pow2(n - 1));
    }
  }

  lemma Halves(x: nat, p: nat)
    requires p >= 1
    ensures x / (2 * p) == x / 2 / p && x % (2 * p) == 2 * (x / 2 % p) + x % 2
  {
    var h := x / 2;
    var q, r := h / p, h % p;
    assert h == p * q + r;
    assert 2 * h == 2 * (p * q) + 2 * r;
    assert (2 * p) * q == 2 * (p * q);
    DivUnique(x, 2 * p, q, 2 * r + x % 2);
  }

  lemma DivUnique(x: nat, d: nat, q: nat, r: nat)
    requires x == d * q + r && r < d
    ensures x / d == q && x % d == r
  {
    var q', r' := x / d, x % d;
    assert x == d * q' + r';
    MulApart(d, q' - q);
    assert d * (q' - q) == d * q' - d * q;
  }

  lemma MulApart(d: nat, k: int)
    ensures k >= 1 ==> d * k >= d
    ensures k <= -1 ==> d * k + d <= 0
  {
  }

  /** Stale bits above the queue are invisible. */
  lemma {:induction false} Masked(x: nat, n: nat, k: nat)
    requires n <= k
    ensures ToBits(Low(x, k), n) == ToBits(x, n)
  {
    if n > 0 {
      Masked(x / 2, n - 1, k - 1);
      LastBit(x, n);
      LastBit(x, k);
      LastBit(Low(x, k), n);
      assert ToBits(x, k)[..k - 1] == ToBits(x / 2, k - 1);
      assert Low(x, k) == 2 * Low(x / 2, k - 1) + x % 2;
    }
  }

  /** Shifting `v` in below the queue appends its bits. */
  lemma {:induction false} Append(x: nat, n: nat, v: nat, k: nat)
    requires v < Pow2(k)
    ensures ToBits(Shl(x, k) + v, n + k) == ToBits(x, n) + ToBits(v, k)
    decreases k
  {
    if k == 0 {
      assert ToBits(x, n) + [] == ToBits(x, n);
    } else {
      var y := Shl(x, k) + v;
      assert y / 2 == Shl(x, k - 1) + v / 2 && y % 2 == v % 2;
      Append(x, n, v / 2, k - 1);
      LastBit(y, n + k);
      LastBit(v, k);
    }
  }

  /** Shifting right drops the low bits; what is below stays the queue. */
  lemma {:induction false} SplitBits(x: nat, n: nat, j: nat)
    requires j <= n
    ensures ToBits(x, n) == ToBits(Shr(x, j), n - j) + ToBits(x, j)
    decreases j
  {
    if j == 0 {
      assert ToBits(x, n) + [] == ToBits(x, n);
    } else {
      SplitBits(x / 2, n - 1, j - 1);
      LastBit(x, n);
      LastBit(x, j);
    }
  }

  lemma Word(x: nat, n: nat, w: nat)
    requires n <= w
    ensures ToBits(x % Pow2(w), n) == ToBits(x, n)
  {
    LowIs(x, w);
    Masked(x, n, w);
  }

  lemma Pow2Byte(n: nat, p: nat)
    requires Pow2(n) == p
    ensures Pow2(n + 8) == 0x100 * p
  {
    assert Pow2(n + 2) == 4 * p;
    assert Pow2(n + 4) == 16 * p;
    assert Pow2(n + 6) == 64 * p;
  }

  lemma WordSizes()
    ensures Pow2(32) == TWO_32 && Pow2(64) == TWO_64
  {
    Pow2Byte(0, 1);
    Pow2Byte(8, 0x100);
    Pow2Byte(16, 0x1_0000);
    Pow2Byte(24, 0x100_0000);
    Pow2Byte(32, TWO_32);
    Pow2Byte(40, 0x100_0000_0000);
    Pow2Byte(48, 0x1_0000_0000_0000);
    Pow2Byte(56, 0x100_0000_0000_0000);
  }

  lemma ShiftInBits(x: nat, n: nat, k: nat, v: nat, modulus: nat)
    requires v < Pow2(k) && Fits(n + k, modulus)
    ensures ToBits(ShiftIn(x, k, v, modulus), n + k) == ToBits(x, n) + ToBits(v, k)
  {
    Append(x, n, v, k);
    WordSizes();
    Word(Shl(x, k) + v, n + k, if modulus == TWO_32 then 32 else 64);
  }

  // --- regrouping ------------------------------------------------------------

  function Zeros(n: nat): (z: seq<bool>)
    ensures |z| == n
  {
    seq(n, _ => false)
  }

  /** Groups of `k` bits, the last one filled up with zeros. */
  function Pack(q: seq<bool>, k: nat): seq<nat>
    requires k > 0
    decreases |q|
  {
    if q == [] then []
    else if |q| < k then [FromBits(q + Zeros(k - |q|))]
    else [FromBits(q[..k])] + Pack(q[k..], k)
  }

  /** Whole bytes, leftover bits dropped. */
  function Unpack(q: seq<bool>): (bytes: seq<u8>)
    ensures |bytes| == |q| / 8
  {
    if |q| < 8 then [] else [FromBits(q[..8])] + Unpack(q[8..])
  }

  predicate Below(vals: seq<nat>, bound: nat) {
    forall i :: 0 <= i < |vals| ==> vals[i] < bound
  }

  function BitsOf(vals: seq<nat>, k: nat): (b: seq<bool>)
    ensures |b| == k * |vals|
  {
    if vals == [] then [] else ToBits(vals[0], k) + BitsOf(vals[1..], k)
  }

  function BytesBits(bytes: seq<u8>): (b: seq<bool>)
    ensures |b| == 8 * |bytes|
  {
    if bytes == [] then [] else ToBits(bytes[0], 8) + BytesBits(bytes[1..])
  }

  lemma PackStep(g: seq<bool>, rest: seq<bool>, k: nat)
    requires 0 < k == |g|
    ensures Pack(g + rest, k) == [FromBits(g)] + Pack(rest, k)
  {
    var q := g + rest;
    assert q[..k] == g && q[k..] == rest;
  }

  lemma UnpackStep(g: seq<bool>, rest: seq<bool>)
    requires |g| == 8
    ensures Unpack(g + rest) == [FromBits(g)] + Unpack(rest)
  {
    var q := g + rest;
    assert q[..8] == g && q[8..] == rest;
  }

  /** Packing loses no bit: it only adds fewer than `k` zeros at the end. */
  lemma {:induction false} PackBits(q: seq<bool>, k: nat)
    requires k > 0
    ensures q <= BitsOf(Pack(q, k), k)
    ensures k * |Pack(q, k)| < |q| + k
    ensures Below(Pack(q, k), Pow2(k))
    decreases |q|
  {
    hide ToBits, FromBits, BitsOf, Zeros;
    if q == [] {
    } else if |q| < k {
      var g := q + Zeros(k - |q|);
      ToFrom(g);
      BitsOfCons(FromBits(g), [], k);
      OneGroup(g, k);
      assert q <= g;
    } else {
      var a, b := q[..k], q[k..];
      ToFrom(a);
      PackBits(b, k);
      BitsOfCons(FromBits(a), Pack(b, k), k);
      MoreGroups(k, |Pack(b, k)|);
      assert q == a + b;
    }
  }

  lemma BitsOfCons(v: nat, rest: seq<nat>, k: nat)
    ensures BitsOf([v] + rest, k) == ToBits(v, k) + BitsOf(rest, k)
    ensures [v] + [] == [v]
  {
    assert ([v] + rest)[1..] == rest;
  }

  lemma OneGroup(g: seq<bool>, k: nat)
    ensures g + BitsOf([], k) == g && k * 1 == k
  {
  }

  lemma MoreGroups(k: nat, n: nat)
    ensures k * (1 + n) == k + k * n
  {
  }

  /** Zeros that fill whole groups only add groups at the end. */
  lemma {:induction false} PackZeros(q: seq<bool>, z: nat, k: nat)
    requires k > 0 && (|q| < k ==> |q| + z >= k || q == [])
    requires |q| >= k ==> z >= k
    ensures Pack(q, k) <= Pack(q + Zeros(z), k)
    decreases |q|
  {
    var r := q + Zeros(z);
    if q == [] {
    } else if |q| < k {
      assert r[..k] == q + Zeros(k - |q|);
    } else {
      assert r[..k] == q[..k] && r[k..] == q[k..] + Zeros(z);
      PackZeros(q[k..], z, k);
    }
  }

  /** Bytes come back whole from their bits, whatever short tail follows. */
  lemma {:induction false} UnpackBytes(bytes: seq<u8>, tail: seq<bool>)
    requires |tail| < 8
    ensures Unpack(BytesBits(bytes) + tail) == bytes
  {
    if bytes != [] {
      var g, rest := ToBits(bytes[0], 8), BytesBits(bytes[1..]) + tail;
      UnpackStep(g, rest);
      assert g + rest == BytesBits(bytes) + tail;
      FromTo(bytes[0], 8);
      UnpackBytes(bytes[1..], tail);
    }
  }

  /** Regrouping bytes into `k`-bit symbols and back is the identity, and takes
      exactly ceil(8n/k) symbols. */
  lemma PackUnpack(bytes: seq<u8>, k: nat)
    requires 0 < k <= 8
    ensures Unpack(BitsOf(Pack(BytesBits(bytes), k), k)) == bytes
    ensures |Pack(BytesBits(bytes), k)| == (8 * |bytes| + k - 1) / k
  {
    hide Pack, BitsOf, Unpack, BytesBits;
    var q := BytesBits(bytes);
    PackBits(q, k);
    var n := |Pack(q, k)|;
    var b := BitsOf(Pack(q, k), k);
    assert b == q + b[|q|..];
    UnpackBytes(bytes, b[|q|..]);
    var x := 8 * |bytes| + k - 1;
    DivUnique(x, k, n, x - k * n);
  }

  // --- one step of an accumulator loop -----------------------------------------

  /** The symbols an encoder still has to produce: from its queue and the bytes not
      read yet. */
  function Encoded(x: nat, n: nat, bytes: seq<u8>, k: nat): seq<nat>
    requires k > 0
  {
    Pack(ToBits(x, n) + BytesBits(bytes), k)
  }

  lemma EncodedStart(bytes: seq<u8>, k: nat)
    requires k > 0
    ensures Encoded(0, 0, bytes, k) == Pack(BytesBits(bytes), k)
  {
    assert ToBits(0, 0) + BytesBits(bytes) == BytesBits(bytes);
  }

  lemma EncodedByte(x: nat, n: nat, b: u8, bytes: seq<u8>, k: nat, modulus: nat)
    requires k > 0 && Fits(n + 8, modulus)
    ensures Encoded(x, n, [b] + bytes, k) == Encoded(ShiftIn(x, 8, b, modulus), n + 8, bytes, k)
  {
    assert b < Pow2(8);
    ShiftInBits(x, n, 8, b, modulus);
    assert ([b] + bytes)[1..] == bytes;
    assert ToBits(x, n) + BytesBits([b] + bytes) == (ToBits(x, n) + ToBits(b, 8)) + BytesBits(bytes);
  }

  /** An encoder takes the top `k` bits of its queue. */
  lemma EncodedGroup(x: nat, n: nat, bytes: seq<u8>, k: nat)
    requires 0 < k <= n
    ensures Encoded(x, n, bytes, k) == [Low(Shr(x, n - k), k)] + Encoded(x, n - k, bytes, k)
  {
    SplitBits(x, n, n - k);
    var g, t, rest := ToBits(Shr(x, n - k), k), ToBits(x, n - k), BytesBits(bytes);
    PackStep(g, t + rest, k);
    assert g + (t + rest) == ToBits(x, n) + rest;
  }

  /** The leftover bits go out with zeros below them. */
  lemma EncodedEnd(x: nat, n: nat, k: nat, modulus: nat)
    requires n < k && Fits(k, modulus)
    ensures Encoded(x, n, [], k) == if n == 0 then [] else [Low(ShiftIn(x, k - n, 0, modulus), k)]
  {
    assert ToBits(x, n) + BytesBits([]) == ToBits(x, n);
    if n > 0 {
      ShiftInBits(x, n, k - n, 0, modulus);
      ZeroBits(k - n);
    }
  }

  lemma {:induction false} ZeroBits(k: nat)
    ensures ToBits(0, k) == Zeros(k)
  {
    if k > 0 {
      ZeroBits(k - 1);
      LastBit(0, k);
    }
  }

  /** The bytes a decoder still has to produce: from its queue and the symbols not
      read yet (None when one of them is outside the alphabet). */
  function Decoded(x: nat, n: nat, vals: Option<seq<nat>>, k: nat): Option<seq<u8>> {
    if vals.None? then None else Some(Unpack(ToBits(x, n) + BitsOf(vals.value, k)))
  }

  function Cons(v: nat, vals: Option<seq<nat>>): Option<seq<nat>> {
    if vals.None? then None else Some([v] + vals.value)
  }

  function Prepend(out: seq<u8>, r: Option<seq<u8>>): Option<seq<u8>> {
    if r.None? then None else Some(out + r.value)
  }

  lemma DecodedStart(vals: Option<seq<nat>>, k: nat)
    ensures Decoded(0, 0, vals, k) == Prepend([], Decoded(0, 0, vals, k))
    ensures vals.Some? ==> Decoded(0, 0, vals, k) == Some(Unpack(BitsOf(vals.value, k)))
  {
    if vals.Some? {
      assert ToBits(0, 0) + BitsOf(vals.value, k) == BitsOf(vals.value, k);
      var u := Unpack(BitsOf(vals.value, k));
      assert [] + u == u;
    }
  }

  lemma DecodedSymbol(x: nat, n: nat, v: nat, vals: Option<seq<nat>>, k: nat, modulus: nat)
    requires v < Pow2(k) && Fits(n + k, modulus)
    ensures Decoded(x, n, Cons(v, vals), k) == Decoded(ShiftIn(x, k, v, modulus), n + k, vals, k)
  {
    if vals.Some? {
      ShiftInBits(x, n, k, v, modulus);
      var vs := [v] + vals.value;
      assert vs[1..] == vals.value;
      assert ToBits(x, n) + BitsOf(vs, k) == (ToBits(x, n) + ToBits(v, k)) + BitsOf(vals.value, k);
    }
  }

  /** A decoder takes the top byte of its queue. */
  lemma DecodedByte(out: seq<u8>, x: nat, n: nat, vals: Option<seq<nat>>, k: nat)
    requires 8 <= n
    ensures Prepend(out, Decoded(x, n, vals, k))
         == Prepend(out + [Shr(x, n - 8) % 256], Decoded(x, n - 8, vals, k))
  {
    LowIs(Shr(x, n - 8), 8);
    if vals.Some? {
      SplitBits(x, n, n - 8);
      var g, t := ToBits(Shr(x, n - 8), 8), ToBits(x, n - 8);
      var rest := BitsOf(vals.value, k);
      UnpackStep(g, t + rest);
      assert g + (t + rest) == ToBits(x, n) + rest;
      var u := Unpack(t + rest);
      assert out + ([FromBits(g)] + u) == (out + [FromBits(g)]) + u;
    }
  }

  lemma DecodedBad(out: seq<u8>, x: nat, n: nat, k: nat)
    ensures Prepend(out, Decoded(x, n, None, k)) == None
  {
  }

  lemma DecodedEnd(out: seq<u8>, x: nat, n: nat, k: nat)
    requires n < 8
    ensures Prepend(out, Decoded(x, n, Some([]), k)) == Some(out)
  {
    assert Unpack(ToBits(x, n) + BitsOf([], k)) == [];
    assert out + [] == out;
  }
}
