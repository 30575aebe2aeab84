/** One-time codes (totp.rs `hotp`, `code_at`, `seconds_remaining`): the truncation of a MAC
    (section 5.3 of RFC 4226), which is given, and the time window. */
module OtpCode {
  import opened Text
  import opened Bits
  import Decimal
  import opened Otp

  /** The four bytes at the offset the last byte names, big-endian, top bit cleared. */
  function Binary(mac: seq<u8>): nat
    requires |mac| >= 20
  {
    var offset := mac[|mac| - 1] % 16;
    var top: nat, b1: nat, b2: nat, b3: nat := mac[offset] % 128, mac[offset + 1], mac[offset + 2], mac[offset + 3];
    top * 0x100_0000 + b1 * 0x1_0000 + b2 * 0x100 + b3
  }

  /** `b` is the four bytes at the offset the low four bits of the last byte name, the highest
      first and without its top bit. */
  ghost predicate Truncates(mac: seq<u8>, b: nat)
    requires |mac| >= 20
  {
    var offset := mac[|mac| - 1] % 16;
    && b / 0x100_0000 == mac[offset] % 128
    && b / 0x1_0000 % 0x100 == mac[offset + 1]
    && b / 0x100 % 0x100 == mac[offset + 2]
    && b % 0x100 == mac[offset + 3]
  }

  lemma BinaryTruncates(mac: seq<u8>)
    requires |mac| >= 20
    ensures Truncates(mac, Binary(mac)) && Binary(mac) < 0x8000_0000
  {
    var offset := mac[|mac| - 1] % 16;
    var a: nat, b: nat, c: nat, d: nat := mac[offset] % 128, mac[offset + 1], mac[offset + 2], mac[offset + 3];
    assert Binary(mac) == a * 0x100_0000 + b * 0x1_0000 + c * 0x100 + d;
    hide Binary;
    FourBytes(a, b, c, d);
  }

  function Pow10(n: nat): (r: nat)
    ensures r >= 1
  {
    if n == 0 then 1 else 10 * Pow10(n - 1)
  }

  /** `{:0width$}`. */
  function PadLeft(s: string, width: nat): string
    decreases width - |s|
  {
    if |s| >= width then s else PadLeft("0" + s, width)
  }

  /** `10u64.pow(digits)` as a build with overflow checks computes it, panicking (None), and
      as one without them does, wrapping. */
  function Modulus(digits: nat, checked: bool): Option<nat> {
    if !checked then Some(Pow10(digits) % TWO_64)
    else if Pow10(digits) > Decimal.U64_MAX then None
    else Some(Pow10(digits))
  }

  /** None where the computation panics: the power overflows, or the remainder is by zero. */
  function Code(mac: seq<u8>, digits: nat, checked: bool): Option<string>
    requires |mac| >= 20
  {
    var m := Modulus(digits, checked);
    if m.None? || m.value == 0 then None
    else Some(PadLeft(Decimal.Print(Binary(mac) % m.value), digits))
  }

  lemma {:induction false} Pow10Grows(m: nat, n: nat)
    requires m <= n
    ensures Pow10(m) <= Pow10(n)
  {
    if m < n {
      Pow10Grows(m, n - 1);
    }
  }

  lemma Pow10Fits(digits: nat)
    ensures Pow10(digits) <= Decimal.U64_MAX <==> digits <= 19
  {
    Pow10Ten();
    if digits <= 19 {
      Pow10Grows(digits, 19);
    } else {
      Pow10Grows(20, digits);
    }
  }

  lemma Pow10Ten()
    ensures Pow10(19) == 10_000_000_000_000_000_000 && Pow10(20) == 100_000_000_000_000_000_000
  {
    assert Pow10(5) == 100_000;
    assert Pow10(10) == 10_000_000_000;
    assert Pow10(15) == 1_000_000_000_000_000;
  }

  lemma {:induction false} PrintShort(n: nat, width: nat)
    requires width >= 1 && n < Pow10(width)
    ensures |Decimal.Print(n)| <= width
  {
    if n >= 10 {
      PrintShort(n / 10, width - 1);
    }
  }

  lemma {:induction false} PadLeftIs(s: string, width: nat)
    requires Decimal.AllDigits(s)
    ensures var r := PadLeft(s, width);
      && |r| == (if |s| >= width then |s| else width)
      && Decimal.AllDigits(r) && Decimal.Number(r) == Decimal.Number(s)
    decreases width - |s|
  {
    if |s| < width {
      LeadingZero(s);
      PadLeftIs("0" + s, width);
    }
  }

  lemma {:induction false} LeadingZero(s: string)
    requires Decimal.AllDigits(s)
    ensures Decimal.AllDigits("0" + s) && Decimal.Number("0" + s) == Decimal.Number(s)
    decreases |s|
  {
    var z := "0" + s;
    if s == "" {
      assert z[..0] == "";
    } else {
      LeadingZero(s[..|s| - 1]);
      assert z[..|z| - 1] == "0" + s[..|s| - 1];
    }
  }

  // --- the wrapping power ----------------------------------------------------------

  lemma ModProduct(a: nat, b: nat)
    ensures a * (b % TWO_64) % TWO_64 == a * b % TWO_64
  {
    var q := b / TWO_64;
    assert a * b == a * (b % TWO_64) + (a * q) * TWO_64 by { assert b == b % TWO_64 + q * TWO_64; Spread(a, b % TWO_64, q); }
    DropMultiple(a * (b % TWO_64), a * q);
  }

  lemma Spread(a: nat, r: nat, q: nat)
    ensures a * (r + q * TWO_64) == a * r + (a * q) * TWO_64
  {
  }

  lemma DropMultiple(x: nat, k: nat)
    ensures (x + k * TWO_64) % TWO_64 == x % TWO_64
    decreases k
  {
    if k > 0 {
      DropMultiple(x, k - 1);
      assert x + k * TWO_64 == (x + (k - 1) * TWO_64) + TWO_64;
    }
  }

  /** The power is two to the digits times an odd number. */
  function Pow5(n: nat): (r: nat)
    ensures r % 2 == 1
  {
    if n == 0 then 1 else 5 * Pow5(n - 1)
  }

  lemma PowStep(n: nat)
    requires n > 0
    ensures Pow10(n) == 10 * Pow10(n - 1) && Pow2(n) == 2 * Pow2(n - 1) && Pow5(n) == 5 * Pow5(n - 1)
  {
  }

  lemma PowNone()
    ensures Pow10(0) == Pow2(0) == Pow5(0) == 1
  {
  }

  lemma Moved(k: nat, l: nat, a: nat, b: nat)
    ensures (k * a) * (l * b) == (k * l) * (a * b)
  {
    assert (k * a) * (l * b) == k * (a * (l * b)) && a * (l * b) == l * (a * b);
  }

  lemma {:induction false} Pow10Splits(n: nat)
    ensures Pow10(n) == Pow2(n) * Pow5(n)
  {
    hide Pow10, Pow2, Pow5;
    if n == 0 {
      PowNone();
    } else {
      Pow10Splits(n - 1);
      PowStep(n);
      Moved(2, 5, Pow2(n - 1), Pow5(n - 1));
    }
  }

  lemma {:induction false} Pow2Adds(m: nat, n: nat)
    ensures Pow2(m) * Pow2(n) == Pow2(m + n)
  {
    hide Pow2;
    if m == 0 {
      PowNone();
    } else {
      Pow2Adds(m - 1, n);
      PowStep(m);
      PowStep(m + n);
      Moved(2, 1, Pow2(m - 1), Pow2(n));
    }
  }

  lemma Pow2Sizes()
    ensures Pow2(31) == 0x8000_0000 && Pow2(64) == TWO_64
  {
    hide Pow2;
    assert Pow2(1) == 2 && Pow2(4) == 16 by { Pow2Small(); }
    Pow2Adds(1, 31);
    Pow2Adds(4, 4);
    Pow2Adds(8, 8);
    Pow2Adds(16, 16);
    Pow2Adds(32, 32);
  }

  lemma Pow2Small()
    ensures Pow2(1) == 2 && Pow2(4) == 16
  {
  }

  lemma {:induction false} OddRemains(a: nat, n: nat)
    requires a % 2 == 1 && n > 0
    ensures a % Pow2(n) >= 1
  {
    hide Pow2;
    if a % Pow2(n) == 0 {
      PowStep(n);
      Exactly(a, Pow2(n));
      Halved(Pow2(n - 1), a / Pow2(n));
    }
  }

  lemma Exactly(a: nat, m: nat)
    requires m > 0 && a % m == 0
    ensures a == m * (a / m)
  {
  }

  lemma Halved(h: nat, q: nat)
    ensures ((2 * h) * q) % 2 == 0
  {
    Moved(2, 1, h, q);
  }

  lemma ModFactor(a: nat, b: nat, c: nat)
    requires a > 0 && c > 0
    ensures a * c > 0 && (a * b) % (a * c) == a * (b % c)
  {
    var q, r := b / c, b % c;
    assert b == c * q + r;
    Regrouped(a, c, q, r);
    Smaller(a, r, c);
    Remainder(a * b, a * c, q, a * r);
  }

  lemma Smaller(a: nat, r: nat, c: nat)
    requires a > 0 && r < c
    ensures a * r < a * c
  {
  }

  lemma Regrouped(a: nat, c: nat, q: nat, r: nat)
    ensures a * (c * q + r) == (a * c) * q + a * r
  {
  }

  lemma Remainder(x: nat, m: nat, q: nat, r: nat)
    requires r < m && x == m * q + r
    ensures x % m == r
  {
    var d := x / m - q;
    assert m * d == r - x % m;
    assert d >= 1 ==> m * d >= m;
    assert d <= -1 ==> m * d <= 0 - m;
  }

  lemma HighPowers(digits: nat)
    requires 31 <= digits <= 63
    ensures Pow10(digits) % TWO_64 >= 0x8000_0000
  {
    hide Pow2, Pow5, Pow10;
    var a, b, c := Pow2(digits), Pow5(digits), Pow2(64 - digits);
    Pow10Splits(digits);
    Pow2Adds(digits, 64 - digits);
    Pow2Adds(31, digits - 31);
    Pow2Sizes();
    OddRemains(b, 64 - digits);
    ModFactor(a, b, c);
    AtLeast(a, b % c);
    AtLeast(Pow2(31), Pow2(digits - 31));
  }

  lemma AtLeast(a: nat, b: nat)
    requires b >= 1
    ensures a * b >= a
  {
  }

  lemma {:induction false} ZeroPowers(digits: nat)
    requires digits >= 64
    ensures Pow10(digits) % TWO_64 == 0
  {
    if digits == 64 {
      hide Pow2, Pow5, Pow10;
      Pow10Splits(64);
      Pow2Sizes();
      ModFactor(TWO_64, Pow5(64), 1);
      assert TWO_64 * (Pow5(64) % 1) == 0;
    } else {
      ZeroPowers(digits - 1);
      ModProduct(10, Pow10(digits - 1));
    }
  }

  /** The powers for 20 to 30 digits, cut to 64 bits. */
  const LOW: seq<nat> := [
    7_766_279_631_452_241_920, 3_875_820_019_684_212_736, 1_864_712_049_423_024_128,
    200_376_420_520_689_664, 2_003_764_205_206_896_640, 1_590_897_978_359_414_784,
    15_908_979_783_594_147_840, 11_515_845_246_265_065_472, 4_477_988_020_393_345_024,
    7_886_392_056_514_347_008, 5_076_944_270_305_263_616]

  lemma LowTable()
    ensures |LOW| == 11 && forall i :: 0 <= i < 11 ==> LOW[i] >= 0x8000_0000
    ensures forall i :: 0 <= i < 10 ==> 10 * LOW[i] % TWO_64 == LOW[i + 1]
  {
  }

  lemma {:induction false} LowPowers(digits: nat)
    requires 20 <= digits <= 30
    ensures Pow10(digits) % TWO_64 == LOW[digits - 20] >= 0x8000_0000
  {
    hide Pow10, LOW;
    LowTable();
    if digits == 20 {
      Pow10Ten();
      assert LOW[0] == 7_766_279_631_452_241_920 by { FirstLow(); }
    } else {
      LowPowers(digits - 1);
      ModProduct(10, Pow10(digits - 1));
      Pow10Step(digits);
      assert 10 * LOW[digits - 21] % TWO_64 == LOW[digits - 21 + 1];
    }
  }

  lemma FirstLow()
    ensures LOW[0] == 7_766_279_631_452_241_920
  {
  }

  lemma Pow10Step(n: nat)
    requires n > 0
    ensures Pow10(n) == 10 * Pow10(n - 1)
  {
  }

  lemma WrappingModulus(digits: nat)
    ensures digits <= 19 ==> Pow10(digits) % TWO_64 == Pow10(digits)
    ensures 20 <= digits <= 63 ==> Pow10(digits) % TWO_64 >= 0x8000_0000
    ensures digits >= 64 ==> Pow10(digits) % TWO_64 == 0
  {
    hide Pow10;
    Pow10Fits(digits);
    if 20 <= digits <= 30 {
      LowPowers(digits);
    } else if 31 <= digits <= 63 {
      HighPowers(digits);
    } else if digits >= 64 {
      ZeroPowers(digits);
    }
  }

  /** As many digits as asked, but never none, of the truncated MAC. */
  ghost predicate IsCode(code: string, mac: seq<u8>, digits: nat)
    requires |mac| >= 20
  {
    && |code| == (if digits == 0 then 1 else digits)
    && Decimal.AllDigits(code)
    && exists b: nat :: Truncates(mac, b) && Decimal.Number(code) == b % Pow10(digits)
  }

  /** A build with overflow checks gives a code exactly for up to 19 digits, one without them
      exactly for up to 63. In both it is the truncated MAC modulo that power of ten, leading
      zeros kept, though the power itself may have wrapped. */
  lemma CodeIs(mac: seq<u8>, digits: nat, checked: bool)
    requires |mac| >= 20
    ensures Code(mac, digits, checked).Some? <==> digits <= if checked then 19 else 63
    ensures Code(mac, digits, checked).Some? ==> IsCode(Code(mac, digits, checked).value, mac, digits)
  {
    hide Binary, Pow10, Decimal.Print, Decimal.Number, PadLeft, Truncates;
    BinaryTruncates(mac);
    Pow10Fits(digits);
    WrappingModulus(digits);
    if Code(mac, digits, checked).Some? {
      var n := Binary(mac) % Modulus(digits, checked).value;
      assert n == Binary(mac) % Pow10(digits) by { SameRemainder(Binary(mac), digits, checked); }
      Decimal.NumberPrint(n);
      PadLeftIs(Decimal.Print(n), digits);
      if digits == 0 {
        NoDigits(n);
      } else {
        PrintShort(n, digits);
      }
    }
  }

  lemma SameRemainder(b: nat, digits: nat, checked: bool)
    requires b < 0x8000_0000 && Modulus(digits, checked).Some? && Modulus(digits, checked).value > 0
    ensures b % Modulus(digits, checked).value == b % Pow10(digits)
  {
    hide Pow10;
    WrappingModulus(digits);
    Pow10Fits(digits);
    if digits > 19 {
      assert Pow10(digits) > Decimal.U64_MAX;
      BelowModulus(b, Modulus(digits, checked).value);
      BelowModulus(b, Pow10(digits));
    }
  }

  lemma BelowModulus(b: nat, m: nat)
    requires b < m
    ensures b % m == b
  {
  }

  /** Twenty digits tell the builds apart; with 64 both panic. */
  lemma TwentyAndSixtyFour(mac: seq<u8>)
    requires |mac| >= 20
    ensures Code(mac, 20, true).None? && Code(mac, 20, false).Some?
    ensures Code(mac, 64, true).None? && Code(mac, 64, false).None?
  {
    hide Code;
    CodeIs(mac, 20, true);
    CodeIs(mac, 20, false);
    CodeIs(mac, 64, true);
    CodeIs(mac, 64, false);
  }

  lemma NoDigits(n: nat)
    requires n < Pow10(0)
    ensures |Decimal.Print(n)| == 1
  {
  }

  // --- counters --------------------------------------------------------------------

  type MacBytes = s: seq<u8> | |s| >= 20 witness seq(20, _ => 0)

  /** HMAC over the algorithm's hash: key, then message. */
  type Mac = (Algorithm, seq<u8>, seq<u8>) -> MacBytes

  /** totp.rs `hotp`. */
  function CodeAt(mac: Mac, a: Algorithm, secret: seq<u8>, digits: nat, counter: nat, checked: bool): Option<string> {
    Code(mac(a, secret, ToBytes(counter, 8)), digits, checked)
  }

  /** The code for a counter is that of the MAC of its eight bytes. */
  lemma CodeAtIs(mac: Mac, a: Algorithm, secret: seq<u8>, digits: nat, message: seq<u8>, checked: bool)
    requires |message| == 8
    ensures var code := CodeAt(mac, a, secret, digits, BigEndian(message), checked);
      && (code.Some? <==> digits <= if checked then 19 else 63)
      && (code.Some? ==> IsCode(code.value, mac(a, secret, message), digits))
  {
    hide Code, IsCode, ToBytes, BigEndian;
    BytesRead(message);
    CodeIs(mac(a, secret, message), digits, checked);
  }

  /** The example of section 5.4 of RFC 4226. */
  lemma ExampleCode()
    ensures var mac := [
      0x1f, 0x86, 0x98, 0x69, 0x0e, 0x02, 0xca, 0x16, 0x61, 0x85,
      0x50, 0xef, 0x7f, 0x19, 0xda, 0x8e, 0x94, 0x5b, 0x55, 0x5a];
      Code(mac, 6, true) == Some("872921")
  {
    hide Binary, Pow10, Decimal.Print;
    var mac: seq<u8> := [
      0x1f, 0x86, 0x98, 0x69, 0x0e, 0x02, 0xca, 0x16, 0x61, 0x85,
      0x50, 0xef, 0x7f, 0x19, 0xda, 0x8e, 0x94, 0x5b, 0x55, 0x5a];
    assert mac[19] % 16 == 10;
    BinaryTruncates(mac);
    assert Binary(mac) == 0x50ef_7f19;
    assert Pow10(6) == 1_000_000 by { Million(); }
    ExamplePrint();
  }

  lemma Million()
    ensures Pow10(6) == 1_000_000
  {
    assert Pow10(3) == 1_000;
  }

  lemma ExamplePrint()
    ensures Decimal.Print(872_921) == "872921"
  {
    assert Decimal.Print(87) == "87";
    assert Decimal.Print(8_729) == "8729";
  }

  // --- the window ------------------------------------------------------------------

  /** totp.rs `code_at`. */
  function TotpCode(mac: Mac, t: Totp, time: nat, checked: bool): Option<string>
    requires t.period > 0
  {
    CodeAt(mac, t.algorithm, t.secret, t.digits, Window(time, t.period), checked)
  }

  /** The code at a time is that of the MAC of the period it falls in, counted from zero. */
  lemma TotpCodeIs(mac: Mac, t: Totp, time: nat, message: seq<u8>, checked: bool)
    requires t.period > 0 && |message| == 8
    requires BigEndian(message) * t.period <= time < (BigEndian(message) + 1) * t.period
    ensures var code := TotpCode(mac, t, time, checked);
      && (code.Some? <==> t.digits <= if checked then 19 else 63)
      && (code.Some? ==> IsCode(code.value, mac(t.algorithm, t.secret, message), t.digits))
  {
    hide IsCode, CodeAt, BigEndian;
    var c := BigEndian(message);
    assert (c + 1) * t.period == c * t.period + t.period;
    Quotient(time, c, time - c * t.period, t.period);
    CodeAtIs(mac, t.algorithm, t.secret, t.digits, message, checked);
  }

  /** `code_at`'s counter. */
  function Window(time: nat, period: nat): nat
    requires period > 0
  {
    time / period
  }

  function SecondsRemaining(time: nat, period: nat): nat
    requires period > 0
  {
    period - time % period
  }

  lemma Quotient(t: nat, q: nat, r: nat, p: nat)
    requires r < p && t == q * p + r
    ensures t / p == q
  {
    var d := t / p - q;
    assert d * p == r - t % p;
    assert d >= 1 ==> d * p >= p;
    assert d <= -1 ==> d * p <= -1 * p;
  }

  /** The ring is right: the code's window stays for exactly the seconds remaining, then
      the next one begins. */
  lemma WindowHolds(time: nat, period: nat, later: nat)
    requires period > 0
    ensures 1 <= SecondsRemaining(time, period) <= period
    ensures later < SecondsRemaining(time, period) ==> Window(time + later, period) == Window(time, period)
    ensures Window(time + SecondsRemaining(time, period), period) == Window(time, period) + 1
  {
    var q, r := time / period, time % period;
    assert time == q * period + r;
    if later < period - r {
      Quotient(time + later, q, r + later, period);
    }
    assert time + (period - r) == (q + 1) * period + 0;
    Quotient(time + (period - r), q + 1, 0, period);
  }
}
