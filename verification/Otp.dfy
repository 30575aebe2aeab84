/** The `otpauth://` lines: reading is tolerant, writing is canonical. totp.rs and
    hotp.rs share every parameter but `period` and `counter`. */
module Otp {
  import opened Text
  import opened Bits
  import Utf8
  import Base32
  import Percent
  import Decimal

  datatype Algorithm = Sha1 | Sha256 | Sha512

  datatype Kind = TotpKind | HotpKind

  datatype OtpError =
    | NotTotpUri
    | NotHotpUri
    | MissingSecret
    | BadSecret
    | BadAlgorithm(text: string)
    | BadNumber(text: string)
    | MissingCounter

  const DEFAULT_DIGITS: nat := 6
  const DEFAULT_PERIOD: nat := 30

  datatype Totp = Totp(
    secret: seq<u8>, algorithm: Algorithm, digits: nat, period: nat, name: string, issuer: Option<string>)

  /** `counter` is the last counter used. */
  datatype Hotp = Hotp(
    secret: seq<u8>, algorithm: Algorithm, digits: nat, counter: nat, name: string, issuer: Option<string>)

  /** What the parameter loop has read so far. */
  datatype Params = Params(
    secret: Option<seq<u8>>, algorithm: Algorithm, digits: nat, period: nat, counter: Option<nat>,
    issuer: Option<string>)

  const NO_PARAMS := Params(None, Sha1, DEFAULT_DIGITS, DEFAULT_PERIOD, None, None)

  // --- reading -----------------------------------------------------------------

  /** A pair without `=` is a key with an empty value. */
  function KeyOf(pair: string): string {
    match SplitOnce(pair, '=') case Some((k, _)) => k case None => pair
  }

  function ValueOf(pair: string): string {
    match SplitOnce(pair, '=') case Some((_, v)) => v case None => ""
  }

  predicate Names(pair: string, key: string) {
    Lower(KeyOf(pair)) == key
  }

  function ReadAlgorithm(v: string): Result<Algorithm, OtpError> {
    var name := Upper(v);
    if name == "SHA1" then Ok(Sha1)
    else if name == "SHA256" then Ok(Sha256)
    else if name == "SHA512" then Ok(Sha512)
    else Err(BadAlgorithm(name))
  }

  /** One parameter; the last one of a name wins, unknown ones are ignored. */
  function Read(kind: Kind, p: Params, pair: string): Result<Params, OtpError> {
    var v := ValueOf(pair);
    if pair == "" then Ok(p)
    else if Names(pair, "secret") then
      match Base32.Decode(v) case Some(s) => Ok(p.(secret := Some(s))) case None => Err(BadSecret)
    else if Names(pair, "algorithm") then
      match ReadAlgorithm(v) case Ok(a) => Ok(p.(algorithm := a)) case Err(e) => Err(e)
    else if Names(pair, "digits") then
      match Decimal.Parse(v, Decimal.U32_MAX)
      case Some(n) => Ok(p.(digits := n))
      case None => Err(BadNumber("digits=" + v))
    else if Names(pair, "period") && kind.TotpKind? then
      match Decimal.Parse(v, Decimal.U64_MAX)
      case Some(n) => Ok(p.(period := n))
      case None => Err(BadNumber("period=" + v))
    else if Names(pair, "counter") && kind.HotpKind? then
      match Decimal.Parse(v, Decimal.U64_MAX)
      case Some(n) => Ok(p.(counter := Some(n)))
      case None => Err(BadNumber("counter=" + v))
    else if Names(pair, "issuer") then Ok(p.(issuer := Some(Percent.Decode(v))))
    else Ok(p)
  }

  function ReadAll(kind: Kind, p: Params, pairs: seq<string>): Result<Params, OtpError>
    decreases |pairs|
  {
    if pairs == [] then Ok(p)
    else match Read(kind, p, pairs[0])
      case Err(e) => Err(e)
      case Ok(q) => ReadAll(kind, q, pairs[1..])
  }

  /** Label text and parameters of what follows the type. */
  function LabelAndPairs(rest: string): (string, seq<string>) {
    match SplitOnce(rest, '?')
    case Some((l, q)) => (l, Split(q, '&'))
    case None => (rest, Split("", '&'))
  }

  const TOTP_PREFIX := "otpauth://totp"
  const HOTP_PREFIX := "otpauth://hotp"

  /** After the type, with or without its slash. */
  function AfterType(uri: string, prefix: string): Option<string> {
    if prefix + "/" <= uri then Some(uri[|prefix| + 1..])
    else StripPrefix(uri, prefix)
  }

  function ParseTotp(uri: string): Result<Totp, OtpError> {
    match AfterType(uri, TOTP_PREFIX)
    case None => Err(NotTotpUri)
    case Some(rest) =>
      var (name, pairs) := LabelAndPairs(rest);
      match ReadAll(TotpKind, NO_PARAMS, pairs)
      case Err(e) => Err(e)
      case Ok(p) => FinishTotp(p, name)
  }

  function FinishTotp(p: Params, name: string): Result<Totp, OtpError> {
    if p.secret.None? || p.secret.value == [] then Err(MissingSecret)
    else Ok(Totp(p.secret.value, p.algorithm, p.digits, if p.period == 0 then 1 else p.period,
                 Percent.Decode(name), p.issuer))
  }

  function ParseHotp(uri: string): Result<Hotp, OtpError> {
    match AfterType(uri, HOTP_PREFIX)
    case None => Err(NotHotpUri)
    case Some(rest) =>
      var (name, pairs) := LabelAndPairs(rest);
      match ReadAll(HotpKind, NO_PARAMS, pairs)
      case Err(e) => Err(e)
      case Ok(p) => FinishHotp(p, name)
  }

  function FinishHotp(p: Params, name: string): Result<Hotp, OtpError> {
    if p.secret.None? || p.secret.value == [] then Err(MissingSecret)
    else if !(1 <= p.digits <= 10) then Err(BadNumber("digits=" + Decimal.Print(p.digits)))
    else if p.counter.None? then Err(MissingCounter)
    else Ok(Hotp(p.secret.value, p.algorithm, p.digits, p.counter.value, Percent.Decode(name), p.issuer))
  }

  /** The loop over the parameters. */
  method ReadPairs(kind: Kind, pairs: seq<string>) returns (r: Result<Params, OtpError>)
    ensures r == ReadAll(kind, NO_PARAMS, pairs)
  {
    hide Read;
    var p, rest := NO_PARAMS, pairs;
    while rest != []
      invariant ReadAll(kind, NO_PARAMS, pairs) == ReadAll(kind, p, rest)
      decreases |rest|
    {
      match Read(kind, p, rest[0])
      case Err(e) => return Err(e);
      case Ok(q) =>
        p := q;
        rest := rest[1..];
    }
    return Ok(p);
  }

  /** `Totp::from_uri`. */
  method TotpFromUri(uri: string) returns (r: Result<Totp, OtpError>)
    ensures r == ParseTotp(uri)
  {
    hide Read, ReadAll, LabelAndPairs, FinishTotp;
    var rest := AfterType(uri, TOTP_PREFIX);
    if rest.None? {
      return Err(NotTotpUri);
    }
    var (name, pairs) := LabelAndPairs(rest.value);
    var p := ReadPairs(TotpKind, pairs);
    match p
    case Err(e) => return Err(e);
    case Ok(q) => return FinishTotp(q, name);
  }

  /** `Hotp::from_uri`. */
  method HotpFromUri(uri: string) returns (r: Result<Hotp, OtpError>)
    ensures r == ParseHotp(uri)
  {
    hide Read, ReadAll, LabelAndPairs, FinishHotp;
    var rest := AfterType(uri, HOTP_PREFIX);
    if rest.None? {
      return Err(NotHotpUri);
    }
    var (name, pairs) := LabelAndPairs(rest.value);
    var p := ReadPairs(HotpKind, pairs);
    match p
    case Err(e) => return Err(e);
    case Ok(q) => return FinishHotp(q, name);
  }

  // --- writing -----------------------------------------------------------------

  function AlgorithmName(a: Algorithm): string {
    match a case Sha1 => "SHA1" case Sha256 => "SHA256" case Sha512 => "SHA512"
  }

  function SecretPair(secret: seq<u8>): string {
    "secret=" + Base32.Encode(secret)
  }

  /** Parameters at their defaults are left out. */
  function IssuerPairs(issuer: Option<string>): seq<string> {
    if issuer.None? then [] else ["issuer=" + Percent.Encode(issuer.value)]
  }

  function AlgorithmPairs(a: Algorithm): seq<string> {
    if a == Sha1 then [] else ["algorithm=" + AlgorithmName(a)]
  }

  function DigitsPairs(digits: nat): seq<string> {
    if digits == DEFAULT_DIGITS then [] else ["digits=" + Decimal.Print(digits)]
  }

  function PeriodPairs(period: nat): seq<string> {
    if period == DEFAULT_PERIOD then [] else ["period=" + Decimal.Print(period)]
  }

  /** Each pair pushed after an `&`. */
  function Push(pairs: seq<string>): string {
    if pairs == [] then "" else "&" + pairs[0] + Push(pairs[1..])
  }

  function TotpUri(t: Totp): string {
    TOTP_PREFIX + "/" + Percent.Encode(t.name) + "?" + SecretPair(t.secret) +
    Push(IssuerPairs(t.issuer)) + Push(AlgorithmPairs(t.algorithm)) +
    Push(DigitsPairs(t.digits)) + Push(PeriodPairs(t.period))
  }

  /** The counter right after the secret, where pass-otp's rewrite finds it. */
  function HotpUri(h: Hotp): string {
    HOTP_PREFIX + "/" + Percent.Encode(h.name) + "?" + SecretPair(h.secret) +
    Push(["counter=" + Decimal.Print(h.counter)]) +
    Push(IssuerPairs(h.issuer)) + Push(AlgorithmPairs(h.algorithm)) + Push(DigitsPairs(h.digits))
  }

  // --- round trip --------------------------------------------------------------

  lemma {:induction false} PushConcat(a: seq<string>, b: seq<string>)
    ensures Push(a + b) == Push(a) + Push(b)
  {
    if a == [] {
      assert a + b == b;
    } else {
      PushConcat(a[1..], b);
      assert (a + b)[1..] == a[1..] + b;
    }
  }

  lemma {:induction false} PushIsJoin(first: string, pairs: seq<string>)
    ensures first + Push(pairs) == Join([first] + pairs, '&')
    decreases |pairs|
  {
    if pairs != [] {
      PushIsJoin(pairs[0], pairs[1..]);
      JoinCons(first, pairs, '&');
      assert pairs == [pairs[0]] + pairs[1..];
    }
  }

  /** Reading a run of pairs, then the rest, is reading them all. */
  lemma {:induction false} ReadConcat(kind: Kind, p: Params, a: seq<string>, b: seq<string>)
    ensures ReadAll(kind, p, a + b) ==
            match ReadAll(kind, p, a) case Err(e) => Err(e) case Ok(q) => ReadAll(kind, q, b)
    decreases |a|
  {
    hide Read;
    if a == [] {
      assert a + b == b;
    } else {
      assert (a + b)[1..] == a[1..] + b;
      match Read(kind, p, a[0])
      case Err(_) =>
      case Ok(q) => ReadConcat(kind, q, a[1..], b);
    }
  }

  lemma ReadOne(kind: Kind, p: Params, pair: string)
    ensures ReadAll(kind, p, [pair]) == Read(kind, p, pair)
    ensures ReadAll(kind, p, []) == Ok(p)
  {
    hide Read;
    match Read(kind, p, pair)
    case Err(_) =>
    case Ok(q) => assert ReadAll(kind, q, [pair][1..]) == Ok(q);
  }

  lemma KeyValue(key: string, v: string)
    requires '=' !in key
    ensures KeyOf(key + "=" + v) == key && ValueOf(key + "=" + v) == v && key + "=" + v != ""
    ensures forall k :: Names(key + "=" + v, k) <==> Lower(key) == k
  {
    hide Lower;
    SplitOnceAt(key, '=', v);
  }

  lemma Keys()
    ensures Lower("secret") == "secret" && Lower("algorithm") == "algorithm" && Lower("digits") == "digits"
    ensures Lower("period") == "period" && Lower("counter") == "counter" && Lower("issuer") == "issuer"
  {
  }

  lemma ReadSecret(kind: Kind, p: Params, secret: seq<u8>)
    ensures Read(kind, p, "secret=" + Base32.Encode(secret)) == Ok(p.(secret := Some(secret)))
  {
    hide Names, KeyOf, ValueOf, Lower, Decimal.Print, Decimal.Parse, Percent.Encode, Percent.Decode, Base32.Encode, Base32.Decode, ReadAll, ReadAlgorithm;
    Keys();
    KeyValue("secret", Base32.Encode(secret));
    Base32.RoundTrip(secret);
    assert "secret" + "=" + Base32.Encode(secret) == "secret=" + Base32.Encode(secret);
  }

  lemma ReadIssuer(kind: Kind, p: Params, issuer: Option<string>)
    requires p.issuer.None? && (issuer.Some? ==> Utf8.IsUtf8(issuer.value))
    ensures ReadAll(kind, p, IssuerPairs(issuer)) == Ok(p.(issuer := issuer))
  {
    hide Names, KeyOf, ValueOf, Lower, Decimal.Print, Decimal.Parse, Percent.Encode, Percent.Decode, Base32.Encode, Base32.Decode, ReadAll, ReadAlgorithm;
    ReadOne(kind, p, "");
    if issuer.Some? {
      var v := Percent.Encode(issuer.value);
      Keys();
      KeyValue("issuer", v);
      assert "issuer" + "=" + v == "issuer=" + v;
      Percent.RoundTrip(issuer.value);
      ReadOne(kind, p, "issuer=" + v);
    }
  }

  lemma ReadAlgorithmName(a: Algorithm)
    ensures ReadAlgorithm(AlgorithmName(a)) == Ok(a)
  {
    assert Upper("SHA1") == "SHA1" && Upper("SHA256") == "SHA256" && Upper("SHA512") == "SHA512";
  }

  lemma ReadAlgorithmPairs(kind: Kind, p: Params, a: Algorithm)
    requires p.algorithm == Sha1
    ensures ReadAll(kind, p, AlgorithmPairs(a)) == Ok(p.(algorithm := a))
  {
    hide Names, KeyOf, ValueOf, Lower, Decimal.Print, Decimal.Parse, Percent.Encode, Percent.Decode, Base32.Encode, Base32.Decode, ReadAll, ReadAlgorithm;
    ReadOne(kind, p, "");
    if a != Sha1 {
      var v := AlgorithmName(a);
      Keys();
      KeyValue("algorithm", v);
      assert "algorithm" + "=" + v == "algorithm=" + v;
      ReadAlgorithmName(a);
      ReadOne(kind, p, "algorithm=" + v);
    }
  }

  lemma ReadDigits(kind: Kind, p: Params, digits: nat)
    requires p.digits == DEFAULT_DIGITS && digits <= Decimal.U32_MAX
    ensures ReadAll(kind, p, DigitsPairs(digits)) == Ok(p.(digits := digits))
  {
    hide Names, KeyOf, ValueOf, Lower, Decimal.Print, Decimal.Parse, Percent.Encode, Percent.Decode, Base32.Encode, Base32.Decode, ReadAll, ReadAlgorithm;
    ReadOne(kind, p, "");
    if digits != DEFAULT_DIGITS {
      var v := Decimal.Print(digits);
      Keys();
      KeyValue("digits", v);
      assert "digits" + "=" + v == "digits=" + v;
      Decimal.ParsePrint(digits, Decimal.U32_MAX);
      ReadOne(kind, p, "digits=" + v);
    }
  }

  lemma ReadPeriod(p: Params, period: nat)
    requires p.period == DEFAULT_PERIOD && period <= Decimal.U64_MAX
    ensures ReadAll(TotpKind, p, PeriodPairs(period)) == Ok(p.(period := period))
  {
    hide Names, KeyOf, ValueOf, Lower, Decimal.Print, Decimal.Parse, Percent.Encode, Percent.Decode, Base32.Encode, Base32.Decode, ReadAll, ReadAlgorithm;
    ReadOne(TotpKind, p, "");
    if period != DEFAULT_PERIOD {
      var v := Decimal.Print(period);
      Keys();
      KeyValue("period", v);
      assert "period" + "=" + v == "period=" + v;
      Decimal.ParsePrint(period, Decimal.U64_MAX);
      ReadOne(TotpKind, p, "period=" + v);
    }
  }

  lemma ReadCounter(p: Params, counter: nat)
    requires counter <= Decimal.U64_MAX
    ensures ReadAll(HotpKind, p, ["counter=" + Decimal.Print(counter)]) == Ok(p.(counter := Some(counter)))
  {
    hide Names, KeyOf, ValueOf, Lower, Decimal.Print, Decimal.Parse, Percent.Encode, Percent.Decode, Base32.Encode, Base32.Decode, ReadAll, ReadAlgorithm;
    var v := Decimal.Print(counter);
    Keys();
    KeyValue("counter", v);
    assert "counter" + "=" + v == "counter=" + v;
    Decimal.ParsePrint(counter, Decimal.U64_MAX);
    ReadOne(HotpKind, p, "counter=" + v);
  }

  function TotpExtras(t: Totp): seq<string> {
    IssuerPairs(t.issuer) + AlgorithmPairs(t.algorithm) + DigitsPairs(t.digits) + PeriodPairs(t.period)
  }

  function HotpExtras(h: Hotp): seq<string> {
    ["counter=" + Decimal.Print(h.counter)] +
    IssuerPairs(h.issuer) + AlgorithmPairs(h.algorithm) + DigitsPairs(h.digits)
  }

  lemma LacksConcat(a: seq<string>, b: seq<string>, c: char)
    requires Lacks(a, c) && Lacks(b, c)
    ensures Lacks(a + b, c)
  {
  }

  /** No printed pair contains the separator. */
  lemma PairsLack(issuer: Option<string>, a: Algorithm, digits: nat, period: nat, secret: seq<u8>)
    ensures Lacks(IssuerPairs(issuer), '&') && Lacks(AlgorithmPairs(a), '&')
    ensures Lacks(DigitsPairs(digits), '&') && Lacks(PeriodPairs(period), '&')
    ensures '&' !in SecretPair(secret)
  {
    hide Percent.Encode, Decimal.Print, Base32.Encode, Base32.Plain;
    if issuer.Some? {
      Percent.EncodeLacks(issuer.value, '&');
    }
    Decimal.PrintLacks(digits, '&');
    Decimal.PrintLacks(period, '&');
    Base32Lacks(secret);
  }

  lemma Base32Lacks(secret: seq<u8>)
    ensures '&' !in Base32.Encode(secret)
  {
    hide Base32.Encode;
    Base32.EncodePlain(secret);
  }

  /** A printed line reads back as its name and its pairs. */
  lemma ReadLine(name: string, pairs: seq<string>)
    requires |pairs| >= 1 && Lacks(pairs, '&')
    ensures LabelAndPairs(Percent.Encode(name) + "?" + Join(pairs, '&')) == (Percent.Encode(name), pairs)
  {
    Percent.EncodeLacks(name, '?');
    SplitOnceAt(Percent.Encode(name), '?', Join(pairs, '&'));
    SplitJoin(pairs, '&');
  }

  /** Pushing the pairs one group at a time writes them all, joined. */
  lemma PushGroups(first: string, a: seq<string>, b: seq<string>, c: seq<string>, d: seq<string>)
    ensures first + Push(a) + Push(b) + Push(c) + Push(d) == Join([first] + (a + b + c + d), '&')
  {
    PushConcat(a, b);
    PushConcat(a + b, c);
    PushConcat(a + b + c, d);
    PushIsJoin(first, a + b + c + d);
    Assoc(first, Push(a), Push(b), Push(c), Push(d));
  }

  lemma Assoc(e: string, a: string, b: string, c: string, d: string)
    ensures e + a + b + c + d == e + (a + b + c + d)
  {
  }

  lemma UriIs(prefix: string, name: string, e: string, a: string, b: string, c: string, d: string)
    ensures AfterType(prefix + "/" + name + "?" + e + a + b + c + d, prefix)
         == Some(name + "?" + (e + a + b + c + d))
  {
    var rest := name + "?" + (e + a + b + c + d);
    assert prefix + "/" + name + "?" + e + a + b + c + d == prefix + "/" + rest;
    AfterSlash(prefix, prefix + "/" + rest, rest);
  }

  lemma TotpUriIs(t: Totp)
    ensures AfterType(TotpUri(t), TOTP_PREFIX)
         == Some(Percent.Encode(t.name) + "?" + Join([SecretPair(t.secret)] + TotpExtras(t), '&'))
  {
    hide AfterType, Push, SecretPair;
    var a, b, c, d := IssuerPairs(t.issuer), AlgorithmPairs(t.algorithm), DigitsPairs(t.digits), PeriodPairs(t.period);
    PushGroups(SecretPair(t.secret), a, b, c, d);
    UriIs(TOTP_PREFIX, Percent.Encode(t.name), SecretPair(t.secret), Push(a), Push(b), Push(c), Push(d));
  }

  lemma HotpUriIs(h: Hotp)
    ensures AfterType(HotpUri(h), HOTP_PREFIX)
         == Some(Percent.Encode(h.name) + "?" + Join([SecretPair(h.secret)] + HotpExtras(h), '&'))
  {
    hide AfterType, Push, SecretPair;
    var a, b, c, d := ["counter=" + Decimal.Print(h.counter)], IssuerPairs(h.issuer), AlgorithmPairs(h.algorithm), DigitsPairs(h.digits);
    PushGroups(SecretPair(h.secret), a, b, c, d);
    UriIs(HOTP_PREFIX, Percent.Encode(h.name), SecretPair(h.secret), Push(a), Push(b), Push(c), Push(d));
  }

  lemma AfterSlash(prefix: string, uri: string, rest: string)
    requires uri == prefix + "/" + rest
    ensures AfterType(uri, prefix) == Some(rest)
  {
  }

  lemma ReadTotpPairs(t: Totp)
    requires t.issuer.Some? ==> Utf8.IsUtf8(t.issuer.value)
    requires t.digits <= Decimal.U32_MAX && t.period <= Decimal.U64_MAX
    ensures ReadAll(TotpKind, NO_PARAMS, [SecretPair(t.secret)] + TotpExtras(t))
         == Ok(Params(Some(t.secret), t.algorithm, t.digits, t.period, None, t.issuer))
  {
    hide Read;
    var a, b, c, d := IssuerPairs(t.issuer), AlgorithmPairs(t.algorithm), DigitsPairs(t.digits), PeriodPairs(t.period);
    var p := NO_PARAMS.(secret := Some(t.secret));
    ReadSecret(TotpKind, NO_PARAMS, t.secret);
    assert ([SecretPair(t.secret)] + TotpExtras(t))[1..] == a + b + c + d;
    ReadIssuer(TotpKind, p, t.issuer);
    ReadConcat(TotpKind, p, a, b);
    ReadAlgorithmPairs(TotpKind, p.(issuer := t.issuer), t.algorithm);
    ReadConcat(TotpKind, p, a + b, c);
    ReadDigits(TotpKind, p.(issuer := t.issuer, algorithm := t.algorithm), t.digits);
    ReadConcat(TotpKind, p, a + b + c, d);
    ReadPeriod(p.(issuer := t.issuer, algorithm := t.algorithm, digits := t.digits), t.period);
  }

  lemma ReadHotpPairs(h: Hotp)
    requires h.issuer.Some? ==> Utf8.IsUtf8(h.issuer.value)
    requires h.digits <= Decimal.U32_MAX && h.counter <= Decimal.U64_MAX
    ensures ReadAll(HotpKind, NO_PARAMS, [SecretPair(h.secret)] + HotpExtras(h))
         == Ok(Params(Some(h.secret), h.algorithm, h.digits, DEFAULT_PERIOD, Some(h.counter), h.issuer))
  {
    hide Read;
    var a, b, c, d := ["counter=" + Decimal.Print(h.counter)], IssuerPairs(h.issuer), AlgorithmPairs(h.algorithm), DigitsPairs(h.digits);
    var p := NO_PARAMS.(secret := Some(h.secret));
    ReadSecret(HotpKind, NO_PARAMS, h.secret);
    assert ([SecretPair(h.secret)] + HotpExtras(h))[1..] == a + b + c + d;
    ReadCounter(p, h.counter);
    var q := p.(counter := Some(h.counter));
    ReadConcat(HotpKind, p, a, b);
    ReadIssuer(HotpKind, q, h.issuer);
    ReadConcat(HotpKind, p, a + b, c);
    ReadAlgorithmPairs(HotpKind, q.(issuer := h.issuer), h.algorithm);
    ReadConcat(HotpKind, p, a + b + c, d);
    ReadDigits(HotpKind, q.(issuer := h.issuer, algorithm := h.algorithm), h.digits);
  }

  /** What Rust's `String` and integer types already promise. */
  ghost predicate Typed(name: string, issuer: Option<string>, digits: nat, number: nat) {
    && Utf8.IsUtf8(name) && (issuer.Some? ==> Utf8.IsUtf8(issuer.value))
    && digits <= Decimal.U32_MAX && number <= Decimal.U64_MAX
  }

  /** A configuration reads back from its own line exactly when it has a key and a
      nonzero period. */
  lemma TotpRoundTrip(t: Totp)
    requires Typed(t.name, t.issuer, t.digits, t.period)
    ensures ParseTotp(TotpUri(t)) == Ok(t) <==> t.secret != [] && t.period >= 1
  {
    hide TotpUri, LabelAndPairs, AfterType, SecretPair, TotpExtras, ReadAll;
    var pairs := [SecretPair(t.secret)] + TotpExtras(t);
    TotpUriIs(t);
    TotpPairsLack(t);
    ReadLine(t.name, pairs);
    ReadTotpPairs(t);
    Percent.RoundTrip(t.name);
  }

  lemma TotpPairsLack(t: Totp)
    ensures Lacks([SecretPair(t.secret)] + TotpExtras(t), '&')
  {
    PairsLack(t.issuer, t.algorithm, t.digits, t.period, t.secret);
    var a, b := IssuerPairs(t.issuer), AlgorithmPairs(t.algorithm);
    LacksConcat(a, b, '&');
    LacksConcat(a + b, DigitsPairs(t.digits), '&');
    LacksConcat(a + b + DigitsPairs(t.digits), PeriodPairs(t.period), '&');
  }

  lemma HotpPairsLack(h: Hotp)
    ensures Lacks([SecretPair(h.secret)] + HotpExtras(h), '&')
  {
    PairsLack(h.issuer, h.algorithm, h.digits, 0, h.secret);
    var c := ["counter=" + Decimal.Print(h.counter)];
    Decimal.PrintLacks(h.counter, '&');
    var a, b := IssuerPairs(h.issuer), AlgorithmPairs(h.algorithm);
    LacksConcat(c, a, '&');
    LacksConcat(c + a, b, '&');
    LacksConcat(c + a + b, DigitsPairs(h.digits), '&');
  }

  /** Likewise, for a key and a digit count the reader accepts. */
  lemma HotpRoundTrip(h: Hotp)
    requires Typed(h.name, h.issuer, h.digits, h.counter)
    ensures ParseHotp(HotpUri(h)) == Ok(h) <==> h.secret != [] && 1 <= h.digits <= 10
  {
    hide HotpUri, LabelAndPairs, AfterType, SecretPair, HotpExtras, ReadAll;
    var pairs := [SecretPair(h.secret)] + HotpExtras(h);
    HotpUriIs(h);
    HotpPairsLack(h);
    ReadLine(h.name, pairs);
    ReadHotpPairs(h);
    Percent.RoundTrip(h.name);
  }

  // --- what is refused -------------------------------------------------------------

  /** A parameter that does not parse is named, with its text; the first one stops the reader. */
  lemma ReadErrors(kind: Kind, p: Params, key: string, v: string)
    requires '=' !in key
    ensures var r := Read(kind, p, key + "=" + v);
      && (Lower(key) == "secret" && Base32.Decode(v).None? ==> r == Err(BadSecret))
      && (Lower(key) == "algorithm" && Upper(v) !in {"SHA1", "SHA256", "SHA512"} ==> r == Err(BadAlgorithm(Upper(v))))
      && (Lower(key) == "digits" && Decimal.Parse(v, Decimal.U32_MAX).None? ==> r == Err(BadNumber("digits=" + v)))
      && (Lower(key) == "period" && kind.TotpKind? && Decimal.Parse(v, Decimal.U64_MAX).None? ==>
            r == Err(BadNumber("period=" + v)))
      && (Lower(key) == "counter" && kind.HotpKind? && Decimal.Parse(v, Decimal.U64_MAX).None? ==>
            r == Err(BadNumber("counter=" + v)))
  {
    hide Lower, Upper, KeyOf, ValueOf, Base32.Decode, Decimal.Parse, Percent.Decode;
    KeyValue(key, v);
  }

  /** Parameters of other names are passed over, a period on an HOTP line and a counter on a
      TOTP line too. */
  lemma ReadOthers(kind: Kind, p: Params, pair: string)
    requires var key := Lower(KeyOf(pair));
      && key !in {"secret", "algorithm", "digits", "issuer"}
      && (kind.TotpKind? ==> key != "period") && (kind.HotpKind? ==> key != "counter")
    ensures Read(kind, p, pair) == Ok(p)
  {
    hide Lower, KeyOf, ValueOf;
  }

  /** What a TOTP line needs besides parameters that parse: a key. A zero period counts as 1. */
  lemma TotpFinishes(uri: string, rest: string)
    requires AfterType(uri, "otpauth://totp") == Some(rest)
    ensures var (name, pairs) := LabelAndPairs(rest);
      match ReadAll(TotpKind, NO_PARAMS, pairs)
      case Err(e) => ParseTotp(uri) == Err(e)
      case Ok(p) =>
        if p.secret == None || p.secret == Some([]) then ParseTotp(uri) == Err(MissingSecret)
        else ParseTotp(uri).Ok? && ParseTotp(uri).value.period == (if p.period == 0 then 1 else p.period)
  {
    hide ReadAll, LabelAndPairs, AfterType;
  }

  /** An HOTP line needs a key, 1 to 10 digits and a counter, and misses them in that order. */
  lemma HotpFinishes(uri: string, rest: string)
    requires AfterType(uri, "otpauth://hotp") == Some(rest)
    ensures var (name, pairs) := LabelAndPairs(rest);
      match ReadAll(HotpKind, NO_PARAMS, pairs)
      case Err(e) => ParseHotp(uri) == Err(e)
      case Ok(p) =>
        if p.secret == None || p.secret == Some([]) then ParseHotp(uri) == Err(MissingSecret)
        else if p.digits < 1 || p.digits > 10 then ParseHotp(uri) == Err(BadNumber("digits=" + Decimal.Print(p.digits)))
        else if p.counter == None then ParseHotp(uri) == Err(MissingCounter)
        else ParseHotp(uri).Ok?
  {
    hide ReadAll, LabelAndPairs, AfterType;
  }

  lemma OtherTypes(uri: string)
    ensures !("otpauth://totp" <= uri) ==> ParseTotp(uri) == Err(NotTotpUri)
    ensures !("otpauth://hotp" <= uri) ==> ParseHotp(uri) == Err(NotHotpUri)
  {
  }

  // --- the lines written -------------------------------------------------------------

  /** The type, with a slash after it or without. */
  lemma TypeIs(rest: string)
    ensures AfterType("otpauth://totp/" + rest, "otpauth://totp") == Some(rest)
    ensures AfterType("otpauth://hotp/" + rest, "otpauth://hotp") == Some(rest)
    ensures rest == "" || rest[0] != '/' ==> AfterType("otpauth://totp" + rest, "otpauth://totp") == Some(rest)
    ensures rest == "" || rest[0] != '/' ==> AfterType("otpauth://hotp" + rest, "otpauth://hotp") == Some(rest)
  {
    PlainType("otpauth://totp", rest);
    PlainType("otpauth://hotp", rest);
    assert "otpauth://totp" + "/" + rest == "otpauth://totp/" + rest && "otpauth://hotp" + "/" + rest == "otpauth://hotp/" + rest;
  }

  lemma PlainType(prefix: string, rest: string)
    ensures AfterType(prefix + "/" + rest, prefix) == Some(rest)
    ensures rest == "" || rest[0] != '/' ==> AfterType(prefix + rest, prefix) == Some(rest)
  {
    AfterSlash(prefix, prefix + "/" + rest, rest);
    var uri := prefix + rest;
    if prefix + "/" <= uri { assert uri[|prefix|] == '/'; }
    assert uri[|prefix|..] == rest;
  }

  /** With defaults, a line is its name and its key; other parameters follow in a fixed order. */
  lemma TotpText(secret: seq<u8>, name: string, digits: nat, period: nat, issuer: string)
    requires digits != 6 && period != 30
    ensures TotpUri(Totp(secret, Sha1, 6, 30, name, None)) ==
      "otpauth://totp/" + Percent.Encode(name) + "?" + ("secret=" + Base32.Encode(secret))
    ensures TotpUri(Totp(secret, Sha256, digits, period, name, Some(issuer))) ==
      "otpauth://totp/" + Percent.Encode(name) + "?" + ("secret=" + Base32.Encode(secret))
      + ("&" + ("issuer=" + Percent.Encode(issuer))) + ("&" + "algorithm=SHA256")
      + ("&" + ("digits=" + Decimal.Print(digits))) + ("&" + ("period=" + Decimal.Print(period)))
  {
    hide Percent.Encode, Base32.Encode, Decimal.Print, Push;
    PushOne("issuer=" + Percent.Encode(issuer));
    PushOne("algorithm=" + AlgorithmName(Sha256));
    assert "algorithm=" + AlgorithmName(Sha256) == "algorithm=SHA256";
    PushOne("digits=" + Decimal.Print(digits));
    PushOne("period=" + Decimal.Print(period));
  }

  /** An HOTP line has its counter right after the key. */
  lemma HotpText(secret: seq<u8>, name: string, counter: nat)
    ensures HotpUri(Hotp(secret, Sha1, 6, counter, name, None)) ==
      "otpauth://hotp/" + Percent.Encode(name) + "?" + ("secret=" + Base32.Encode(secret))
      + ("&" + ("counter=" + Decimal.Print(counter)))
  {
    hide Percent.Encode, Base32.Encode, Decimal.Print, Push;
    PushOne("counter=" + Decimal.Print(counter));
  }

  lemma HotpFullText(secret: seq<u8>, name: string, counter: nat, digits: nat, issuer: string)
    requires digits != 6
    ensures HotpUri(Hotp(secret, Sha512, digits, counter, name, Some(issuer))) ==
      "otpauth://hotp/" + Percent.Encode(name) + "?" + ("secret=" + Base32.Encode(secret))
      + ("&" + ("counter=" + Decimal.Print(counter))) + ("&" + ("issuer=" + Percent.Encode(issuer)))
      + ("&" + "algorithm=SHA512") + ("&" + ("digits=" + Decimal.Print(digits)))
  {
    hide Percent.Encode, Base32.Encode, Decimal.Print, Push;
    PushOne("counter=" + Decimal.Print(counter));
    PushOne("issuer=" + Percent.Encode(issuer));
    PushOne("algorithm=" + AlgorithmName(Sha512));
    assert "algorithm=" + AlgorithmName(Sha512) == "algorithm=SHA512";
    PushOne("digits=" + Decimal.Print(digits));
    assert HOTP_PREFIX + "/" == "otpauth://hotp/";
  }

  lemma PushOne(pair: string)
    ensures Push([pair]) == "&" + pair && Push([]) == ""
  {
    assert [pair][1..] == [];
  }
}
