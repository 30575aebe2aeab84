/** Authenticator export payloads (migration.rs): every OtpParameters record becomes one
    account or one skip notice. Suggested names are not part of this model. */
module Migration {
  import opened Text
  import opened Utf8
  import opened Bits
  import opened Protobuf
  import Base64
  import Percent
  import Otp

  datatype SkipReason = Md5 | EmptySecret | UnknownAlgorithm | UnknownDigits | UnknownType

  datatype Account = Account(account: string, issuer: Option<string>, kind: Otp.Kind, uri: string)

  datatype Skipped = Skipped(name: string, reason: SkipReason)

  type Outcome = Result<Account, Skipped>

  datatype Batch = Batch(
    accounts: seq<Account>, skipped: seq<Skipped>,
    version: nat, batchSize: nat, batchIndex: nat, batchId: int)

  datatype MigrationError = NotMigrationUri | MissingData | BadBase64 | BadPayload

  // --- one account -------------------------------------------------------------

  datatype Params = Params(
    secret: Bytes, name: string, issuer: string,
    algorithm: nat, digits: nat, otpType: nat, counter: nat)

  const NO_PARAMS := Params([], "", "", 0, 0, 0, 0)

  function LossyText(b: Bytes): string {
    Lossy(AsText(b))
  }

  function AccountStep(p: Params, t: Token): Params {
    match t
    case Token(f, Blob(b)) =>
      if f == 1 then p.(secret := b)
      else if f == 2 then p.(name := LossyText(b))
      else if f == 3 then p.(issuer := LossyText(b))
      else p
    case Token(f, Number(n)) =>
      if f == 4 then p.(algorithm := n)
      else if f == 5 then p.(digits := n)
      else if f == 6 then p.(otpType := n)
      else if f == 7 then p.(counter := n)
      else p
    case _ => p
  }

  function AccountFold(p: Params, ts: seq<Token>): Params
    decreases |ts|
  {
    if ts == [] then p else AccountFold(AccountStep(p, ts[0]), ts[1..])
  }

  /** From `p`, the fields still in the buffer; None where they cannot be read. */
  function AccountFrom(p: Params, s: Bytes): Option<Params> {
    match Tokens(s) case None => None case Some(ts) => Some(AccountFold(p, ts))
  }

  /** `name` is written as "account" or "Issuer:account". */
  function NamesOf(name: string, issuer: string): (string, Option<string>) {
    var iss, acc := Trim(issuer), Trim(name);
    var plain := (acc, if iss == "" then None else Some(iss));
    match SplitOnce(acc, ':')
    case None => plain
    case Some((prefix, rest)) =>
      if iss == "" then (Trim(rest), Some(Trim(prefix)))
      else if Trim(prefix) == iss then (Trim(rest), Some(iss))
      else plain
  }

  function LabelOf(account: string, issuer: Option<string>): string {
    match issuer
    case None => account
    case Some(i) => if account == "" then i else i + ":" + account
  }

  function AlgorithmOf(n: nat): Result<Otp.Algorithm, SkipReason> {
    if n <= 1 then Ok(Otp.Sha1)
    else if n == 2 then Ok(Otp.Sha256)
    else if n == 3 then Ok(Otp.Sha512)
    else if n == 4 then Err(Md5)
    else Err(UnknownAlgorithm)
  }

  function DigitsOf(n: nat): nat {
    if n == 2 then 8 else 6
  }

  /** `build`. */
  function Build(p: Params, account: string, issuer: Option<string>): Outcome {
    var name := LabelOf(account, issuer);
    match AlgorithmOf(p.algorithm)
    case Err(reason) => Err(Skipped(name, reason))
    case Ok(algorithm) =>
      if p.digits > 2 then Err(Skipped(name, UnknownDigits))
      else if p.secret == [] then Err(Skipped(name, EmptySecret))
      else if p.otpType == 0 || p.otpType == 2 then
        var totp := Otp.Totp(p.secret, algorithm, DigitsOf(p.digits), Otp.DEFAULT_PERIOD, name, issuer);
        Ok(Account(account, issuer, Otp.TotpKind, Otp.TotpUri(totp)))
      else if p.otpType == 1 then
        var hotp := Otp.Hotp(p.secret, algorithm, DigitsOf(p.digits), p.counter, name, issuer);
        Ok(Account(account, issuer, Otp.HotpKind, Otp.HotpUri(hotp)))
      else Err(Skipped(name, UnknownType))
  }

  function OutcomeOf(p: Params): Outcome {
    var (account, issuer) := NamesOf(p.name, p.issuer);
    Build(p, account, issuer)
  }

  function AccountOf(buf: Bytes): Option<Outcome> {
    match AccountFrom(NO_PARAMS, buf) case None => None case Some(p) => Some(OutcomeOf(p))
  }

  /** What each wire type carries. */
  lemma WireCarries(wire: nat, s: Bytes)
    ensures wire == 0 ==>
      ReadValue(wire, s) == match ReadVarint(s) case None => None case Some((n, rest)) => Some((Number(n), rest))
    ensures wire == 2 ==>
      ReadValue(wire, s) == match ReadBlob(s) case None => None case Some((b, rest)) => Some((Blob(b), rest))
    ensures wire != 0 && ReadValue(wire, s).Some? ==> !ReadValue(wire, s).value.0.Number?
    ensures wire != 2 && ReadValue(wire, s).Some? ==> !ReadValue(wire, s).value.0.Blob?
  {
    hide ReadVarint, ReadBlob, Take;
  }

  lemma AccountReadStep(p: Params, s: Bytes)
    requires s != []
    ensures AccountFrom(p, s) ==
            match ReadToken(s) case None => None case Some((t, rest)) => AccountFrom(AccountStep(p, t), rest)
  {
    hide ReadToken, AccountStep;
    match ReadToken(s)
    case None =>
    case Some((t, rest)) =>
      if Tokens(rest).Some? {
        assert ([t] + Tokens(rest).value)[1..] == Tokens(rest).value;
      }
  }

  /** One field of the loop in `parse_account`. */
  method AccountField(p: Params, r: Reader) returns (next: Option<Params>)
    requires r.Valid() && r.Rest() != []
    modifies r
    ensures r.Valid() && r.pos >= old(r.pos)
    ensures match ReadToken(old(r.Rest()))
      case None => next == None
      case Some((t, rest)) => next == Some(AccountStep(p, t)) && r.Rest() == rest
  {
    hide ReadVarint, ReadValue, ReadBlob, Take, LossyText;
    var key := r.Key();
    if key.None? {
      return None;
    }
    var (field, wire) := key.value;
    WireCarries(wire, r.Rest());
    if 1 <= field <= 3 && wire == 2 {
      var b := r.ReadBytes();
      if b.None? {
        return None;
      }
      match field
      case 1 => return Some(p.(secret := b.value));
      case 2 => return Some(p.(name := LossyText(b.value)));
      case _ => return Some(p.(issuer := LossyText(b.value)));
    } else if 4 <= field <= 7 && wire == 0 {
      var n := r.Varint();
      if n.None? {
        return None;
      }
      match field
      case 4 => return Some(p.(algorithm := n.value));
      case 5 => return Some(p.(digits := n.value));
      case 6 => return Some(p.(otpType := n.value));
      case _ => return Some(p.(counter := n.value));
    } else {
      var ok := r.Skip(wire);
      return if ok then Some(p) else None;
    }
  }

  /** `parse_account`. */
  method ParseAccount(buf: Bytes) returns (outcome: Option<Outcome>)
    ensures outcome == AccountOf(buf)
  {
    hide AccountFrom, ReadToken, AccountStep, OutcomeOf;
    var p := NO_PARAMS;
    var r := new Reader(buf);
    var done := r.Done();
    while !done
      invariant r.Valid() && r.buf == buf
      invariant done <==> r.Rest() == []
      invariant AccountFrom(NO_PARAMS, buf) == AccountFrom(p, r.Rest())
      decreases |buf| - r.pos, done
    {
      AccountReadStep(p, r.Rest());
      var next := AccountField(p, r);
      if next.None? {
        return None;
      }
      p := next.value;
      done := r.Done();
    }
    AccountEnd(p);
    return Some(OutcomeOf(p));
  }

  lemma AccountEnd(p: Params)
    ensures AccountFrom(p, []) == Some(p)
  {
  }

  // --- a payload ---------------------------------------------------------------

  const NO_BATCH := Batch([], [], 0, 1, 0, 0)

  /** `as u32`, `as i64`. */
  function ToU32(n: nat): nat {
    n % TWO_32
  }

  function ToI64(n: nat): int {
    if n < 0x8000_0000_0000_0000 then n else n - TWO_64
  }

  /** The casts: the number kept modulo the word, into the range of its type. */
  lemma CastsAre(n: nat)
    requires n < TWO_64
    ensures ToU32(n) < 0x1_0000_0000 && (n - ToU32(n)) % 0x1_0000_0000 == 0
    ensures -0x8000_0000_0000_0000 <= ToI64(n) < 0x8000_0000_0000_0000
    ensures (n - ToI64(n)) % 0x1_0000_0000_0000_0000 == 0
  {
  }

  function AtLeastOne(n: nat): nat {
    if n == 0 then 1 else n
  }

  function Landed(b: Batch, o: Outcome): Batch {
    match o
    case Ok(account) => b.(accounts := b.accounts + [account])
    case Err(notice) => b.(skipped := b.skipped + [notice])
  }

  function PayloadStep(b: Batch, t: Token): Option<Batch> {
    match t
    case Token(f, Blob(bytes)) =>
      if f != 1 then Some(b)
      else (match AccountOf(bytes) case None => None case Some(o) => Some(Landed(b, o)))
    case Token(f, Number(n)) =>
      if f == 2 then Some(b.(version := ToU32(n)))
      else if f == 3 then Some(b.(batchSize := AtLeastOne(ToU32(n))))
      else if f == 4 then Some(b.(batchIndex := ToU32(n)))
      else if f == 5 then Some(b.(batchId := ToI64(n)))
      else Some(b)
    case _ => Some(b)
  }

  function PayloadFold(b: Batch, ts: seq<Token>): Option<Batch>
    decreases |ts|
  {
    if ts == [] then Some(b)
    else match PayloadStep(b, ts[0])
      case None => None
      case Some(next) => PayloadFold(next, ts[1..])
  }

  function PayloadFrom(b: Batch, s: Bytes): Option<Batch> {
    match Tokens(s) case None => None case Some(ts) => PayloadFold(b, ts)
  }

  function Payload(buf: Bytes): Option<Batch> {
    PayloadFrom(NO_BATCH, buf)
  }

  lemma PayloadReadStep(b: Batch, s: Bytes)
    requires s != []
    ensures PayloadFrom(b, s) ==
            match ReadToken(s)
            case None => None
            case Some((t, rest)) => match PayloadStep(b, t) case None => None case Some(next) => PayloadFrom(next, rest)
  {
    hide ReadToken, PayloadStep;
    match ReadToken(s)
    case None =>
    case Some((t, rest)) =>
      if Tokens(rest).Some? {
        assert ([t] + Tokens(rest).value)[1..] == Tokens(rest).value;
      }
  }

  /** One field of the loop in `parse_payload`. */
  method PayloadField(b: Batch, r: Reader) returns (next: Option<Batch>)
    requires r.Valid() && r.Rest() != []
    modifies r
    ensures r.Valid() && r.pos >= old(r.pos)
    ensures match ReadToken(old(r.Rest()))
      case None => next == None
      case Some((t, rest)) => next == PayloadStep(b, t) && (next.Some? ==> r.Rest() == rest)
  {
    hide ReadVarint, ReadValue, ReadBlob, Take, AccountOf, ToU32, ToI64, AtLeastOne;
    var key := r.Key();
    if key.None? {
      return None;
    }
    var (field, wire) := key.value;
    WireCarries(wire, r.Rest());
    if field == 1 && wire == 2 {
      var params := r.ReadBytes();
      if params.None? {
        return None;
      }
      var outcome := ParseAccount(params.value);
      if outcome.None? {
        return None;
      }
      match outcome.value
      case Ok(account) => return Some(b.(accounts := b.accounts + [account]));
      case Err(notice) => return Some(b.(skipped := b.skipped + [notice]));
    } else if 2 <= field <= 5 && wire == 0 {
      var n := r.Varint();
      if n.None? {
        return None;
      }
      match field
      case 2 => return Some(b.(version := ToU32(n.value)));
      case 3 => return Some(b.(batchSize := AtLeastOne(ToU32(n.value))));
      case 4 => return Some(b.(batchIndex := ToU32(n.value)));
      case _ => return Some(b.(batchId := ToI64(n.value)));
    } else {
      var ok := r.Skip(wire);
      return if ok then Some(b) else None;
    }
  }

  /** `parse_payload`. */
  method ParsePayload(buf: Bytes) returns (batch: Option<Batch>)
    ensures batch == Payload(buf)
  {
    hide PayloadFrom, ReadToken, PayloadStep;
    var b := NO_BATCH;
    var r := new Reader(buf);
    var done := r.Done();
    while !done
      invariant r.Valid() && r.buf == buf
      invariant done <==> r.Rest() == []
      invariant Payload(buf) == PayloadFrom(b, r.Rest())
      decreases |buf| - r.pos, done
    {
      PayloadReadStep(b, r.Rest());
      var next := PayloadField(b, r);
      if next.None? {
        return None;
      }
      b := next.value;
      done := r.Done();
    }
    PayloadEnd(b);
    return Some(b);
  }

  lemma PayloadEnd(b: Batch)
    ensures PayloadFrom(b, []) == Some(b)
  {
  }

  // --- what a payload means ------------------------------------------------------

  /** The last field of a number and wire type, or the protobuf default. */
  function LastBlob(ts: seq<Token>, field: nat): Bytes {
    if ts == [] then []
    else match ts[|ts| - 1]
      case Token(f, Blob(b)) => if f == field then b else LastBlob(ts[..|ts| - 1], field)
      case _ => LastBlob(ts[..|ts| - 1], field)
  }

  function LastNumber(ts: seq<Token>, field: nat): nat {
    if ts == [] then 0
    else match ts[|ts| - 1]
      case Token(f, Number(n)) => if f == field then n else LastNumber(ts[..|ts| - 1], field)
      case _ => LastNumber(ts[..|ts| - 1], field)
  }

  /** The OtpParameters records, in order. */
  function Records(ts: seq<Token>): seq<Bytes> {
    if ts == [] then []
    else match ts[|ts| - 1]
      case Token(f, Blob(b)) => Records(ts[..|ts| - 1]) + (if f == 1 then [b] else [])
      case _ => Records(ts[..|ts| - 1])
  }

  predicate Readable(records: seq<Bytes>) {
    forall i :: 0 <= i < |records| ==> AccountOf(records[i]).Some?
  }

  function Accounts(records: seq<Bytes>): seq<Account>
    requires Readable(records)
  {
    if records == [] then []
    else Accounts(records[..|records| - 1]) +
         (match AccountOf(records[|records| - 1]).value case Ok(a) => [a] case Err(_) => [])
  }

  function Notices(records: seq<Bytes>): seq<Skipped>
    requires Readable(records)
  {
    if records == [] then []
    else Notices(records[..|records| - 1]) +
         (match AccountOf(records[|records| - 1]).value case Ok(_) => [] case Err(n) => [n])
  }

  /** Every record lands in exactly one of the two lists. */
  lemma {:induction false} RecordsLandOnce(records: seq<Bytes>)
    requires Readable(records)
    ensures |Accounts(records)| + |Notices(records)| == |records|
  {
    hide AccountOf;
    if records != [] {
      RecordsLandOnce(records[..|records| - 1]);
    }
  }

  lemma {:induction false} AccountFoldSnoc(p: Params, ts: seq<Token>, t: Token)
    ensures AccountFold(p, ts + [t]) == AccountStep(AccountFold(p, ts), t)
    decreases |ts|
  {
    hide AccountStep;
    if ts == [] {
      assert (ts + [t])[1..] == [];
    } else {
      assert (ts + [t])[1..] == ts[1..] + [t];
      AccountFoldSnoc(AccountStep(p, ts[0]), ts[1..], t);
    }
  }

  /** An account's parameters are the last ones written; everything else is ignored. */
  lemma {:induction false} LastOneWins(ts: seq<Token>)
    ensures AccountFold(NO_PARAMS, ts) == Params(
        LastBlob(ts, 1), LossyText(LastBlob(ts, 2)), LossyText(LastBlob(ts, 3)),
        LastNumber(ts, 4), LastNumber(ts, 5), LastNumber(ts, 6), LastNumber(ts, 7))
    decreases |ts|
  {
    if ts == [] {
      assert LossyText([]) == "";
    } else {
      hide LossyText;
      var init := ts[..|ts| - 1];
      LastOneWins(init);
      AccountFoldSnoc(NO_PARAMS, init, ts[|ts| - 1]);
      assert ts == init + [ts[|ts| - 1]];
    }
  }

  lemma {:induction false} PayloadFoldConcat(b: Batch, xs: seq<Token>, ys: seq<Token>)
    ensures PayloadFold(b, xs + ys) ==
            match PayloadFold(b, xs) case None => None case Some(next) => PayloadFold(next, ys)
    decreases |xs|
  {
    hide PayloadStep;
    if xs == [] {
      assert xs + ys == ys;
    } else {
      assert (xs + ys)[1..] == xs[1..] + ys;
      match PayloadStep(b, xs[0])
      case None =>
      case Some(next) => PayloadFoldConcat(next, xs[1..], ys);
    }
  }

  lemma PayloadFoldOne(b: Batch, t: Token)
    ensures PayloadFold(b, [t]) == PayloadStep(b, t)
  {
    hide PayloadStep;
    match PayloadStep(b, t)
    case None =>
    case Some(next) => assert PayloadFold(next, [t][1..]) == Some(next);
  }

  /** What a payload's fields mean, with the accounts and notices in record order. */
  function Meaning(ts: seq<Token>): Option<Batch> {
    if !Readable(Records(ts)) then None
    else Some(Batch(
      Accounts(Records(ts)), Notices(Records(ts)),
      ToU32(LastNumber(ts, 2)), AtLeastOne(ToU32(LastNumber(ts, 3))), ToU32(LastNumber(ts, 4)), ToI64(LastNumber(ts, 5))))
  }

  lemma RecordLands(records: seq<Bytes>, r: Bytes)
    ensures Readable(records + [r]) <==> Readable(records) && AccountOf(r).Some?
    ensures Readable(records + [r]) && AccountOf(r).value.Ok? ==>
      && Accounts(records + [r]) == Accounts(records) + [AccountOf(r).value.value]
      && Notices(records + [r]) == Notices(records)
    ensures Readable(records + [r]) && AccountOf(r).value.Err? ==>
      && Accounts(records + [r]) == Accounts(records)
      && Notices(records + [r]) == Notices(records) + [AccountOf(r).value.error]
  {
    hide AccountOf;
    var all := records + [r];
    assert all[|records|] == r && all[..|records|] == records;
    assert forall i :: 0 <= i < |records| ==> all[i] == records[i];
  }

  /** Reading a payload field by field gives its meaning; it fails only when some record,
      or the payload itself, cannot be read. */
  lemma {:induction false} PayloadMeaning(ts: seq<Token>)
    ensures PayloadFold(NO_BATCH, ts) == Meaning(ts)
    decreases |ts|
  {
    hide AccountOf, ToU32, ToI64, Readable, Accounts, Notices, AtLeastOne;
    if ts == [] {
      NoMeaning();
    } else {
      var init, t := ts[..|ts| - 1], ts[|ts| - 1];
      PayloadMeaning(init);
      PayloadFoldConcat(NO_BATCH, init, [t]);
      assert ts == init + [t];
      assert PayloadFold(NO_BATCH, ts) ==
        match Meaning(init) case None => None case Some(next) => PayloadStep(next, t) by {
        if Meaning(init).Some? { PayloadFoldOne(Meaning(init).value, t); }
      }
      MeaningSnoc(init, t);
    }
  }

  lemma NoMeaning()
    ensures Meaning([]) == Some(NO_BATCH)
  {
  }

  lemma MeaningSnoc(init: seq<Token>, t: Token)
    ensures Meaning(init + [t]) == match Meaning(init) case None => None case Some(next) => PayloadStep(next, t)
  {
    hide AccountOf, ToU32, ToI64, Readable, Accounts, Notices, AtLeastOne, Records, LastNumber;
    LastSnoc(init, t);
    if t.value.Blob? && t.field == 1 {
      RecordLands(Records(init), t.value.bytes);
    }
  }

  lemma LastSnoc(init: seq<Token>, t: Token)
    ensures Records(init + [t]) == Records(init) + (if t.value.Blob? && t.field == 1 then [t.value.bytes] else [])
    ensures !(t.value.Blob? && t.field == 1) ==> Records(init + [t]) == Records(init)
    ensures forall f :: LastNumber(init + [t], f) == if t.value.Number? && t.field == f then t.value.n else LastNumber(init, f)
  {
    var ts := init + [t];
    assert ts[..|init|] == init && ts[|ts| - 1] == t;
  }

  /** The payload parser is exactly this reading. */
  lemma PayloadIs(buf: Bytes)
    ensures Payload(buf) == match Tokens(buf) case None => None case Some(ts) => Meaning(ts)
  {
    hide Meaning, Tokens, PayloadFold;
    if Tokens(buf).Some? {
      PayloadMeaning(Tokens(buf).value);
    }
  }

  // --- unknown fields --------------------------------------------------------------

  predicate PayloadKnows(t: Token) {
    || (t.value.Blob? && t.field == 1)
    || (t.value.Number? && 2 <= t.field <= 5)
  }

  predicate AccountKnows(t: Token) {
    || (t.value.Blob? && 1 <= t.field <= 3)
    || (t.value.Number? && 4 <= t.field <= 7)
  }

  /** A well-formed unknown field between two fields changes nothing. */
  lemma UnknownInPayload(a: Bytes, t: Token, b: Bytes)
    requires Tokens(a).Some? && GoodToken(t) && !PayloadKnows(t)
    ensures Payload(a + WriteToken(t) + b) == Payload(a + b)
  {
    hide Tokens, WriteToken, PayloadFold, GoodToken;
    OneToken(t);
    TokensConcat(a, b);
    TokensConcat(WriteToken(t), b);
    TokensConcat(a, WriteToken(t) + b);
    assert a + WriteToken(t) + b == a + (WriteToken(t) + b);
    if Tokens(b).Some? {
      var xs, ys := Tokens(a).value, Tokens(b).value;
      PayloadFoldConcat(NO_BATCH, xs, ys);
      PayloadFoldConcat(NO_BATCH, xs, [t] + ys);
      if PayloadFold(NO_BATCH, xs).Some? {
        var p := PayloadFold(NO_BATCH, xs).value;
        PayloadFoldConcat(p, [t], ys);
        PayloadFoldOne(p, t);
      }
    }
  }

  lemma OneToken(t: Token)
    requires GoodToken(t)
    ensures Tokens(WriteToken(t)) == Some([t])
  {
    hide WriteToken, GoodToken, ReadToken;
    TokenRoundTrip(t, []);
    assert WriteToken(t) + [] == WriteToken(t);
    assert Tokens([]) == Some([]) && [t] + [] == [t];
    assert WriteToken(t) != [] by { Written(t); }
  }

  lemma Written(t: Token)
    ensures WriteToken(t) != []
  {
  }

  lemma {:induction false} AccountFoldConcat(p: Params, xs: seq<Token>, ys: seq<Token>)
    ensures AccountFold(p, xs + ys) == AccountFold(AccountFold(p, xs), ys)
    decreases |xs|
  {
    hide AccountStep;
    if xs == [] {
      assert xs + ys == ys;
    } else {
      assert (xs + ys)[1..] == xs[1..] + ys;
      AccountFoldConcat(AccountStep(p, xs[0]), xs[1..], ys);
    }
  }

  lemma UnknownInAccount(a: Bytes, t: Token, b: Bytes)
    requires Tokens(a).Some? && GoodToken(t) && !AccountKnows(t)
    ensures AccountOf(a + WriteToken(t) + b) == AccountOf(a + b)
  {
    hide Tokens, WriteToken, AccountFold, GoodToken, OutcomeOf;
    OneToken(t);
    TokensConcat(a, b);
    TokensConcat(WriteToken(t), b);
    TokensConcat(a, WriteToken(t) + b);
    assert a + WriteToken(t) + b == a + (WriteToken(t) + b);
    if Tokens(b).Some? {
      var xs, ys := Tokens(a).value, Tokens(b).value;
      var p := AccountFold(NO_PARAMS, xs);
      AccountFoldConcat(NO_PARAMS, xs, ys);
      AccountFoldConcat(NO_PARAMS, xs, [t] + ys);
      AccountFoldConcat(p, [t], ys);
      AccountFoldOne(p, t);
    }
  }

  lemma AccountFoldOne(p: Params, t: Token)
    ensures AccountFold(p, [t]) == AccountStep(p, t)
  {
    hide AccountStep;
    assert AccountFold(AccountStep(p, t), [t][1..]) == AccountStep(p, t);
  }

  // --- each URI reads back ---------------------------------------------------------

  lemma {:induction false} NumbersFit(s: Bytes)
    requires Tokens(s).Some?
    ensures forall i :: 0 <= i < |Tokens(s).value| && Tokens(s).value[i].value.Number? ==>
      Tokens(s).value[i].value.n < TWO_64
    decreases |s|
  {
    hide ReadVarint;
    if s != [] {
      NumbersFit(ReadToken(s).value.1);
    }
  }

  lemma {:induction false} LastNumberFits(ts: seq<Token>, field: nat)
    requires forall i :: 0 <= i < |ts| && ts[i].value.Number? ==> ts[i].value.n < TWO_64
    ensures LastNumber(ts, field) < TWO_64
  {
    if ts != [] {
      LastNumberFits(ts[..|ts| - 1], field);
    }
  }

  lemma LossyTextIsUtf8(b: Bytes)
    ensures IsUtf8(LossyText(b))
  {
    LossyIsUtf8(AsText(b));
  }

  /** Names cut out of valid text are valid text. */
  lemma NamesAreUtf8(name: string, issuer: string)
    requires IsUtf8(name) && IsUtf8(issuer)
    ensures var (account, iss) := NamesOf(name, issuer);
      IsUtf8(account) && (iss.Some? ==> IsUtf8(iss.value)) && IsUtf8(LabelOf(account, iss))
  {
    hide IsUtf8, Trim;
    TrimUtf8(name);
    TrimUtf8(issuer);
    var acc := Trim(name);
    if SplitOnce(acc, ':').Some? {
      var (prefix, rest) := SplitOnce(acc, ':').value;
      Cut(acc, IndexOf(acc, ':'));
      AsciiBoundary(prefix, ':', rest);
      TrimUtf8(prefix);
      TrimUtf8(rest);
    }
    var (account, iss) := NamesOf(name, issuer);
    if iss.Some? {
      AsciiBoundary(iss.value, ':', account);
    }
  }

  /** Exactly the records Google's own authenticators can use are imported. */
  predicate Importable(p: Params) {
    p.secret != [] && p.algorithm <= 3 && p.digits <= 2 && p.otpType <= 2
  }

  /** The exported number of an algorithm; 0 and 1 are both the default. */
  predicate Exported(a: Otp.Algorithm, n: nat) {
    match a case Sha1 => n <= 1 case Sha256 => n == 2 case Sha512 => n == 3
  }

  /** Issuer and account, whichever there are, with a colon between. */
  predicate Labels(name: string, account: string, issuer: Option<string>) {
    name == if issuer.None? then account
            else if account == "" then issuer.value
            else issuer.value + ":" + account
  }

  /** The configuration an imported line must read back to. */
  ghost predicate ReadsBack(a: Account, p: Params) {
    && (a.account, a.issuer) == NamesOf(p.name, p.issuer)
    && if p.otpType == 1 then
         && a.kind == Otp.HotpKind && Otp.ParseHotp(a.uri).Ok?
         && var h := Otp.ParseHotp(a.uri).value;
            && h.secret == p.secret && Exported(h.algorithm, p.algorithm) && h.digits == (if p.digits == 2 then 8 else 6)
            && h.counter == p.counter && Labels(h.name, a.account, a.issuer) && h.issuer == a.issuer
       else
         && a.kind == Otp.TotpKind && Otp.ParseTotp(a.uri).Ok?
         && var t := Otp.ParseTotp(a.uri).value;
            && t.secret == p.secret && Exported(t.algorithm, p.algorithm) && t.digits == (if p.digits == 2 then 8 else 6)
            && t.period == 30 && Labels(t.name, a.account, a.issuer) && t.issuer == a.issuer
  }

  /** What is not imported is named, and the first reason given. */
  lemma SkipIs(p: Params)
    requires !Importable(p)
    ensures OutcomeOf(p).Err?
    ensures var (account, issuer) := NamesOf(p.name, p.issuer);
      && Labels(OutcomeOf(p).error.name, account, issuer)
      && OutcomeOf(p).error.reason ==
         if p.algorithm == 4 then Md5
         else if p.algorithm > 4 then UnknownAlgorithm
         else if p.digits > 2 then UnknownDigits
         else if p.secret == [] then EmptySecret
         else UnknownType
  {
    hide NamesOf, Otp.TotpUri, Otp.HotpUri;
  }

  /** A name without a colon is the account. One with a colon is issuer and account where the
      record has no issuer or the same; under another issuer it stays whole. */
  lemma NamesAre(name: string, issuer: string, prefix: string, rest: string)
    requires ':' !in prefix
    ensures Trim(name) == prefix ==>
      NamesOf(name, issuer) == (prefix, if Trim(issuer) == "" then None else Some(Trim(issuer)))
    ensures Trim(name) == prefix + ":" + rest ==>
      NamesOf(name, issuer) ==
        if Trim(issuer) == "" then (Trim(rest), Some(Trim(prefix)))
        else if Trim(issuer) == Trim(prefix) then (Trim(rest), Some(Trim(prefix)))
        else (Trim(name), Some(Trim(issuer)))
  {
    hide Trim, IndexOf;
    IndexOfNone(prefix, ':');
    SplitOnceAt(prefix, ':', rest);
  }

  lemma TrimNothing()
    ensures Trim("") == ""
  {
  }

  lemma TrimmedPair(a: string, b: string)
    requires Trimmed(a) && Trimmed(b) && a != "" && b != ""
    ensures Trimmed(a + ":" + b)
  {
    var s := a + ":" + b;
    assert s[|a|] == ':' && s[0] == a[0] && s[|s| - 1] == b[|b| - 1];
    assert |a| >= 2 ==> s[1] == a[1];
    assert |a| >= 3 ==> s[2] == a[2];
    assert |b| >= 2 ==> s[|s| - 2] == b[|b| - 2];
    assert |b| >= 3 ==> s[|s| - 3] == b[|b| - 3];
  }

  /** The label of an imported account gives its names back. */
  lemma LabelReads(account: string, issuer: string)
    requires Trimmed(account) && Trimmed(issuer) && ':' !in issuer && issuer != "" && account != ""
    ensures NamesOf(LabelOf(account, Some(issuer)), "") == (account, Some(issuer))
  {
    hide Trim, Trimmed;
    TrimmedStays(account);
    TrimmedStays(issuer);
    assert Trim("") == "" by { TrimNothing(); }
    var text := issuer + ":" + account;
    TrimmedPair(issuer, account);
    TrimmedStays(text);
    NamesAre(text, "", issuer, account);
  }

  lemma OutcomeReadsBack(p: Params)
    requires IsUtf8(p.name) && IsUtf8(p.issuer) && p.counter < TWO_64
    ensures OutcomeOf(p).Ok? <==> Importable(p)
    ensures OutcomeOf(p).Ok? ==> ReadsBack(OutcomeOf(p).value, p)
  {
    hide IsUtf8, NamesOf, Otp.TotpUri, Otp.HotpUri, Otp.ParseTotp, Otp.ParseHotp;
    NamesAreUtf8(p.name, p.issuer);
    if OutcomeOf(p).Ok? {
      var (account, issuer) := NamesOf(p.name, p.issuer);
      var name, algorithm := LabelOf(account, issuer), AlgorithmOf(p.algorithm).value;
      Otp.TotpRoundTrip(Otp.Totp(p.secret, algorithm, DigitsOf(p.digits), Otp.DEFAULT_PERIOD, name, issuer));
      Otp.HotpRoundTrip(Otp.Hotp(p.secret, algorithm, DigitsOf(p.digits), p.counter, name, issuer));
    }
  }

  /** A record is imported exactly when importable, and then its line reads back to the
      exported key, algorithm, digits and counter. */
  lemma AccountReadsBack(buf: Bytes)
    requires AccountFrom(NO_PARAMS, buf).Some?
    ensures var p, o := AccountFrom(NO_PARAMS, buf).value, AccountOf(buf).value;
      && (o.Ok? <==> Importable(p))
      && (o.Ok? ==> ReadsBack(o.value, p))
  {
    hide OutcomeOf, Importable, ReadsBack, LastBlob, LastNumber, Tokens, AccountFold, LossyText;
    var ts := Tokens(buf).value;
    LastOneWins(ts);
    NumbersFit(buf);
    LastNumberFits(ts, 7);
    LossyTextIsUtf8(LastBlob(ts, 2));
    LossyTextIsUtf8(LastBlob(ts, 3));
    OutcomeReadsBack(AccountFold(NO_PARAMS, ts));
  }

  // --- the scanned URI -------------------------------------------------------------

  const OFFLINE: string := "otpauth-migration://offline?"
  const OFFLINE_SLASH: string := "otpauth-migration://offline/?"
  const DATA: string := "data="

  function QueryOf(uri: string): Option<string> {
    match StripPrefix(uri, OFFLINE) case Some(q) => Some(q) case None => StripPrefix(uri, OFFLINE_SLASH)
  }

  function DataOf(pairs: seq<string>): Option<string> {
    if pairs == [] then None
    else match StripPrefix(pairs[0], DATA) case Some(d) => Some(d) case None => DataOf(pairs[1..])
  }

  function ParsedUri(scanned: string): Result<Batch, MigrationError> {
    match QueryOf(Trim(scanned))
    case None => Err(NotMigrationUri)
    case Some(query) =>
      match DataOf(Split(query, '&'))
      case None => Err(MissingData)
      case Some(data) =>
        if data == "" then Err(MissingData)
        else match Base64.DecodeTolerant(Percent.Decode(data))
          case None => Err(BadBase64)
          case Some(bytes) => match Payload(bytes) case None => Err(BadPayload) case Some(b) => Ok(b)
  }

  /** `parse_migration_uri`. */
  method ParseMigrationUri(scanned: string) returns (r: Result<Batch, MigrationError>)
    ensures r == ParsedUri(scanned)
  {
    hide Trim, Split, DataOf, Payload, QueryOf;
    var query := QueryOf(Trim(scanned));
    if query.None? {
      return Err(NotMigrationUri);
    }
    var data := DataOf(Split(query.value, '&'));
    if data.None? || data.value == "" {
      return Err(MissingData);
    }
    var text := Percent.PercentDecode(data.value);
    var bytes := Base64.DecodeUnmasked(text);
    if bytes.None? {
      return Err(BadBase64);
    }
    var batch := ParsePayload(bytes.value);
    return match batch case None => Err(BadPayload) case Some(b) => Ok(b);
  }

  /** A scanned line: the scheme with or without its slash, and the payload as the first `data`
      parameter, whatever other parameters stand around it. */
  ghost predicate Carries(scanned: string, data: string, before: seq<string>, after: seq<string>) {
    var query := Join(before + ["data=" + data] + after, '&');
    && Lacks(before, '&') && Lacks(after, '&')
    && (forall i :: 0 <= i < |before| ==> !("data=" <= before[i]))
    && Trim(scanned) in {"otpauth-migration://offline?" + query, "otpauth-migration://offline/?" + query}
  }

  lemma {:induction false} DataFirst(before: seq<string>, data: string, after: seq<string>)
    requires forall i :: 0 <= i < |before| ==> !("data=" <= before[i])
    ensures DataOf(before + ["data=" + data] + after) == Some(data)
    decreases |before|
  {
    if before == [] {
      assert ("data=" + data)[5..] == data;
    } else {
      DataFirst(before[1..], data, after);
      assert (before + ["data=" + data] + after)[1..] == before[1..] + ["data=" + data] + after;
    }
  }

  lemma {:induction false} NoData(pairs: seq<string>)
    ensures DataOf(pairs).None? <==> forall i :: 0 <= i < |pairs| ==> !("data=" <= pairs[i])
  {
    if pairs != [] {
      NoData(pairs[1..]);
      assert forall i :: 1 <= i < |pairs| ==> pairs[i] == pairs[1..][i - 1];
    }
  }

  lemma QueryFound(scanned: string, query: string)
    requires Trim(scanned) in {"otpauth-migration://offline?" + query, "otpauth-migration://offline/?" + query}
    ensures QueryOf(Trim(scanned)) == Some(query)
  {
    hide Trim;
    var uri := Trim(scanned);
    if uri == OFFLINE + query {
      assert uri[|OFFLINE|..] == query;
    } else {
      assert uri == OFFLINE_SLASH + query && uri[|OFFLINE_SLASH|..] == query;
      assert OFFLINE[27] == '?' && uri[27] == '/';
    }
  }

  /** A payload sent through base64 and percent coding is read as itself. */
  lemma UriCarriesPayload(scanned: string, bytes: Bytes, pad: bool, before: seq<string>, after: seq<string>)
    requires bytes != [] && Carries(scanned, Percent.Encode(Base64.Encode(bytes, pad)), before, after)
    ensures ParsedUri(scanned) ==
            match Payload(bytes) case None => Err(BadPayload) case Some(b) => Ok(b)
  {
    hide Payload, Trim, Split, Join, DataOf, QueryOf, Percent.Encode, Percent.Decode, Base64.Encode, Base64.DecodeTolerant, IsUtf8;
    var text := Base64.Encode(bytes, pad);
    var data := Percent.Encode(text);
    var pairs := before + ["data=" + data] + after;
    Base64.EncodeShape(bytes, pad);
    Base64.RoundTrip(bytes, pad);
    AsciiIsUtf8(text);
    Percent.RoundTrip(text);
    Percent.EncodeLacks(text, '&');
    assert Percent.Decode("") == "" by { DecodeNothing(); }
    QueryFound(scanned, Join(pairs, '&'));
    SplitJoin(pairs, '&');
    DataFirst(before, data, after);
  }

  /** The errors of a line, in their order. */
  lemma UriErrors(scanned: string, query: string)
    ensures !("otpauth-migration://offline?" <= Trim(scanned)) && !("otpauth-migration://offline/?" <= Trim(scanned))
      ==> ParsedUri(scanned) == Err(NotMigrationUri)
    ensures Trim(scanned) in {"otpauth-migration://offline?" + query, "otpauth-migration://offline/?" + query}
      ==> ((ParsedUri(scanned) == Err(MissingData)) <==>
            DataOf(Split(query, '&')) in {None, Some("")})
  {
    hide Payload, Trim, Split, DataOf, Percent.Decode, Base64.DecodeTolerant;
    if Trim(scanned) in {"otpauth-migration://offline?" + query, "otpauth-migration://offline/?" + query} {
      QueryFound(scanned, query);
    }
  }

  lemma BadData(scanned: string, data: string, before: seq<string>, after: seq<string>)
    requires Carries(scanned, data, before, after) && data != "" && '&' !in data
    requires Base64.DecodeTolerant(Percent.Decode(data)).None?
    ensures ParsedUri(scanned) == Err(BadBase64)
  {
    hide Payload, Trim, Split, Join, DataOf, QueryOf, Percent.Decode, Base64.DecodeTolerant;
    var pairs := before + ["data=" + data] + after;
    QueryFound(scanned, Join(pairs, '&'));
    SplitJoin(pairs, '&');
    DataFirst(before, data, after);
  }

  lemma DecodeNothing()
    ensures Percent.Decode("") == ""
  {
  }
}
