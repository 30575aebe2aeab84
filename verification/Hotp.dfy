/** Advancing the HOTP line of an entry: the next code is computed at the stored
    counter + 1, and only that counter's digits are rewritten. */
module HotpAdvance {
  import opened Text
  import opened Utf8
  import opened EntryCodec
  import opened EntryLaws
  import opened Bits
  import opened Otp
  import opened OtpCode
  import Base32
  import Decimal
  import Percent

  datatype HotpStep = HotpStep(code: string, counter: nat)

  predicate IsCounter(pair: string) {
    Names(pair, "counter")
  }

  function CounterPair(pair: string, n: nat): string {
    KeyOf(pair) + "=" + Decimal.Print(n)
  }

  /** The first counter parameter gets the value; no other parameter changes. */
  function Rewrite(pairs: seq<string>, n: nat): seq<string> {
    var j := First(pairs, 0, IsCounter);
    if j < |pairs| then pairs[j := CounterPair(pairs[j], n)] else pairs
  }

  function UriWithCounter(uri: string, n: nat): string {
    match SplitOnce(uri, '?')
    case None => uri + "?counter=" + Decimal.Print(n)
    case Some((head, query)) =>
      var pairs := Split(query, '&');
      var out := head + "?" + Join(Rewrite(pairs, n), '&');
      if First(pairs, 0, IsCounter) < |pairs| then out
      else if query == "" then out + "counter=" + Decimal.Print(n)
      else out + "&" + "counter=" + Decimal.Print(n)
  }

  /** hotp.rs `uri_with_counter`, with its `replaced` flag. */
  method RewriteCounter(uri: string, n: nat) returns (out: string)
    ensures out == UriWithCounter(uri, n)
  {
    hide IsCounter, CounterPair, Split, Join, IndexOf, Decimal.Print;
    var parts := SplitOnce(uri, '?');
    if parts.None? {
      return uri + "?counter=" + Decimal.Print(n);
    }
    var (head, query) := parts.value;
    var pairs := Split(query, '&');
    var replaced, params, i := false, [], 0;
    ghost var j := First(pairs, 0, IsCounter);
    while i < |pairs|
      invariant i <= |pairs| && replaced == (j < i) && |params| == i
      invariant params == Rewrite(pairs, n)[..i]
    {
      if !replaced && IsCounter(pairs[i]) {
        replaced := true;
        params := params + [CounterPair(pairs[i], n)];
      } else {
        params := params + [pairs[i]];
      }
      i := i + 1;
    }
    assert params == Rewrite(pairs, n);
    out := head + "?" + Join(params, '&');
    if !replaced {
      if query != "" {
        out := out + "&";
      }
      out := out + "counter=" + Decimal.Print(n);
    }
  }

  /** Without a counter parameter one is appended, after a `?` or `&` where one is needed; the
      parameters before it stay. */
  lemma CounterAppended(uri: string, n: nat)
    requires First(PairsOf(uri), 0, IsCounter) == |PairsOf(uri)|
    ensures uri <= UriWithCounter(uri, n)
    ensures match SplitOnce(uri, '?')
      case None => UriWithCounter(uri, n) == uri + "?counter=" + Decimal.Print(n)
      case Some((_, query)) =>
        UriWithCounter(uri, n) == uri + (if query == "" then "" else "&") + "counter=" + Decimal.Print(n)
  {
    hide IsCounter, Split, Join, IndexOf, Decimal.Print;
    match SplitOnce(uri, '?')
    case None =>
    case Some((head, query)) =>
      FoundAt(uri);
      Cut(uri, IndexOf(uri, '?'));
      JoinSplit(query, '&');
      assert uri == head + "?" + query;
  }

  // --- reading a rewritten URI -------------------------------------------------

  function Counters(pairs: seq<string>): nat {
    if pairs == [] then 0 else (if IsCounter(pairs[0]) then 1 else 0) + Counters(pairs[1..])
  }

  function PairsOf(uri: string): seq<string> {
    match SplitOnce(uri, '?') case Some((_, q)) => Split(q, '&') case None => []
  }

  /** A counter read earlier is forgotten at the next one, and otherwise rides along. */
  lemma {:induction false} ReadOverCounter(p: Params, pairs: seq<string>, c: Option<nat>)
    ensures var r, s := ReadAll(HotpKind, p, pairs), ReadAll(HotpKind, p.(counter := c), pairs);
      && (r.Err? ==> s == r)
      && (r.Ok? && Counters(pairs) == 0 ==> r.value.counter == p.counter && s == Ok(r.value.(counter := c)))
      && (r.Ok? && Counters(pairs) > 0 ==> s == r)
    decreases |pairs|
  {
    hide Read, IsCounter;
    if pairs != [] {
      ReadKeepsCounter(p, pairs[0], c);
      match Read(HotpKind, p, pairs[0])
      case Err(_) =>
      case Ok(q) =>
        ReadOverCounter(q, pairs[1..], c);
    }
  }

  lemma Exclusive(pair: string)
    requires IsCounter(pair)
    ensures pair != "" && !Names(pair, "secret") && !Names(pair, "algorithm") && !Names(pair, "digits") && !Names(pair, "period")
  {
    assert pair == "" ==> Lower(KeyOf(pair)) == "";
  }

  lemma ReadKeepsCounter(p: Params, pair: string, c: Option<nat>)
    ensures var r, s := Read(HotpKind, p, pair), Read(HotpKind, p.(counter := c), pair);
      && (r.Err? ==> s == r)
      && (r.Ok? && !IsCounter(pair) ==> r.value.counter == p.counter && s == Ok(r.value.(counter := c)))
      && (r.Ok? && IsCounter(pair) ==> s == r)
  {
    hide KeyOf, ValueOf, ReadAlgorithm, Decimal.Parse;
    if IsCounter(pair) {
      Exclusive(pair);
    }
  }

  lemma ReadCounterPair(p: Params, pair: string, n: nat)
    requires IsCounter(pair) && n <= Decimal.U64_MAX
    ensures IsCounter(CounterPair(pair, n))
    ensures Read(HotpKind, p, CounterPair(pair, n)) == Ok(p.(counter := Some(n)))
    ensures Read(HotpKind, p, pair).Ok? ==>
      Decimal.Parse(ValueOf(pair), Decimal.U64_MAX).Some?
      && Read(HotpKind, p, pair) == Ok(p.(counter := Decimal.Parse(ValueOf(pair), Decimal.U64_MAX)))
  {
    var x := CounterPair(pair, n);
    KeyLacksEquals(pair);
    KeyValue(KeyOf(pair), Decimal.Print(n));
    Exclusive(pair);
    Exclusive(x);
    Decimal.ParsePrint(n, Decimal.U64_MAX);
  }

  lemma KeyLacksEquals(pair: string)
    ensures '=' !in KeyOf(pair)
  {
  }

  /** Rewriting the first counter: if it is the only one the reader gets the new
      value, otherwise a later one still wins. */
  lemma ReadRewritten(p: Params, pairs: seq<string>, n: nat)
    requires n <= Decimal.U64_MAX && Counters(pairs) > 0 && ReadAll(HotpKind, p, pairs).Ok?
    ensures var q := ReadAll(HotpKind, p, pairs).value;
      ReadAll(HotpKind, p, Rewrite(pairs, n)) == Ok(if Counters(pairs) == 1 then q.(counter := Some(n)) else q)
  {
    hide Read, IsCounter, CounterPair, ReadAll, Counters, Rewrite;
    var j := RewriteAt(pairs, n);
    var a, x, b := pairs[..j], pairs[j], pairs[j + 1..];
    ReadFrom(p, a, x, b);
    ReadFrom(p, a, CounterPair(x, n), b);
    var q := ReadAll(HotpKind, p, a).value;
    ReadCounterPair(q, x, n);
    ReadOverCounter(Read(HotpKind, q, x).value, b, Some(n));
  }

  /** The counter that is rewritten, and those after it. */
  lemma RewriteAt(pairs: seq<string>, n: nat) returns (j: nat)
    requires Counters(pairs) > 0
    ensures j < |pairs| && IsCounter(pairs[j]) && Counters(pairs) == 1 + Counters(pairs[j + 1..])
    ensures pairs == pairs[..j] + ([pairs[j]] + pairs[j + 1..])
    ensures Rewrite(pairs, n) == pairs[..j] + ([CounterPair(pairs[j], n)] + pairs[j + 1..])
  {
    hide IsCounter, CounterPair, Counters, First;
    j := First(pairs, 0, IsCounter);
    CountersAt(pairs, 0);
    assert pairs[0..] == pairs;
    NoCounters();
    SplitAt(pairs, j, pairs[j]);
    SplitAt(pairs, j, CounterPair(pairs[j], n));
    assert pairs[j := pairs[j]] == pairs;
  }

  lemma SplitAt(pairs: seq<string>, j: nat, x: string)
    requires j < |pairs|
    ensures pairs[j := x] == pairs[..j] + ([x] + pairs[j + 1..])
  {
  }

  lemma NoCounters()
    ensures Counters([]) == 0
  {
  }

  /** Reading up to a pair, the pair, and the rest. */
  lemma ReadFrom(p: Params, a: seq<string>, x: string, b: seq<string>)
    ensures ReadAll(HotpKind, p, a + ([x] + b)) ==
      match ReadAll(HotpKind, p, a)
      case Err(e) => Err(e)
      case Ok(q) => match Read(HotpKind, q, x) case Err(e) => Err(e) case Ok(q1) => ReadAll(HotpKind, q1, b)
  {
    hide Read;
    ReadConcat(HotpKind, p, a, [x] + b);
    assert ([x] + b)[1..] == b && ([x] + b)[0] == x;
  }

  lemma {:induction false} CountersAt(pairs: seq<string>, k: nat)
    requires k <= |pairs|
    ensures var j := First(pairs, k, IsCounter);
      if j == |pairs| then Counters(pairs[k..]) == 0 else Counters(pairs[k..]) == 1 + Counters(pairs[j + 1..])
    decreases |pairs| - k
  {
    hide IsCounter;
    if k < |pairs| {
      CountersAt(pairs, k + 1);
      assert pairs[k..][1..] == pairs[k + 1..];
    }
  }

  lemma {:induction false} HasCounter(p: Params, pairs: seq<string>)
    requires ReadAll(HotpKind, p, pairs).Ok? && p.counter.None?
    ensures ReadAll(HotpKind, p, pairs).value.counter.Some? ==> Counters(pairs) > 0
  {
    ReadOverCounter(p, pairs, None);
  }

  // --- the bytes of a rewritten URI --------------------------------------------

  /** A URI as its counter's digits and what stands around them. */
  datatype Around = Around(pre: string, digits: string, post: string)

  /** Only the digits of the first counter differ. */
  lemma CounterBytes(uri: string) returns (a: Around)
    requires ParseHotp(uri).Ok?
    ensures uri == a.pre + a.digits + a.post
    ensures a.digits != "" && Ascii(a.digits) && '\n' !in a.digits && '\r' !in a.digits
    ensures Decimal.Parse(a.digits, Decimal.U64_MAX).Some?
    ensures Counters(PairsOf(uri)) == 1 ==> Decimal.Parse(a.digits, Decimal.U64_MAX) == Some(ParseHotp(uri).value.counter)
    ensures "otpauth://hotp" <= a.pre && (a.post == "" || a.post[0] == '&')
    ensures forall n :: UriWithCounter(uri, n) == a.pre + Decimal.Print(n) + a.post
  {
    hide Read, IsCounter, CounterPair, ReadAll, Split, Join, Decimal.Print, FinishHotp, IndexOf, KeyOf, ValueOf, Before, After, AfterType, ParseHotp, PairsOf, Counters, Decimal.Parse, UriWithCounter;
    var head, query := HotpParts(uri);
    PairsAre(uri, head, query);
    var pairs := Split(query, '&');
    var j := First(pairs, 0, IsCounter);
    CounterText(uri, head, query, j);
    var x := pairs[j];
    var before, after := Before(pairs[..j], '&'), After(pairs[j + 1..], '&');
    var v := ValueOf(x);
    a := Around(head + "?" + before + KeyOf(x) + "=", v, after);
    JoinSplit(query, '&');
    JoinAround(pairs, '&', j, x);
    assert pairs[j := x] == pairs;
    Glue(head, before, KeyOf(x), v, after);
    forall n
      ensures UriWithCounter(uri, n) == a.pre + Decimal.Print(n) + a.post
    {
      RewrittenText(uri, head, query, j, n);
    }
    AfterStart(pairs[j + 1..]);
    PrefixThrough("otpauth://hotp", head, before, KeyOf(x));
  }

  lemma PrefixThrough(p: string, head: string, before: string, key: string)
    requires p <= head
    ensures p <= head + "?" + before + key + "="
  {
  }

  lemma RewrittenText(uri: string, head: string, query: string, j: nat, n: nat)
    requires SplitOnce(uri, '?') == Some((head, query))
    requires j == First(Split(query, '&'), 0, IsCounter) && j < |Split(query, '&')|
    ensures var pairs := Split(query, '&');
      UriWithCounter(uri, n) ==
      (head + "?" + Before(pairs[..j], '&') + KeyOf(pairs[j]) + "=") + Decimal.Print(n) + After(pairs[j + 1..], '&')
  {
    hide IsCounter, CounterPair, Split, Join, Decimal.Print, IndexOf, KeyOf, Before, After;
    var pairs := Split(query, '&');
    JoinAround(pairs, '&', j, CounterPair(pairs[j], n));
    CounterPairIs(pairs[j], n);
    Glue(head, Before(pairs[..j], '&'), KeyOf(pairs[j]), Decimal.Print(n), After(pairs[j + 1..], '&'));
  }

  lemma PairsAre(uri: string, head: string, query: string)
    requires SplitOnce(uri, '?') == Some((head, query))
    ensures PairsOf(uri) == Split(query, '&')
  {
  }

  lemma PrefixThen(p: string, a: string, b: string)
    requires p <= a
    ensures p <= a + b
  {
  }

  lemma AfterStart(parts: seq<string>)
    ensures After(parts, '&') == "" || After(parts, '&')[0] == '&'
  {
  }

  lemma CounterPairIs(x: string, n: nat)
    ensures CounterPair(x, n) == KeyOf(x) + "=" + Decimal.Print(n)
  {
  }

  lemma Glue(head: string, before: string, key: string, v: string, after: string)
    ensures head + "?" + (before + (key + "=" + v) + after) == (head + "?" + before + key + "=") + v + after
  {
  }

  lemma HotpParts(uri: string) returns (head: string, query: string)
    requires ParseHotp(uri).Ok?
    ensures SplitOnce(uri, '?') == Some((head, query)) && "otpauth://hotp" <= head
    ensures uri == head + "?" + query
    ensures exists k: nat | k <= |head| ::
      AfterType(uri, HOTP_PREFIX) == Some(head[k..] + "?" + query)
      && forall q :: AfterType(head + "?" + q, HOTP_PREFIX) == Some(head[k..] + "?" + q)
    ensures '?' !in head
  {
    hide ParseHotp, AfterType, IndexOf, SplitOnce;
    HasQuery(uri);
    var rest := AfterType(uri, HOTP_PREFIX).value;
    var n := |uri| - |rest|;
    var i := IndexOf(rest, '?');
    FoundAt(rest);
    TypePart(uri);
    head, query := SplitAfter(uri, n, i);
    forall q
      ensures AfterType(head + "?" + q, HOTP_PREFIX) == Some(head[n..] + "?" + q)
    {
      SameType(uri, head, n, q);
    }
  }

  /** The first `?` of what follows a plain prefix is the first one of all. */
  lemma SplitAfter(uri: string, n: nat, i: nat) returns (head: string, query: string)
    requires n <= |uri| && i == IndexOf(uri[n..], '?') && i < |uri[n..]|
    requires forall k :: 0 <= k < n ==> uri[k] != '?'
    ensures SplitOnce(uri, '?') == Some((head, query)) && |head| == n + i && head < uri && uri[|head|] == '?'
    ensures uri == head + "?" + query && uri[n..] == head[n..] + "?" + query && '?' !in head
  {
    hide IndexOf;
    var j := n + i;
    FirstMark(uri, n, i);
    head, query := uri[..j], uri[j + 1..];
    Cut(uri, j);
    Suffixes(uri, n, j);
    assert forall k :: 0 <= k < j ==> head[k] == uri[k];
  }

  lemma FirstMark(uri: string, n: nat, i: nat)
    requires n <= |uri| && i == IndexOf(uri[n..], '?') && i < |uri[n..]|
    requires forall k :: 0 <= k < n ==> uri[k] != '?'
    ensures IndexOf(uri, '?') == n + i && uri[n + i] == '?'
    ensures forall k :: 0 <= k < n + i ==> uri[k] != '?'
  {
    hide IndexOf;
    var rest := uri[n..];
    assert forall k :: n <= k < n + i ==> uri[k] == rest[k - n];
    IndexOfAt(uri, '?', n + i);
  }

  lemma Suffixes(uri: string, n: nat, j: nat)
    requires n <= j < |uri|
    ensures uri[n..] == uri[..j][n..] + [uri[j]] + uri[j + 1..]
  {
  }

  lemma HasQuery(uri: string)
    requires ParseHotp(uri).Ok?
    ensures AfterType(uri, HOTP_PREFIX).Some? && SplitOnce(AfterType(uri, HOTP_PREFIX).value, '?').Some?
  {
    hide ReadAll, FinishHotp, IndexOf, Split;
    NoPairs(AfterType(uri, HOTP_PREFIX).value);
  }

  lemma FoundAt(s: string)
    requires SplitOnce(s, '?').Some?
    ensures IndexOf(s, '?') < |s| && s[IndexOf(s, '?')] == '?'
  {
  }

  lemma PrefixPlain()
    ensures '?' !in "otpauth://hotp/" && HOTP_PREFIX + "/" == "otpauth://hotp/"
  {
  }

  /** What `AfterType` strips: the type, and a slash if one follows. */
  lemma TypePart(uri: string)
    requires AfterType(uri, HOTP_PREFIX).Some?
    ensures var n := |uri| - |AfterType(uri, HOTP_PREFIX).value|;
      && 14 <= n <= 15 && n <= |uri| && AfterType(uri, HOTP_PREFIX).value == uri[n..]
      && (n == 15 <==> "otpauth://hotp/" <= uri) && "otpauth://hotp" <= uri
      && forall k :: 0 <= k < n ==> uri[k] != '?'
  {
    PrefixPlain();
    assert "otpauth://hotp" <= uri;
    assert forall k :: 0 <= k < 14 ==> uri[k] == "otpauth://hotp"[k];
  }

  lemma SameType(uri: string, head: string, n: nat, q: string)
    requires AfterType(uri, HOTP_PREFIX).Some? && n == |uri| - |AfterType(uri, HOTP_PREFIX).value|
    requires head < uri && n <= |head| && uri[|head|] == '?'
    ensures AfterType(head + "?" + q, HOTP_PREFIX) == Some(head[n..] + "?" + q)
  {
    TypePart(uri);
    PrefixPlain();
    var y := head + "?" + q;
    assert forall k :: 0 <= k <= |head| ==> y[k] == uri[k];
    if n == 15 {
      assert "otpauth://hotp/" <= y;
    } else {
      SlashAt(uri);
      assert y[14] != '/';
      assert "otpauth://hotp" <= y && !("otpauth://hotp/" <= y);
    }
    assert y[n..] == head[n..] + "?" + q;
  }

  lemma SlashAt(uri: string)
    requires "otpauth://hotp" < uri
    ensures "otpauth://hotp/" <= uri <==> uri[14] == '/'
  {
    if uri[14] == '/' {
      assert uri[..15] == "otpauth://hotp/";
    }
  }

  lemma NothingRead()
    ensures ReadAll(HotpKind, NO_PARAMS, Split("", '&')) == Ok(NO_PARAMS)
  {
    assert Split("", '&') == [""];
    assert [""][1..] == [];
  }

  lemma NoPairs(rest: string)
    requires var (name, pairs) := LabelAndPairs(rest);
      && ReadAll(HotpKind, NO_PARAMS, pairs).Ok?
      && FinishHotp(ReadAll(HotpKind, NO_PARAMS, pairs).value, name).Ok?
    ensures SplitOnce(rest, '?').Some?
  {
    NothingRead();
  }

  lemma CounterText(uri: string, head: string, query: string, j: nat)
    requires ParseHotp(uri).Ok? && SplitOnce(uri, '?') == Some((head, query))
    requires j == First(Split(query, '&'), 0, IsCounter)
    ensures var pairs := Split(query, '&');
      && j < |pairs| && pairs[j] == KeyOf(pairs[j]) + "=" + ValueOf(pairs[j])
      && ValueOf(pairs[j]) != "" && Ascii(ValueOf(pairs[j]))
      && '\n' !in ValueOf(pairs[j]) && '\r' !in ValueOf(pairs[j])
      && Decimal.Parse(ValueOf(pairs[j]), Decimal.U64_MAX).Some?
      && (Counters(pairs) == 1 ==>
            Decimal.Parse(ValueOf(pairs[j]), Decimal.U64_MAX) == Some(ParseHotp(uri).value.counter))
  {
    hide IsCounter, Split, IndexOf, Read, ReadAll, KeyOf, ValueOf, Counters, AfterType, LabelAndPairs, FinishHotp;
    var pairs := Split(query, '&');
    CounterRead(uri, head, query);
    CountersAt(pairs, 0);
    assert pairs[0..] == pairs;
    var a, x, b := pairs[..j], pairs[j], pairs[j + 1..];
    assert pairs == a + ([x] + b);
    ReadFrom(NO_PARAMS, a, x, b);
    var q := ReadAll(HotpKind, NO_PARAMS, a).value;
    ReadCounterPair(q, x, 0);
    ReadOverCounter(Read(HotpKind, q, x).value, b, None);
    ParsedText(ValueOf(x));
    PairText(x);
  }

  lemma ParsedText(v: string)
    requires Decimal.Parse(v, Decimal.U64_MAX).Some?
    ensures v != "" && Ascii(v) && '\n' !in v && '\r' !in v
  {
    var d := if v[0] == '+' then v[1..] else v;
    assert forall k :: 0 <= k < |v| ==> v[k] == '+' || Decimal.IsDigit(v[k]) by {
      assert v[0] == '+' ==> forall k :: 1 <= k < |v| ==> v[k] == d[k - 1];
    }
  }

  lemma PairText(x: string)
    requires ValueOf(x) != ""
    ensures x == KeyOf(x) + "=" + ValueOf(x)
  {
    hide IndexOf;
    Cut(x, IndexOf(x, '='));
  }

  lemma CounterRead(uri: string, head: string, query: string)
    requires ParseHotp(uri).Ok? && SplitOnce(uri, '?') == Some((head, query))
    ensures ReadAll(HotpKind, NO_PARAMS, Split(query, '&')).Ok? && Counters(Split(query, '&')) > 0
    ensures ReadAll(HotpKind, NO_PARAMS, Split(query, '&')).value.counter == Some(ParseHotp(uri).value.counter)
  {
    hide IsCounter, Split, IndexOf, Read, ReadAll;
    var h, q := HotpParts(uri);
    var k :| 0 <= k <= |h| && AfterType(uri, HOTP_PREFIX) == Some(h[k..] + "?" + q);
    SplitOnceAt(h[k..], '?', q);
    HasCounter(NO_PARAMS, Split(query, '&'));
  }

  // --- advancing ---------------------------------------------------------------

  /** With exactly one counter, a rewritten URI reads as the same configuration at the
      new counter; with several, the last one still decides and nothing advances. */
  lemma RewrittenReads(uri: string, n: nat)
    requires ParseHotp(uri).Ok? && n <= Decimal.U64_MAX
    ensures Counters(PairsOf(uri)) >= 1
    ensures ParseHotp(UriWithCounter(uri, n)) ==
      (if Counters(PairsOf(uri)) == 1 then Ok(ParseHotp(uri).value.(counter := n)) else ParseHotp(uri))
    ensures PairsOf(UriWithCounter(uri, n)) == Rewrite(PairsOf(uri), n)
  {
    hide IsCounter, CounterPair, Split, Join, IndexOf, Read, ReadAll, AfterType, Lower, Counters;
    var head, query := HotpParts(uri);
    var k :| 0 <= k <= |head| && AfterType(uri, HOTP_PREFIX) == Some(head[k..] + "?" + query)
      && forall q :: AfterType(head + "?" + q, HOTP_PREFIX) == Some(head[k..] + "?" + q);
    var pairs := Split(query, '&');
    CounterRead(uri, head, query);
    CountersAt(pairs, 0);
    assert pairs[0..] == pairs;
    var q := Join(Rewrite(pairs, n), '&');
    RewriteSplits(query, n);
    SplitOnceAt(head[k..], '?', query);
    SplitOnceAt(head[k..], '?', q);
    SplitOnceAt(head, '?', q);
    assert UriWithCounter(uri, n) == head + "?" + q;
    ReadRewritten(NO_PARAMS, pairs, n);
  }

  lemma RewriteSplits(query: string, n: nat)
    ensures Split(Join(Rewrite(Split(query, '&'), n), '&'), '&') == Rewrite(Split(query, '&'), n)
  {
    var pairs := Split(query, '&');
    SplitLacks(query, '&');
    var j := First(pairs, 0, IsCounter);
    if j < |pairs| {
      assert '&' !in KeyOf(pairs[j]);
      Decimal.PrintLacks(n, '&');
    }
    SplitJoin(Rewrite(pairs, n), '&');
  }

  lemma {:induction false} CountersSet(pairs: seq<string>, j: nat, y: string)
    requires j < |pairs| && IsCounter(y) == IsCounter(pairs[j])
    ensures Counters(pairs[j := y]) == Counters(pairs)
  {
    hide IsCounter;
    var x, rest := pairs[0], pairs[1..];
    if j == 0 {
      assert pairs[0 := y][1..] == rest;
    } else {
      CountersSet(rest, j - 1, y);
      assert pairs[j := y][1..] == rest[j - 1 := y];
    }
  }

  lemma RewriteTwice(pairs: seq<string>, m: nat, n: nat)
    ensures Rewrite(Rewrite(pairs, m), n) == Rewrite(pairs, n)
    ensures Counters(Rewrite(pairs, m)) == Counters(pairs)
    ensures First(Rewrite(pairs, m), 0, IsCounter) == First(pairs, 0, IsCounter)
  {
    hide IsCounter, KeyOf, Counters, CounterPair;
    var j := First(pairs, 0, IsCounter);
    if j < |pairs| {
      var x, y := pairs[j], CounterPair(pairs[j], m);
      RewrittenPair(x, m);
      FirstIs(pairs[j := y], 0, IsCounter, j);
      CountersSet(pairs, j, y);
      CounterPairIs(x, n);
      CounterPairIs(y, n);
      assert pairs[j := y][j := CounterPair(x, n)] == pairs[j := CounterPair(x, n)];
    }
  }

  lemma RewrittenPair(x: string, m: nat)
    requires IsCounter(x)
    ensures IsCounter(CounterPair(x, m)) && KeyOf(CounterPair(x, m)) == KeyOf(x)
  {
    KeyLacksEquals(x);
    KeyValue(KeyOf(x), Decimal.Print(m));
  }

  /** Rewriting a rewritten URI is rewriting the original. */
  lemma UriTwice(uri: string, m: nat, n: nat)
    requires ParseHotp(uri).Ok?
    ensures UriWithCounter(UriWithCounter(uri, m), n) == UriWithCounter(uri, n)
    ensures Counters(PairsOf(UriWithCounter(uri, m))) == Counters(PairsOf(uri))
  {
    hide IsCounter, CounterPair, Split, Join, IndexOf, ParseHotp, Counters, Rewrite;
    var head, query := HotpParts(uri);
    var pairs := Split(query, '&');
    CounterFound(uri, head, query);
    RewriteTwice(pairs, m, n);
    RewriteSplits(query, m);
    SplitOnceAt(head, '?', Join(Rewrite(pairs, m), '&'));
    RewriteSize(pairs, m);
  }

  lemma CounterFound(uri: string, head: string, query: string)
    requires ParseHotp(uri).Ok? && SplitOnce(uri, '?') == Some((head, query))
    ensures First(Split(query, '&'), 0, IsCounter) < |Split(query, '&')|
  {
    hide IsCounter, Split, ParseHotp;
    CounterRead(uri, head, query);
    CountersAt(Split(query, '&'), 0);
    assert Split(query, '&')[0..] == Split(query, '&');
  }

  lemma RewriteSize(pairs: seq<string>, m: nat)
    ensures |Rewrite(pairs, m)| == |pairs|
  {
  }

  datatype Advanced = Advanced(step: HotpStep, raw: string)

  lemma ParsedDigits(uri: string)
    requires ParseHotp(uri).Ok?
    ensures 1 <= ParseHotp(uri).value.digits <= 10
  {
    hide ReadAll, LabelAndPairs;
  }

  /** The code of a configuration whose digits the reader accepts. */
  function CodeFor(h: Hotp, counter: nat, mac: Mac, checked: bool): string
    requires 1 <= h.digits <= 10
  {
    CodeIs(mac(h.algorithm, h.secret, ToBytes(counter, 8)), h.digits, checked);
    CodeAt(mac, h.algorithm, h.secret, h.digits, counter, checked).value
  }

  /** A step to `counter`: its code is that of the MAC of the counter's eight bytes. */
  ghost predicate IsStep(step: HotpStep, h: Hotp, counter: nat, mac: Mac) {
    && step.counter == counter
    && forall message :: |message| == 8 && BigEndian(message) == counter ==>
         IsCode(step.code, mac(h.algorithm, h.secret, message), h.digits)
  }

  lemma StepIs(h: Hotp, counter: nat, mac: Mac, checked: bool)
    requires 1 <= h.digits <= 10
    ensures IsStep(HotpStep(CodeFor(h, counter, mac, checked), counter), h, counter, mac)
  {
    hide IsCode, BigEndian, ToBytes, CodeAt;
    forall message | |message| == 8 && BigEndian(message) == counter
      ensures IsCode(CodeFor(h, counter, mac, checked), mac(h.algorithm, h.secret, message), h.digits)
    {
      CodeAtIs(mac, h.algorithm, h.secret, h.digits, message, checked);
    }
  }

  /** hotp.rs `advance_entry` on the entry's bytes. */
  function Advance(raw: string, mac: Mac, checked: bool): Result<Advanced, OtpError> {
    match Otpauth(raw)
    case None => Err(NotHotpUri)
    case Some(uri) =>
      match ParseHotp(uri)
      case Err(e) => Err(e)
      case Ok(h) =>
        ParsedDigits(uri);
        if h.counter + 1 > Decimal.U64_MAX then Err(BadNumber("counter overflow"))
        else Ok(Advanced(HotpStep(CodeFor(h, h.counter + 1, mac, checked), h.counter + 1),
                         SetOtpauthText(raw, UriWithCounter(uri, h.counter + 1))))
  }

  /** One advance of an entry that holds an HOTP line: an error only where the counter is the
      last there is, otherwise the next counter, its code, and the URI rewritten to it. */
  lemma AdvanceIs(raw: string, uri: string, h: Hotp, mac: Mac, checked: bool)
    requires HoldsHotp(raw, uri, h)
    ensures if h.counter == Decimal.U64_MAX then Advance(raw, mac, checked) == Err(BadNumber("counter overflow"))
      else Advance(raw, mac, checked).Ok? && var a := Advance(raw, mac, checked).value;
        IsStep(a.step, h, h.counter + 1, mac) && a.raw == SetOtpauthText(raw, UriWithCounter(uri, h.counter + 1))
  {
    hide ParseHotp, UriWithCounter, SetOtpauthText, Otpauth, IsStep, CodeFor;
    ParsedDigits(uri);
    ParsedCounter(uri);
    StepIs(h, h.counter + 1, mac, checked);
  }

  lemma ParsedCounter(uri: string)
    requires ParseHotp(uri).Ok?
    ensures ParseHotp(uri).value.counter <= Decimal.U64_MAX
  {
    hide Read, LabelAndPairs, AfterType;
    var (name, pairs) := LabelAndPairs(AfterType(uri, HOTP_PREFIX).value);
    ReadBounded(NO_PARAMS, pairs);
  }

  ghost predicate Bounded(p: Params) {
    p.counter.Some? ==> p.counter.value <= Decimal.U64_MAX
  }

  lemma {:induction false} ReadBounded(p: Params, pairs: seq<string>)
    requires Bounded(p)
    ensures ReadAll(HotpKind, p, pairs).Ok? ==> Bounded(ReadAll(HotpKind, p, pairs).value)
    decreases |pairs|
  {
    hide Read;
    if pairs != [] && Read(HotpKind, p, pairs[0]).Ok? {
      ReadOneBounded(p, pairs[0]);
      ReadBounded(Read(HotpKind, p, pairs[0]).value, pairs[1..]);
    }
  }

  lemma ReadOneBounded(p: Params, pair: string)
    requires Bounded(p)
    ensures Read(HotpKind, p, pair).Ok? ==> Bounded(Read(HotpKind, p, pair).value)
  {
    hide Names, Base32.Decode, ReadAlgorithm, Decimal.Parse, ValueOf;
  }

  /** A failing call changes no byte. */
  method AdvanceEntry(entry: Entry, mac: Mac, checked: bool) returns (r: Result<HotpStep, OtpError>)
    modifies entry
    ensures match Advance(old(entry.raw), mac, checked)
      case Err(e) => r == Err(e) && entry.raw == old(entry.raw)
      case Ok(a) => r == Ok(a.step) && entry.raw == a.raw
  {
    hide Otpauth, ParseHotp, UriWithCounter, SetOtpauthText;
    var uri := entry.OtpauthOf();
    if uri.None? {
      return Err(NotHotpUri);
    }
    var parsed := HotpFromUri(uri.value);
    match parsed
    case Err(e) => return Err(e);
    case Ok(h) =>
      if h.counter + 1 > Decimal.U64_MAX {
        return Err(BadNumber("counter overflow"));
      }
      ParsedDigits(uri.value);
      var step := HotpStep(CodeFor(h, h.counter + 1, mac, checked), h.counter + 1);
      var rewritten := RewriteCounter(uri.value, step.counter);
      entry.SetOtpauth(rewritten);
      return Ok(step);
  }

  /** `k` advances in a row: the steps, and the bytes at the end. */
  function AdvanceAll(raw: string, mac: Mac, checked: bool, k: nat): Result<(seq<HotpStep>, string), OtpError>
    decreases k
  {
    if k == 0 then Ok(([], raw))
    else match Advance(raw, mac, checked)
      case Err(e) => Err(e)
      case Ok(a) =>
        match AdvanceAll(a.raw, mac, checked, k - 1)
        case Err(e) => Err(e)
        case Ok((steps, out)) => Ok(([a.step] + steps, out))
  }

  /** The entry's first URI is an HOTP line that reads as `h`. */
  ghost predicate HoldsHotp(raw: string, uri: string, h: Hotp) {
    Otpauth(raw) == Some(uri) && ParseHotp(uri) == Ok(h)
  }

  lemma RewriteFits(raw: string, uri: string, h: Hotp, n: nat)
    requires HoldsHotp(raw, uri, h)
    ensures var x := UriWithCounter(uri, n); var ls := Lines(raw); var k := First(ls, 0, IsUri);
      && k < |ls| && IsUri(x) && '\n' !in x && IsUtf8(x)
      && (Tail(ls[k]) == "" ==> StripCr(x) == x)
  {
    hide ParseHotp, UriWithCounter, Lines, IsUtf8, Decimal.Print, IsUri, StripCr, First;
    var ls := Lines(raw);
    var k := First(ls, 0, IsUri);
    UriLine(raw, uri);
    var a := CounterBytes(uri);
    var p := Decimal.Print(n);
    PrintPlain(n);
    Replaced(a.pre, a.digits, p, a.post);
    StillUri(a.pre, p, a.post);
    NoBreak(a.pre, a.digits, p, a.post);
    if Tail(ls[k]) == "" {
      LastChar(a.pre, a.digits, p, a.post);
    }
  }

  /** The line the URI was read from. */
  lemma UriLine(raw: string, uri: string)
    requires Otpauth(raw) == Some(uri)
    ensures var ls := Lines(raw); var k := First(ls, 0, IsUri);
      && k < |ls| && uri == StripCr(ls[k]) && '\n' !in uri && IsUtf8(uri)
      && (Tail(ls[k]) == "" ==> StripCr(uri) == uri)
  {
    hide Lines, IsUtf8, IsUri;
    LinesClean(raw);
  }

  lemma StillUri(pre: string, p: string, post: string)
    requires "otpauth://hotp" <= pre
    ensures IsUri(pre + p + post)
  {
    assert OTPAUTH_PREFIX <= "otpauth://hotp";
    PrefixThen("otpauth://hotp", pre, p + post);
    assert pre + (p + post) == pre + p + post;
  }

  lemma NoBreak(pre: string, d: string, p: string, post: string)
    requires '\n' !in pre + d + post && '\n' !in p
    ensures '\n' !in pre + p + post
  {
    var x := pre + d + post;
    assert forall i :: 0 <= i < |pre| ==> pre[i] == x[i];
    assert forall i :: 0 <= i < |post| ==> post[i] == x[|pre + d| + i];
  }

  lemma PrintPlain(n: nat)
    ensures Decimal.Print(n) != "" && Ascii(Decimal.Print(n))
    ensures '\n' !in Decimal.Print(n) && '\r' !in Decimal.Print(n)
  {
    Decimal.PrintLacks(n, '\n');
    Decimal.PrintLacks(n, '\r');
  }

  /** ASCII digits for ASCII digits keep the text well-formed. */
  lemma Replaced(pre: string, d: string, p: string, post: string)
    requires IsUtf8(pre + d + post) && d != "" && Ascii(d) && Ascii(p)
    ensures IsUtf8(pre + p + post)
  {
    hide IsUtf8;
    assert pre + d + post == pre + [d[0]] + (d[1..] + post);
    AsciiBoundary(pre, d[0], d[1..] + post);
    AsciiIsUtf8(d[1..]);
    Concat(d[1..], post);
    AsciiIsUtf8(p);
    Concat(p, post);
    Concat(pre, p + post);
    assert pre + (p + post) == pre + p + post;
  }

  lemma LastChar(pre: string, d: string, p: string, post: string)
    requires d != "" && p != "" && '\r' !in p && StripCr(pre + d + post) == pre + d + post
    ensures StripCr(pre + p + post) == pre + p + post
  {
    var x, y := pre + d + post, pre + p + post;
    if post == "" {
      assert y[|y| - 1] == p[|p| - 1];
    } else {
      assert y[|y| - 1] == post[|post| - 1] == x[|x| - 1];
    }
  }

  /** One advance, when the URI has exactly one counter. */
  lemma AdvanceOnce(raw: string, uri: string, h: Hotp, n: nat)
    requires HoldsHotp(raw, uri, h) && Counters(PairsOf(uri)) == 1 && n <= Decimal.U64_MAX
    ensures var x := UriWithCounter(uri, n); var next := SetOtpauthText(raw, x);
      && HoldsHotp(next, x, h.(counter := n)) && Counters(PairsOf(x)) == 1
      && forall m :: SetOtpauthText(next, UriWithCounter(x, m)) == SetOtpauthText(raw, UriWithCounter(uri, m))
  {
    hide ParseHotp, UriWithCounter, SetOtpauthText, Counters, PairsOf, Otpauth, Lines, IsUtf8, IsUri, Tail, StripCr;
    var x := UriWithCounter(uri, n);
    RewriteFits(raw, uri, h, n);
    SetOtpauthReads(raw, x);
    RewrittenReads(uri, n);
    UriTwice(uri, n, 0);
    forall m
      ensures SetOtpauthText(SetOtpauthText(raw, x), UriWithCounter(x, m)) == SetOtpauthText(raw, UriWithCounter(uri, m))
    {
      UriTwice(uri, n, m);
    }
  }

  /** Any run of advances, up to the last counter there is, hands out the codes of the next
      counters in order, never one twice, and leaves the original bytes with only the counter's
      digits changed. */
  lemma {:induction false} AdvanceRun(raw: string, uri: string, h: Hotp, mac: Mac, checked: bool, k: nat)
    requires HoldsHotp(raw, uri, h) && Counters(PairsOf(uri)) == 1
    ensures AdvanceAll(raw, mac, checked, k).Ok? <==> h.counter + k <= Decimal.U64_MAX
    ensures AdvanceAll(raw, mac, checked, k).Ok? ==> var (steps, out) := AdvanceAll(raw, mac, checked, k).value;
      && |steps| == k
      && (forall i :: 0 <= i < k ==> IsStep(steps[i], h, h.counter + 1 + i, mac))
      && out == if k == 0 then raw else SetOtpauthText(raw, UriWithCounter(uri, h.counter + k))
    decreases k
  {
    hide ParseHotp, UriWithCounter, SetOtpauthText, Counters, PairsOf, Otpauth, IsCode, BigEndian, Advance;
    ParsedCounter(uri);
    AdvanceIs(raw, uri, h, mac, checked);
    if k > 0 && h.counter < Decimal.U64_MAX {
      var n := h.counter + 1;
      var x := UriWithCounter(uri, n);
      AdvanceOnce(raw, uri, h, n);
      AdvanceRun(SetOtpauthText(raw, x), x, h.(counter := n), mac, checked, k - 1);
    }
  }

  /** The bytes of an advanced entry: the original with other digits. */
  lemma AdvanceBytes(raw: string, uri: string, h: Hotp) returns (a: Around)
    requires HoldsHotp(raw, uri, h)
    ensures raw == a.pre + a.digits + a.post && a.digits != ""
    ensures Counters(PairsOf(uri)) == 1 ==> Decimal.Parse(a.digits, Decimal.U64_MAX) == Some(h.counter)
    ensures forall n :: SetOtpauthText(raw, UriWithCounter(uri, n)) == a.pre + Decimal.Print(n) + a.post
  {
    hide ParseHotp, UriWithCounter, Split, Join, Before, After, IsUtf8, Decimal.Print, Decimal.Parse;
    var ls := Lines(raw);
    var k := First(ls, 0, IsUri);
    var c := CounterBytes(uri);
    var before, after := Before(ls[..k], '\n'), After(ls[k + 1..], '\n');
    var t := Tail(ls[k]);
    JoinSplit(raw, '\n');
    JoinAround(ls, '\n', k, uri + t);
    assert ls[k] == uri + t;
    assert ls[k := uri + t] == ls;
    a := Around(before + c.pre, c.digits, c.post + t + after);
    Reassoc(before, c.pre, c.digits, c.post, t, after);
    forall n
      ensures SetOtpauthText(raw, UriWithCounter(uri, n)) == a.pre + Decimal.Print(n) + a.post
    {
      var x := UriWithCounter(uri, n);
      JoinAround(ls, '\n', k, x + t);
      Reassoc(before, c.pre, Decimal.Print(n), c.post, t, after);
    }
  }

  lemma Reassoc(before: string, pre: string, d: string, post: string, t: string, after: string)
    ensures before + (pre + d + post + t) + after == (before + pre) + d + (post + t + after)
  {
  }

  /** A second counter parameter is what breaks it: the stored counter then advances
      exactly when there is one, otherwise the same code is handed out again. */
  lemma AdvancesIffOneCounter(raw: string, uri: string, h: Hotp, mac: Mac, checked: bool)
    requires HoldsHotp(raw, uri, h) && h.counter + 2 <= Decimal.U64_MAX
    ensures Advance(raw, mac, checked).Ok? && Advance(Advance(raw, mac, checked).value.raw, mac, checked).Ok?
    ensures var a := Advance(raw, mac, checked).value; var b := Advance(a.raw, mac, checked).value;
      && IsStep(a.step, h, h.counter + 1, mac)
      && (b.step.counter == a.step.counter + 1 <==> Counters(PairsOf(uri)) == 1)
      && (b.step == a.step <==> Counters(PairsOf(uri)) != 1)
  {
    hide ParseHotp, UriWithCounter, SetOtpauthText, Counters, PairsOf, Otpauth, Lines, IsUtf8, IsUri, Tail, StripCr;
    var n := h.counter + 1;
    var x := UriWithCounter(uri, n);
    AdvanceIs(raw, uri, h, mac, checked);
    RewriteFits(raw, uri, h, n);
    SetOtpauthReads(raw, x);
    RewrittenReads(uri, n);
  }

  /** The pairs of a line that names its counter twice. */
  function DoubledPairs(secret: seq<u8>, n: nat, m: nat): seq<string> {
    [SecretPair(secret), "counter=" + Decimal.Print(n), "counter=" + Decimal.Print(m)]
  }

  function DoubledUri(secret: seq<u8>, n: nat, m: nat): string {
    "otpauth://hotp/?" + Join(DoubledPairs(secret, n, m), '&')
  }

  lemma ReadDoubled(secret: seq<u8>, n: nat, m: nat)
    requires n <= Decimal.U64_MAX && m <= Decimal.U64_MAX
    ensures ReadAll(HotpKind, NO_PARAMS, DoubledPairs(secret, n, m))
         == Ok(NO_PARAMS.(secret := Some(secret), counter := Some(m)))
  {
    hide Read, ReadAll, Decimal.Print, Base32.Encode;
    var x, y := "counter=" + Decimal.Print(n), "counter=" + Decimal.Print(m);
    var p := NO_PARAMS.(secret := Some(secret));
    ReadSecret(HotpKind, NO_PARAMS, secret);
    ReadOne(HotpKind, NO_PARAMS, SecretPair(secret));
    ReadCounter(p, n);
    ReadCounter(p.(counter := Some(n)), m);
    ReadConcat(HotpKind, NO_PARAMS, [SecretPair(secret)], [x] + [y]);
    ReadConcat(HotpKind, p, [x], [y]);
    assert DoubledPairs(secret, n, m) == [SecretPair(secret)] + ([x] + [y]);
  }

  lemma CountDoubled(secret: seq<u8>, n: nat, m: nat)
    ensures Counters(DoubledPairs(secret, n, m)) == 2
  {
    hide IsCounter, Decimal.Print, Base32.Encode;
    var x, y := "counter=" + Decimal.Print(n), "counter=" + Decimal.Print(m);
    PairNames(secret, n);
    PairNames(secret, m);
    NoCounters();
    CountFirst(y, []);
    CountFirst(x, [y]);
    CountFirst(SecretPair(secret), [x] + [y]);
    assert [y] + [] == [y] && DoubledPairs(secret, n, m) == [SecretPair(secret)] + ([x] + [y]);
  }

  lemma CountFirst(x: string, rest: seq<string>)
    ensures Counters([x] + rest) == (if IsCounter(x) then 1 else 0) + Counters(rest)
  {
    hide IsCounter;
    assert ([x] + rest)[1..] == rest;
  }

  lemma PairNames(secret: seq<u8>, n: nat)
    ensures !IsCounter(SecretPair(secret)) && IsCounter("counter=" + Decimal.Print(n))
  {
    hide Decimal.Print, Base32.Encode, Lower;
    Keys();
    KeyValue("secret", Base32.Encode(secret));
    KeyValue("counter", Decimal.Print(n));
    assert "secret" + "=" + Base32.Encode(secret) == SecretPair(secret);
    assert "counter" + "=" + Decimal.Print(n) == "counter=" + Decimal.Print(n);
  }

  /** Printable text without line ends. */
  predicate OneLine(s: string) {
    Ascii(s) && '\n' !in s && '\r' !in s
  }

  lemma OneLineConcat(a: string, b: string)
    requires OneLine(a) && OneLine(b)
    ensures OneLine(a + b)
  {
  }

  lemma PairLine(secret: seq<u8>, n: nat)
    ensures OneLine(SecretPair(secret)) && '&' !in SecretPair(secret)
    ensures OneLine("counter=" + Decimal.Print(n)) && '&' !in "counter=" + Decimal.Print(n)
  {
    hide Decimal.Print, Base32.Encode;
    Base32.EncodePlain(secret);
    OneLineConcat("secret=", Base32.Encode(secret));
    OneLineConcat("counter=", Decimal.Print(n));
  }

  lemma DoubledText(secret: seq<u8>, n: nat, m: nat)
    ensures Lacks(DoubledPairs(secret, n, m), '&') && OneLine(DoubledUri(secret, n, m))
  {
    hide Decimal.Print, SecretPair, OneLine, Join;
    var a, x, y := SecretPair(secret), "counter=" + Decimal.Print(n), "counter=" + Decimal.Print(m);
    PairLine(secret, n);
    PairLine(secret, m);
    PairList(a, x, y);
    assert OneLine("otpauth://hotp/?") && OneLine("&") by { Marks(); }
    OneLineConcat("otpauth://hotp/?", a);
    OneLineConcat("otpauth://hotp/?" + a, "&");
    OneLineConcat("otpauth://hotp/?" + a + "&", x);
    OneLineConcat("otpauth://hotp/?" + a + "&" + x, "&");
    OneLineConcat("otpauth://hotp/?" + a + "&" + x + "&", y);
    Associates("otpauth://hotp/?", a, x, y);
  }

  lemma Associates(p: string, a: string, x: string, y: string)
    ensures p + a + "&" + x + "&" + y == p + (a + "&" + (x + "&" + y))
  {
  }

  lemma Marks()
    ensures OneLine("otpauth://hotp/?") && OneLine("&")
  {
  }

  lemma PairList(a: string, x: string, y: string)
    ensures Join([a, x, y], '&') == a + "&" + (x + "&" + y)
  {
    JoinCons(a, [x, y], '&');
    JoinCons(x, [y], '&');
    assert [a] + [x, y] == [a, x, y] && [x] + [y] == [x, y] && Join([y], '&') == y;
  }

  lemma ParseDoubled(secret: seq<u8>, n: nat, m: nat)
    requires secret != [] && n <= Decimal.U64_MAX && m <= Decimal.U64_MAX
    ensures PairsOf(DoubledUri(secret, n, m)) == DoubledPairs(secret, n, m)
    ensures ParseHotp(DoubledUri(secret, n, m)) == Ok(Hotp(secret, Sha1, DEFAULT_DIGITS, m, "", None))
  {
    hide ReadAll, Split, Join, DoubledPairs, DoubledUri, AfterType, SplitOnce;
    var pairs := DoubledPairs(secret, n, m);
    var query := Join(pairs, '&');
    DoubledText(secret, n, m);
    ReadDoubled(secret, n, m);
    assert |pairs| == 3 by { PairCount(secret, n, m); }
    SplitJoin(pairs, '&');
    DoubledParts(secret, n, m);
    SplitOnceAt("", '?', query);
    assert "" + ['?'] + query == "?" + query;
    DecodeNothing();
  }

  lemma DecodeNothing()
    ensures Percent.Decode("") == ""
  {
  }

  lemma DoubledParts(secret: seq<u8>, n: nat, m: nat)
    ensures var query := Join(DoubledPairs(secret, n, m), '&');
      && AfterType(DoubledUri(secret, n, m), HOTP_PREFIX) == Some("?" + query)
      && SplitOnce(DoubledUri(secret, n, m), '?') == Some(("otpauth://hotp/", query))
  {
    hide Join, DoubledPairs, IndexOf, AfterType;
    var query := Join(DoubledPairs(secret, n, m), '&');
    SplitOnceAt("otpauth://hotp/", '?', query);
    assert DoubledUri(secret, n, m) == "otpauth://hotp/" + "?" + query == HOTP_PREFIX + "/" + ("?" + query);
    AfterSlash(HOTP_PREFIX, DoubledUri(secret, n, m), "?" + query);
  }

  lemma PairCount(secret: seq<u8>, n: nat, m: nat)
    ensures |DoubledPairs(secret, n, m)| == 3
  {
  }

  /** Such a line, whatever its key and its two counters: the first is rewritten, the
      second is read, and every advance hands out the same code. */
  lemma SameCodeTwice(secret: seq<u8>, n: nat, m: nat, mac: Mac, checked: bool)
    requires secret != [] && n <= Decimal.U64_MAX && m + 2 <= Decimal.U64_MAX
    ensures var raw := DoubledUri(secret, n, m);
      && HoldsHotp(raw, raw, Hotp(secret, Sha1, DEFAULT_DIGITS, m, "", None))
      && Advance(raw, mac, checked).Ok? && Advance(Advance(raw, mac, checked).value.raw, mac, checked).Ok?
      && Advance(Advance(raw, mac, checked).value.raw, mac, checked).value.step == Advance(raw, mac, checked).value.step
  {
    hide ParseHotp, PairsOf, DoubledUri, DoubledPairs, Advance, Counters, IsUtf8;
    var raw := DoubledUri(secret, n, m);
    ParseDoubled(secret, n, m);
    CountDoubled(secret, n, m);
    OnlyLine(secret, n, m);
    AdvancesIffOneCounter(raw, raw, Hotp(secret, Sha1, DEFAULT_DIGITS, m, "", None), mac, checked);
  }

  lemma OnlyLine(secret: seq<u8>, n: nat, m: nat)
    ensures Otpauth(DoubledUri(secret, n, m)) == Some(DoubledUri(secret, n, m))
  {
    hide DoubledPairs, IsUtf8;
    var raw := DoubledUri(secret, n, m);
    DoubledText(secret, n, m);
    AsciiIsUtf8(raw);
    SplitJoin([raw], '\n');
    assert "otpauth://hotp/?" <= raw;
  }
}
