/** The password generator (generate.rs): rejection sampling of 32-bit draws, and the
    counting argument that every acceptable password is equally likely. */
module Generate {
  import opened Text
  import Decimal

  datatype SymbolSet = NoSymbols | Basic | Full

  datatype Spec = Spec(length: nat, lowercase: bool, uppercase: bool, digits: bool, symbols: SymbolSet)

  datatype GenerateError = BadLength | NoClasses | Entropy

  const MIN_LENGTH: nat := 8
  const MAX_LENGTH: nat := 128
  const LOWERCASE: string := "abcdefghijklmnopqrstuvwxyz"
  const UPPERCASE: string := "ABCDEFGHIJKLMNOPQRSTUVWXYZ"
  const DIGITS: string := "0123456789"
  const SYMBOLS_FULL: string := "!\"#$%&'()*+,-./:;<=>?@[\\]^_`{|}~"
  const SYMBOLS_BASIC: string := "!#$%&()*+,-.=?@_"

  function SymbolChars(s: SymbolSet): string {
    match s case NoSymbols => "" case Basic => SYMBOLS_BASIC case Full => SYMBOLS_FULL
  }

  function When(on: bool, class_: string): seq<string> {
    if on then [class_] else []
  }

  /** Enabled classes in alphabet order. */
  function Classes(spec: Spec): seq<string> {
    When(spec.lowercase, LOWERCASE) + When(spec.uppercase, UPPERCASE) + When(spec.digits, DIGITS)
    + When(spec.symbols != NoSymbols, SymbolChars(spec.symbols))
  }

  method ClassesOf(spec: Spec) returns (out: seq<string>)
    ensures out == Classes(spec)
  {
    out := [];
    if spec.lowercase {
      out := out + [LOWERCASE];
    }
    if spec.uppercase {
      out := out + [UPPERCASE];
    }
    if spec.digits {
      out := out + [DIGITS];
    }
    match spec.symbols
    case NoSymbols =>
    case Basic => out := out + [SYMBOLS_BASIC];
    case Full => out := out + [SYMBOLS_FULL];
  }

  function Concat(classes: seq<string>): string {
    if classes == [] then "" else classes[0] + Concat(classes[1..])
  }

  function Alphabet(spec: Spec): string {
    Concat(Classes(spec))
  }

  function Validate(spec: Spec): Option<GenerateError> {
    if !(MIN_LENGTH <= spec.length <= MAX_LENGTH) then Some(BadLength)
    else if Classes(spec) == [] then Some(NoClasses)
    else None
  }

  // --- sampling ----------------------------------------------------------------

  /** The largest multiple of `n` not above the largest draw. */
  function Limit(n: nat): nat
    requires n > 0
  {
    Decimal.U32_MAX - Decimal.U32_MAX % n
  }

  lemma LimitIs(n: nat)
    requires 0 < n <= Decimal.U32_MAX
    ensures 0 < Limit(n) <= Decimal.U32_MAX
    ensures Limit(n) % n == 0 && Limit(n) == Times(n, Share(n)) && Share(n) > 0
    ensures Limit(n) + n > Decimal.U32_MAX
  {
    var q := Decimal.U32_MAX / n;
    assert Limit(n) == n * q;
    Multiple(n, q);
  }

  /** How many draws give each character. */
  function Share(n: nat): nat
    requires n > 0
  {
    Limit(n) / n
  }

  lemma MulAtLeast(n: nat, d: int)
    ensures d >= 1 ==> n * d >= n
    ensures d <= -1 ==> n * d <= 0 - n
  {
  }

  lemma DivModAre(c: nat, n: nat, q: nat, r: nat)
    requires r < n && c == n * q + r
    ensures c / n == q && c % n == r
  {
    var q', r' := c / n, c % n;
    assert c == n * q' + r';
    assert n * (q' - q) == r - r';
    MulAtLeast(n, q' - q);
  }

  lemma Multiple(n: nat, q: nat)
    requires n > 0
    ensures n * q % n == 0 && n * q / n == q
  {
    DivModAre(n * q, n, q, 0);
  }

  /** The draws that are kept, in order. */
  function Kept(draws: seq<nat>, limit: nat): seq<nat> {
    if draws == [] then []
    else (if draws[0] < limit then [draws[0]] else []) + Kept(draws[1..], limit)
  }

  function Image(v: seq<nat>, alphabet: string): (w: string)
    requires alphabet != ""
    ensures |w| == |v|
  {
    seq(|v|, i requires 0 <= i < |v| => alphabet[v[i] % |alphabet|])
  }

  predicate HasOne(w: string, class_: string) {
    exists i :: 0 <= i < |w| && w[i] in class_
  }

  predicate Covers(w: string, classes: seq<string>) {
    forall k :: 0 <= k < |classes| ==> HasOne(w, classes[k])
  }

  /** Blocks of kept draws, one after another, until one covers every class. */
  function Search(spec: Spec, kept: seq<nat>): Result<string, GenerateError>
    requires spec.length > 0 && Alphabet(spec) != ""
    decreases |kept|
  {
    if |kept| < spec.length then Err(Entropy)
    else
      var w := Image(kept[..spec.length], Alphabet(spec));
      if Covers(w, Classes(spec)) then Ok(w) else Search(spec, kept[spec.length..])
  }

  lemma AlphabetNonempty(spec: Spec)
    ensures Classes(spec) != [] <==> Alphabet(spec) != ""
  {
    hide SymbolChars;
    var cs := Classes(spec);
    if cs != [] {
      SymbolCharsNonempty(spec.symbols);
      assert cs[0] != "";
    }
  }

  lemma SymbolCharsNonempty(s: SymbolSet)
    ensures s != NoSymbols ==> SymbolChars(s) != ""
  {
  }

  function Generated(spec: Spec, draws: seq<nat>): Result<string, GenerateError> {
    AlphabetNonempty(spec);
    match Validate(spec)
    case Some(e) => Err(e)
    case None => Search(spec, Kept(draws, Limit(|Alphabet(spec)|)))
  }

  /** The operating system's entropy: 32-bit draws until it fails. */
  class EntropySource {
    const draws: seq<nat>
    var pos: nat

    ghost predicate Valid() reads this { pos <= |draws| }

    ghost function Rest(): seq<nat> reads this requires Valid() { draws[pos..] }

    constructor (draws: seq<nat>)
      ensures Valid() && this.draws == draws && Rest() == draws
    {
      this.draws := draws;
      pos := 0;
    }

    method Fill() returns (v: Option<nat>)
      requires Valid()
      modifies this
      ensures Valid() && pos >= old(pos)
      ensures if old(Rest()) == [] then v == None && Rest() == []
        else v == Some(old(Rest())[0]) && Rest() == old(Rest())[1..] && pos > old(pos)
    {
      if pos == |draws| {
        return None;
      }
      v := Some(draws[pos]);
      pos := pos + 1;
    }
  }

  /** `uniform_index`: draws past the limit are thrown away. */
  method UniformIndex(n: nat, source: EntropySource) returns (index: Option<nat>)
    requires n > 0 && source.Valid()
    modifies source
    ensures source.Valid() && source.pos >= old(source.pos)
    ensures index.Some? ==> index.value < n && source.pos > old(source.pos)
    ensures var kept := Kept(old(source.Rest()), Limit(n));
      if kept == [] then index == None
      else index == Some(kept[0] % n) && Kept(source.Rest(), Limit(n)) == kept[1..]
  {
    hide Limit;
    var limit := Limit(n);
    ghost var s := source.Rest();
    while true
      invariant source.Valid() && source.pos >= old(source.pos)
      invariant Kept(source.Rest(), limit) == Kept(s, limit)
      decreases |source.draws| - source.pos
    {
      var v := source.Fill();
      if v.None? {
        return None;
      }
      if v.value < limit {
        return Some(v.value % n);
      }
    }
  }

  method DrawBlock(length: nat, alphabet: string, source: EntropySource) returns (out: Option<string>)
    requires alphabet != "" && source.Valid()
    modifies source
    ensures source.Valid() && (length > 0 && out.Some? ==> source.pos > old(source.pos))
    ensures var kept := Kept(old(source.Rest()), Limit(|alphabet|));
      if |kept| < length then out == None
      else out == Some(Image(kept[..length], alphabet)) && Kept(source.Rest(), Limit(|alphabet|)) == kept[length..]
  {
    hide Limit, Kept;
    var w := "";
    ghost var kept := Kept(source.Rest(), Limit(|alphabet|));
    for i := 0 to length
      invariant source.Valid() && source.pos >= old(source.pos)
      invariant i > 0 ==> source.pos > old(source.pos)
      invariant i <= |kept| && Kept(source.Rest(), Limit(|alphabet|)) == kept[i..]
      invariant w == Image(kept[..i], alphabet)
    {
      var index := UniformIndex(|alphabet|, source);
      if index.None? {
        return None;
      }
      w := w + [alphabet[index.value]];
    }
    return Some(w);
  }

  /** `generate`. */
  method GeneratePassword(spec: Spec, source: EntropySource) returns (r: Result<string, GenerateError>)
    requires source.Valid()
    modifies source
    ensures r == Generated(spec, old(source.Rest()))
  {
    hide Limit, Kept, Image, Covers, Classes, Alphabet;
    AlphabetNonempty(spec);
    var invalid := Validate(spec);
    if invalid.Some? {
      return Err(invalid.value);
    }
    var classes := ClassesOf(spec);
    var alphabet := Alphabet(spec);
    ghost var limit := Limit(|alphabet|);
    ghost var s := source.Rest();
    while true
      invariant source.Valid()
      invariant Search(spec, Kept(source.Rest(), limit)) == Search(spec, Kept(s, limit))
      decreases |source.draws| - source.pos
    {
      var out := DrawBlock(spec.length, alphabet, source);
      if out.None? {
        return Err(Entropy);
      }
      if Covers(out.value, classes) {
        return Ok(out.value);
      }
    }
  }

  // --- the alphabet has no duplicates ---------------------------------------------

  ghost predicate Increasing(s: string) {
    forall i, j :: 0 <= i < j < |s| ==> s[i] < s[j]
  }

  ghost predicate Distinct(s: string) {
    forall i, j :: 0 <= i < j < |s| ==> s[i] != s[j]
  }

  /** The full set is every printable character that is no letter, digit or space. */
  function FullAt(i: nat): char
    requires i < 32
  {
    if i < 15 then '!' + i as char
    else if i < 22 then ':' + (i - 15) as char
    else if i < 28 then '[' + (i - 22) as char
    else '{' + (i - 28) as char
  }

  lemma FullTable()
    ensures |SYMBOLS_FULL| == 32 && forall i :: 0 <= i < 32 ==> SYMBOLS_FULL[i] == FullAt(i)
  {
  }

  predicate Punctuation(c: char) {
    '!' <= c <= '/' || ':' <= c <= '@' || '[' <= c <= '`' || '{' <= c <= '~'
  }

  lemma FullIncreasing()
    ensures Increasing(SYMBOLS_FULL) && forall i :: 0 <= i < 32 ==> Punctuation(SYMBOLS_FULL[i])
    ensures |SYMBOLS_FULL| == 32
  {
    FullTable();
    var s := SYMBOLS_FULL;
    forall i, j | 0 <= i < j < |s|
      ensures s[i] < s[j]
    {
      assert s[i] == FullAt(i) && s[j] == FullAt(j);
    }
  }

  lemma BasicIncreasing()
    ensures |SYMBOLS_BASIC| == 16
    ensures Increasing(SYMBOLS_BASIC) && forall i :: 0 <= i < 16 ==> Punctuation(SYMBOLS_BASIC[i])
  {
    var s := SYMBOLS_BASIC;
    assert forall i :: 0 <= i < 15 ==> s[i] < s[i + 1];
    Ordered(s);
  }

  lemma Ordered(s: string)
    requires forall i :: 0 <= i < |s| - 1 ==> s[i] < s[i + 1]
    ensures Increasing(s)
  {
    if |s| > 1 {
      var t := s[..|s| - 1];
      Ordered(t);
      forall i, j | 0 <= i < j < |s|
        ensures s[i] < s[j]
      {
        assert i < |t| - 1 ==> t[i] < t[|t| - 1];
        assert j < |t| ==> t[i] < t[j];
      }
    }
  }

  lemma LettersTable()
    ensures |LOWERCASE| == 26 && forall i :: 0 <= i < 26 ==> LOWERCASE[i] == 'a' + i as char
    ensures |UPPERCASE| == 26 && forall i :: 0 <= i < 26 ==> UPPERCASE[i] == 'A' + i as char
  {
    LowerTable();
    UpperTable();
  }

  lemma LowerTable()
    ensures |LOWERCASE| == 26 && forall i :: 0 <= i < 26 ==> LOWERCASE[i] == 'a' + i as char
  {
  }

  lemma UpperTable()
    ensures |UPPERCASE| == 26 && forall i :: 0 <= i < 26 ==> UPPERCASE[i] == 'A' + i as char
  {
  }

  lemma DigitTable()
    ensures |DIGITS| == 10 && forall i :: 0 <= i < 10 ==> DIGITS[i] == '0' + i as char
  {
  }

  ghost predicate Apart(a: string, b: string) {
    forall i, j :: 0 <= i < |a| && 0 <= j < |b| ==> a[i] != b[j]
  }

  lemma DistinctConcat(a: string, b: string)
    requires Distinct(a) && Distinct(b) && Apart(a, b)
    ensures Distinct(a + b)
  {
  }

  lemma ConcatWhen(on: bool, class_: string, rest: seq<string>)
    ensures Concat(When(on, class_) + rest) == (if on then class_ else "") + Concat(rest)
  {
    if on {
      assert ([class_] + rest)[1..] == rest;
    } else {
      assert [] + rest == rest;
    }
  }

  /** Whatever classes are enabled, no character is in the alphabet twice. */
  lemma AlphabetDistinct(spec: Spec)
    ensures Distinct(Alphabet(spec)) && |Alphabet(spec)| <= 94
  {
    hide Concat, When, LOWERCASE, UPPERCASE, DIGITS, SymbolChars, SYMBOLS_BASIC, SYMBOLS_FULL;
    var lo := if spec.lowercase then LOWERCASE else "";
    var up := if spec.uppercase then UPPERCASE else "";
    var di := if spec.digits then DIGITS else "";
    var sy := SymbolChars(spec.symbols);
    AlphabetParts(spec);
    LettersTable();
    DigitTable();
    SymbolsTable(spec.symbols);
    DistinctConcat(lo, up);
    DistinctConcat(lo + up, di);
    DistinctConcat(lo + up + di, sy);
  }

  lemma SymbolsTable(s: SymbolSet)
    ensures Distinct(SymbolChars(s)) && |SymbolChars(s)| <= 32
    ensures forall i :: 0 <= i < |SymbolChars(s)| ==> Punctuation(SymbolChars(s)[i])
  {
    hide SYMBOLS_BASIC, SYMBOLS_FULL;
    FullIncreasing();
    BasicIncreasing();
  }

  lemma AlphabetParts(spec: Spec)
    ensures Alphabet(spec) ==
      (if spec.lowercase then LOWERCASE else "") + (if spec.uppercase then UPPERCASE else "")
      + (if spec.digits then DIGITS else "") + SymbolChars(spec.symbols)
  {
    hide When, Concat, LOWERCASE, UPPERCASE, DIGITS, SYMBOLS_BASIC, SYMBOLS_FULL;
    var a, b, c := When(spec.lowercase, LOWERCASE), When(spec.uppercase, UPPERCASE), When(spec.digits, DIGITS);
    var d := When(spec.symbols != NoSymbols, SymbolChars(spec.symbols));
    ConcatWhen(spec.lowercase, LOWERCASE, b + c + d);
    ConcatWhen(spec.uppercase, UPPERCASE, c + d);
    ConcatWhen(spec.digits, DIGITS, d);
    ConcatWhen(spec.symbols != NoSymbols, SymbolChars(spec.symbols), []);
    assert Concat([]) == "" by { ConcatNone(); }
    assert d + [] == d;
    assert a + b + c + d == a + (b + c + d) && b + c + d == b + (c + d);
  }

  lemma ConcatNone()
    ensures Concat([]) == ""
  {
  }

  // --- counting ----------------------------------------------------------------

  function Power(b: nat, e: nat): nat {
    if e == 0 then 1 else Times(b, Power(b, e - 1))
  }

  function Times(a: nat, b: nat): nat {
    a * b
  }

  function Below(limit: nat): (s: set<nat>)
    ensures forall c: nat :: c in s <==> c < limit
  {
    if limit == 0 then {} else Below(limit - 1) + {limit - 1}
  }

  /** All sequences of one out of `xs` followed by one out of `ys`. */
  function Pairs(xs: set<seq<nat>>, ys: set<seq<nat>>): set<seq<nat>> {
    set x, y | x in xs && y in ys :: x + y
  }

  /** All vectors of `length` kept draws. */
  function Vectors(limit: nat, length: nat): (s: set<seq<nat>>)
    ensures forall v :: v in s <==> |v| == length && forall i :: 0 <= i < |v| ==> v[i] < limit
  {
    if length == 0 then {[]}
    else
      var s := Pairs(set c | c in Below(limit) :: [c], Vectors(limit, length - 1));
      assert forall v: seq<nat> :: |v| == length && (forall i :: 0 <= i < |v| ==> v[i] < limit) ==> v in s by {
        forall v: seq<nat> | |v| == length && forall i :: 0 <= i < |v| ==> v[i] < limit
          ensures v in s
        {
          assert v == [v[0]] + v[1..];
        }
      }
      s
  }

  lemma {:induction false} PairsSize(xs: set<seq<nat>>, ys: set<seq<nat>>, n: nat)
    requires forall x :: x in xs ==> |x| == n
    ensures |Pairs(xs, ys)| == Times(|xs|, |ys|)
    decreases |xs|
  {
    hide Pairs, Times;
    if xs == {} {
      NoPairs(ys);
    } else {
      var x :| x in xs;
      var rest := xs - {x};
      assert rest + {x} == xs;
      PairsSize(rest, ys, n);
      PairsGrow(rest, x, ys, n);
    }
  }

  lemma PairsGrow(rest: set<seq<nat>>, x: seq<nat>, ys: set<seq<nat>>, n: nat)
    requires x !in rest && |x| == n && forall z :: z in rest ==> |z| == n
    requires |Pairs(rest, ys)| == Times(|rest|, |ys|)
    ensures |Pairs(rest + {x}, ys)| == Times(|rest + {x}|, |ys|)
  {
    hide Pairs, Times;
    OnePairs(x, ys);
    PairsSplit(rest, x, ys, n);
    DisjointSize(Pairs(rest, ys), Pairs({x}, ys));
    OneMore(|rest|, |ys|);
  }

  lemma DisjointSize(a: set<seq<nat>>, b: set<seq<nat>>)
    requires a !! b
    ensures |a + b| == |a| + |b|
  {
  }

  lemma OneMore(a: nat, b: nat)
    ensures Times(a + 1, b) == Times(a, b) + b
  {
  }

  lemma NoPairs(ys: set<seq<nat>>)
    ensures |Pairs({}, ys)| == Times(0, |ys|)
  {
    assert Pairs({}, ys) == {};
  }

  lemma PairsSplit(rest: set<seq<nat>>, x: seq<nat>, ys: set<seq<nat>>, n: nat)
    requires x !in rest && |x| == n && forall z :: z in rest ==> |z| == n
    ensures Pairs(rest + {x}, ys) == Pairs(rest, ys) + Pairs({x}, ys)
    ensures Pairs(rest, ys) !! Pairs({x}, ys)
  {
    assert forall v :: v in Pairs(rest, ys) ==> v[..n] in rest;
    assert forall v :: v in Pairs({x}, ys) ==> v[..n] == x;
  }

  lemma {:induction false} OnePairs(x: seq<nat>, ys: set<seq<nat>>)
    ensures |Pairs({x}, ys)| == |ys|
    decreases |ys|
  {
    if ys == {} {
      assert Pairs({x}, ys) == {};
    } else {
      var y :| y in ys;
      var rest := ys - {y};
      OnePairs(x, rest);
      assert Pairs({x}, ys) == Pairs({x}, rest) + {x + y};
      assert forall v :: v in Pairs({x}, rest) ==> v[|x|..] in rest;
      assert (x + y)[|x|..] == y;
    }
  }

  /** The kept draws that give the character at `k`. */
  function Residues(m: nat, n: nat, k: nat): set<seq<nat>>
    requires k < n
  {
    if m == 0 then {} else Residues(m - 1, n, k) + {[Times(n, m - 1) + k]}
  }

  lemma {:induction false} ResiduesAre(m: nat, n: nat, k: nat)
    requires k < n
    ensures |Residues(m, n, k)| == m
    ensures forall x: seq<nat> :: x in Residues(m, n, k) <==> |x| == 1 && x[0] < Times(n, m) && x[0] % n == k
  {
    hide Times, Residues;
    if m == 0 {
      ResidueNone(n, k);
    } else {
      var base := Times(n, m - 1);
      ResiduesAre(m - 1, n, k);
      Window(n, m - 1);
      ResidueStep(m, n, k);
      ResidueNext(Residues(m - 1, n, k), base, n, k);
    }
  }

  lemma ResidueStep(m: nat, n: nat, k: nat)
    requires k < n && m > 0
    ensures Residues(m, n, k) == Residues(m - 1, n, k) + {[Times(n, m - 1) + k]}
  {
    hide Times;
  }

  lemma ResidueNone(n: nat, k: nat)
    requires k < n
    ensures Residues(0, n, k) == {} && Times(n, 0) == 0
  {
  }

  /** The residues run once through every window of `n`. */
  lemma Window(n: nat, q: nat)
    requires n > 0
    ensures Times(n, q + 1) == Times(n, q) + n
    ensures forall c: nat :: Times(n, q) <= c < Times(n, q) + n ==> c % n == c - Times(n, q)
  {
    forall c: nat | n * q <= c < n * q + n
      ensures c % n == c - n * q
    {
      DivModAre(c, n, q, c - n * q);
    }
  }

  lemma ResidueNext(s: set<seq<nat>>, base: nat, n: nat, k: nat)
    requires k < n
    requires forall c: nat :: base <= c < base + n ==> c % n == c - base
    requires forall x: seq<nat> :: x in s <==> |x| == 1 && x[0] < base && x[0] % n == k
    ensures forall x: seq<nat> :: x in s + {[base + k]} <==> |x| == 1 && x[0] < base + n && x[0] % n == k
    ensures |s + {[base + k]}| == |s| + 1
  {
    var y := [base + k];
    assert y[0] == base + k && (base + k) % n == k;
    forall x: seq<nat> | |x| == 1 && x[0] < base + n && x[0] % n == k
      ensures x in s + {y}
    {
      if x[0] >= base {
        assert x[0] % n == x[0] - base;
        assert x == y;
      }
    }
    forall x: seq<nat> | x in s + {y}
      ensures |x| == 1 && x[0] < base + n && x[0] % n == k
    {
      assert x in s || x == y;
    }
  }

  /** The vectors of kept draws that give `w`. */
  function Sources(w: string, alphabet: string): set<seq<nat>>
    requires alphabet != ""
  {
    set v | v in Vectors(Limit(|alphabet|), |w|) && Image(v, alphabet) == w
  }

  /** Every password over the alphabet comes from equally many vectors of kept draws. */
  lemma {:induction false} SourcesSize(w: string, alphabet: string)
    requires 0 < |alphabet| <= Decimal.U32_MAX && Distinct(alphabet)
    requires forall i :: 0 <= i < |w| ==> w[i] in alphabet
    ensures |Sources(w, alphabet)| == Power(Share(|alphabet|), |w|)
  {
    hide Limit, Vectors, Distinct, Residues, Sources, Pairs, Share, Times, Image;
    var n := |alphabet|;
    var m := Share(n);
    LimitIs(n);
    if w == "" {
      OneSource(alphabet);
    } else {
      var rest := w[1..];
      var k :| 0 <= k < n && alphabet[k] == w[0];
      SourcesSize(rest, alphabet);
      SourcesCons(w, alphabet, k);
      ResiduesAre(m, n, k);
      PairsSize(Residues(m, n, k), Sources(rest, alphabet), 1);
    }
  }

  lemma OneSource(alphabet: string)
    requires alphabet != ""
    ensures |Sources("", alphabet)| == 1
  {
    hide Limit;
    assert Sources("", alphabet) == {[]} by {
      assert [] in Vectors(Limit(|alphabet|), 0) && Image([], alphabet) == "";
    }
  }

  lemma ImageCons(v: seq<nat>, alphabet: string)
    requires alphabet != "" && v != []
    ensures Image(v, alphabet) == [alphabet[v[0] % |alphabet|]] + Image(v[1..], alphabet)
  {
  }

  lemma SourcesCons(w: string, alphabet: string, k: nat)
    requires 0 < |alphabet| <= Decimal.U32_MAX && Distinct(alphabet) && w != "" && k < |alphabet| && alphabet[k] == w[0]
    ensures Sources(w, alphabet) ==
      Pairs(Residues(Share(|alphabet|), |alphabet|, k), Sources(w[1..], alphabet))
  {
    hide Limit, Vectors, Image, Residues, Share, Times;
    var n := |alphabet|;
    var limit := Limit(n);
    LimitIs(n);
    ResiduesAre(Share(n), n, k);
    var xs, ys := Residues(Share(n), n, k), Sources(w[1..], alphabet);
    forall v | v in Sources(w, alphabet)
      ensures v in Pairs(xs, ys)
    {
      ImageCons(v, alphabet);
      assert v == [v[0]] + v[1..];
      assert w == [w[0]] + w[1..];
      assert alphabet[v[0] % n] == w[0];
      assert v[0] % n == k;
      assert [v[0]] in xs;
      assert Image(v[1..], alphabet) == w[1..];
      assert v[1..] in ys;
    }
    forall v | v in Pairs(xs, ys)
      ensures v in Sources(w, alphabet)
    {
      var x, y :| x in xs && y in ys && v == x + y;
      assert v[1..] == y;
      ImageCons(v, alphabet);
      assert w == [w[0]] + w[1..];
    }
  }

  // --- the whole retry loop ----------------------------------------------------------

  /** Blocks of kept draws that do not cover every class. */
  function Rejected(spec: Spec): set<seq<nat>>
    requires Alphabet(spec) != ""
  {
    set v | v in Vectors(Limit(|Alphabet(spec)|), spec.length) && !Covers(Image(v, Alphabet(spec)), Classes(spec))
  }

  /** The kept draws on which `generate` rejects `k` blocks and then returns `w`. */
  function Runs(spec: Spec, k: nat, w: string): set<seq<nat>>
    requires Alphabet(spec) != ""
  {
    if k == 0 then
      if Covers(w, Classes(spec)) then Sources(w, Alphabet(spec)) else {}
    else Pairs(Rejected(spec), Runs(spec, k - 1, w))
  }

  /** How many blocks `generate` rejects, what it returns, and the draws it leaves. */
  function Yields(spec: Spec, kept: seq<nat>): Option<(nat, string, seq<nat>)>
    requires spec.length > 0 && Alphabet(spec) != ""
    decreases |kept|
  {
    if |kept| < spec.length then None
    else
      var w := Image(kept[..spec.length], Alphabet(spec));
      if Covers(w, Classes(spec)) then Some((0, w, kept[spec.length..]))
      else match Yields(spec, kept[spec.length..])
        case None => None
        case Some((k, w', rest)) => Some((k + 1, w', rest))
  }

  lemma {:induction false} YieldsIs(spec: Spec, kept: seq<nat>)
    requires spec.length > 0 && Alphabet(spec) != ""
    ensures Search(spec, kept) == match Yields(spec, kept) case None => Err(Entropy) case Some((_, w, _)) => Ok(w)
    decreases |kept|
  {
    hide Image, Covers, Classes, Alphabet;
    if |kept| >= spec.length {
      YieldsIs(spec, kept[spec.length..]);
    }
  }

  predicate AllBelow(v: seq<nat>, limit: nat) {
    forall i :: 0 <= i < |v| ==> v[i] < limit
  }

  /** `Runs` are exactly the kept draws that end in `w` after `k` rejected blocks. */
  lemma {:induction false} RunsAre(spec: Spec, k: nat, w: string, v: seq<nat>)
    requires spec.length > 0 && Alphabet(spec) != "" && |w| == spec.length
    ensures v in Runs(spec, k, w) <==>
      AllBelow(v, Limit(|Alphabet(spec)|)) && Yields(spec, v) == Some((k, w, []))
  {
    hide Image, Covers, Classes, Alphabet, Limit, Vectors, Pairs, Runs, Yields, Rejected, AllBelow;
    var a, n := Alphabet(spec), spec.length;
    var limit := Limit(|a|);
    if |v| < n {
      ShortRuns(spec, k, w, v);
    } else {
      var x, y := v[..n], v[n..];
      assert v == x + y;
      SplitBelow(x, y, limit);
      YieldsStep(spec, x, y);
      FirstBlock(spec, x);
      if k > 0 {
        RunsAre(spec, k - 1, w, y);
        RejectedLength(spec);
        RunsStep(spec, k, w);
        InPairs(Rejected(spec), Runs(spec, k - 1, w), x, y, n);
      } else {
        RunsNone(spec, w, v);
        assert y == [] ==> v == x;
      }
    }
  }

  lemma YieldsStep(spec: Spec, x: seq<nat>, y: seq<nat>)
    requires spec.length > 0 && Alphabet(spec) != "" && |x| == spec.length
    ensures var w := Image(x, Alphabet(spec));
      Yields(spec, x + y) ==
      if Covers(w, Classes(spec)) then Some((0, w, y))
      else match Yields(spec, y) case None => None case Some((k, w', rest)) => Some((k + 1, w', rest))
  {
    hide Image, Covers, Classes, Alphabet;
    assert (x + y)[..spec.length] == x && (x + y)[spec.length..] == y;
  }

  lemma FirstBlock(spec: Spec, x: seq<nat>)
    requires Alphabet(spec) != "" && |x| == spec.length
    ensures x in Rejected(spec) <==>
      AllBelow(x, Limit(|Alphabet(spec)|)) && !Covers(Image(x, Alphabet(spec)), Classes(spec))
  {
    hide Image, Covers, Classes, Alphabet, Limit;
  }

  lemma RunsStep(spec: Spec, k: nat, w: string)
    requires Alphabet(spec) != "" && k > 0
    ensures Runs(spec, k, w) == Pairs(Rejected(spec), Runs(spec, k - 1, w))
  {
  }

  lemma RunsNone(spec: Spec, w: string, v: seq<nat>)
    requires Alphabet(spec) != "" && |w| == spec.length
    ensures v in Runs(spec, 0, w) <==>
      |v| == |w| && AllBelow(v, Limit(|Alphabet(spec)|)) && Covers(w, Classes(spec)) && Image(v, Alphabet(spec)) == w
  {
    hide Covers, Classes, Alphabet, Limit;
  }

  lemma ShortRuns(spec: Spec, k: nat, w: string, v: seq<nat>)
    requires spec.length > 0 && Alphabet(spec) != "" && |w| == spec.length && |v| < spec.length
    ensures v !in Runs(spec, k, w) && Yields(spec, v) == None
  {
    hide Image, Covers, Classes, Alphabet, Limit, Vectors;
    if k > 0 {
      RejectedLength(spec);
      assert forall x, y :: x in Rejected(spec) && y in Runs(spec, k - 1, w) ==> |x + y| >= spec.length;
    }
  }

  lemma SplitBelow(x: seq<nat>, y: seq<nat>, limit: nat)
    ensures AllBelow(x + y, limit) <==> AllBelow(x, limit) && AllBelow(y, limit)
  {
    assert forall i :: 0 <= i < |x| ==> (x + y)[i] == x[i];
    assert forall i :: 0 <= i < |y| ==> (x + y)[|x| + i] == y[i];
  }

  lemma InPairs(xs: set<seq<nat>>, ys: set<seq<nat>>, x: seq<nat>, y: seq<nat>, n: nat)
    requires (forall z :: z in xs ==> |z| == n) && |x| == n
    ensures x + y in Pairs(xs, ys) <==> x in xs && y in ys
  {
    if x + y in Pairs(xs, ys) {
      var x', y' :| x' in xs && y' in ys && x' + y' == x + y;
      assert (x' + y')[..n] == x' && (x' + y')[n..] == y';
      assert (x + y)[..n] == x && (x + y)[n..] == y;
    }
  }

  predicate Acceptable(spec: Spec, w: string) {
    |w| == spec.length && Covers(w, Classes(spec)) && forall i :: 0 <= i < |w| ==> w[i] in Alphabet(spec)
  }

  /** Exact uniformity of the whole loop: however many blocks are rejected first, every
      acceptable password is returned on the same number of kept draws, and no other
      password on any. */
  lemma {:induction false} Uniform(spec: Spec, k: nat, w: string)
    requires Validate(spec) == None && |w| == spec.length
    ensures Alphabet(spec) != ""
    ensures |Runs(spec, k, w)| ==
      if Acceptable(spec, w) then
        Times(Power(|Rejected(spec)|, k), Power(Share(|Alphabet(spec)|), spec.length))
      else 0
  {
    hide Covers, Classes, Alphabet, Limit, Vectors, Image, Times, Power, Share, Pairs, Acceptable, Rejected;
    AlphabetNonempty(spec);
    AlphabetDistinct(spec);
    var a := Alphabet(spec);
    if k > 0 {
      Uniform(spec, k - 1, w);
      RejectedLength(spec);
      PairsSize(Rejected(spec), Runs(spec, k - 1, w), spec.length);
      PowerStep(|Rejected(spec)|, k, Power(Share(|a|), spec.length));
      TimesZero(|Rejected(spec)|);
    } else if Acceptable(spec, w) {
      AcceptableMeans(spec, w);
      SourcesSize(w, a);
      PowerNone(|Rejected(spec)|, Power(Share(|a|), spec.length));
    } else {
      NoSources(spec, w);
    }
  }

  lemma RejectedLength(spec: Spec)
    requires Alphabet(spec) != ""
    ensures forall x :: x in Rejected(spec) ==> |x| == spec.length
  {
    hide Covers, Classes, Alphabet, Limit, Image;
  }

  lemma AcceptableMeans(spec: Spec, w: string)
    requires Acceptable(spec, w)
    ensures Covers(w, Classes(spec)) && forall i :: 0 <= i < |w| ==> w[i] in Alphabet(spec)
  {
  }

  lemma TimesZero(a: nat)
    ensures Times(a, 0) == 0
  {
  }

  lemma PowerNone(b: nat, x: nat)
    ensures Times(Power(b, 0), x) == x
  {
  }

  lemma PowerStep(b: nat, k: nat, x: nat)
    requires k > 0
    ensures Times(Power(b, k), x) == Times(b, Times(Power(b, k - 1), x))
  {
    var y := Power(b, k - 1);
    assert b * y * x == b * (y * x);
  }

  lemma NoSources(spec: Spec, w: string)
    requires Alphabet(spec) != "" && |w| == spec.length && !Acceptable(spec, w)
    ensures Runs(spec, 0, w) == {}
  {
    hide Covers, Classes, Alphabet, Limit, Vectors;
    if Covers(w, Classes(spec)) {
      var i :| 0 <= i < |w| && w[i] !in Alphabet(spec);
      var a := Alphabet(spec);
      forall v | v in Vectors(Limit(|a|), |w|)
        ensures Image(v, a) != w
      {
        assert Image(v, a)[i] in a;
      }
    }
  }

  /** What the loop returns is always acceptable. */
  lemma {:induction false} SearchAcceptable(spec: Spec, kept: seq<nat>)
    requires spec.length > 0 && Alphabet(spec) != ""
    ensures Search(spec, kept).Ok? ==> Acceptable(spec, Search(spec, kept).value)
    decreases |kept|
  {
    hide Covers, Classes, Alphabet;
    if |kept| >= spec.length {
      SearchAcceptable(spec, kept[spec.length..]);
    }
  }

  /** A generated password has the asked length, over the alphabet, with every class in it. */
  lemma GeneratedAcceptable(spec: Spec, draws: seq<nat>)
    requires Generated(spec, draws).Ok?
    ensures Validate(spec) == None && Acceptable(spec, Generated(spec, draws).value)
  {
    hide Acceptable, Search, Kept, Limit, Classes, Alphabet;
    AlphabetNonempty(spec);
    SearchAcceptable(spec, Kept(draws, Limit(|Alphabet(spec)|)));
  }

  // --- what is asked and what comes out -----------------------------------------------

  /** The errors that need no draw: a length outside 8 to 128, or no class enabled. */
  lemma SpecErrors(spec: Spec, draws: seq<nat>)
    ensures Generated(spec, draws) == Err(BadLength) <==> spec.length < 8 || spec.length > 128
    ensures Generated(spec, draws) == Err(NoClasses) <==>
      8 <= spec.length <= 128 && !spec.lowercase && !spec.uppercase && !spec.digits && spec.symbols == NoSymbols
  {
    hide Search, Kept, Limit, SymbolChars;
    AlphabetNonempty(spec);
    if Validate(spec) == None {
      SearchErrors(spec, Kept(draws, Limit(|Alphabet(spec)|)));
    }
  }

  lemma {:induction false} SearchErrors(spec: Spec, kept: seq<nat>)
    requires spec.length > 0 && Alphabet(spec) != ""
    ensures Search(spec, kept).Err? ==> Search(spec, kept) == Err(Entropy)
    decreases |kept|
  {
    hide Covers, Classes, Alphabet;
    if |kept| >= spec.length {
      SearchErrors(spec, kept[spec.length..]);
    }
  }

  /** A character of the enabled classes. */
  predicate Enabled(spec: Spec, c: char) {
    || (spec.lowercase && 'a' <= c <= 'z')
    || (spec.uppercase && 'A' <= c <= 'Z')
    || (spec.digits && '0' <= c <= '9')
    || (spec.symbols == Basic && c in "!#$%&()*+,-.=?@_")
    || (spec.symbols == Full && ('!' <= c <= '/' || ':' <= c <= '@' || '[' <= c <= '`' || '{' <= c <= '~'))
  }

  lemma InClasses(c: char)
    ensures c in LOWERCASE <==> 'a' <= c <= 'z'
    ensures c in UPPERCASE <==> 'A' <= c <= 'Z'
    ensures c in DIGITS <==> '0' <= c <= '9'
    ensures c in SYMBOLS_FULL <==> '!' <= c <= '/' || ':' <= c <= '@' || '[' <= c <= '`' || '{' <= c <= '~'
  {
    hide LOWERCASE, UPPERCASE, DIGITS, SYMBOLS_FULL;
    LettersTable();
    DigitTable();
    FullTable();
    if 'a' <= c <= 'z' { assert LOWERCASE[(c - 'a') as int] == c; }
    if 'A' <= c <= 'Z' { assert UPPERCASE[(c - 'A') as int] == c; }
    if '0' <= c <= '9' { assert DIGITS[(c - '0') as int] == c; }
    InFull(c);
  }

  lemma InFull(c: char)
    ensures c in SYMBOLS_FULL <==> '!' <= c <= '/' || ':' <= c <= '@' || '[' <= c <= '`' || '{' <= c <= '~'
  {
    hide SYMBOLS_FULL;
    FullTable();
    if '!' <= c <= '/' { assert SYMBOLS_FULL[(c - '!') as int] == c; }
    if ':' <= c <= '@' { assert SYMBOLS_FULL[(c - ':') as int + 15] == c; }
    if '[' <= c <= '`' { assert SYMBOLS_FULL[(c - '[') as int + 22] == c; }
    if '{' <= c <= '~' { assert SYMBOLS_FULL[(c - '{') as int + 28] == c; }
  }

  /** The alphabet is the enabled classes. */
  lemma AlphabetIs(spec: Spec, c: char)
    ensures c in Alphabet(spec) <==> Enabled(spec, c)
  {
    hide LOWERCASE, UPPERCASE, DIGITS, SYMBOLS_FULL, When, Concat;
    AlphabetParts(spec);
    InClasses(c);
  }

  /** Some character of the password satisfies `p`. */
  ghost predicate HasCharacter(w: string, p: char -> bool) {
    exists i :: 0 <= i < |w| && p(w[i])
  }

  /** What is asked of a password: its length, enabled characters only, and one at least of each
      enabled class. */
  ghost predicate Asked(spec: Spec, w: string) {
    && |w| == spec.length && (forall i :: 0 <= i < |w| ==> Enabled(spec, w[i]))
    && (spec.lowercase ==> HasCharacter(w, c => 'a' <= c <= 'z'))
    && (spec.uppercase ==> HasCharacter(w, c => 'A' <= c <= 'Z'))
    && (spec.digits ==> HasCharacter(w, c => '0' <= c <= '9'))
    && (spec.symbols == Basic ==> HasCharacter(w, c => c in "!#$%&()*+,-.=?@_"))
    && (spec.symbols == Full ==>
          HasCharacter(w, c => '!' <= c <= '/' || ':' <= c <= '@' || '[' <= c <= '`' || '{' <= c <= '~'))
  }

  lemma CoversCons(w: string, class_: string, rest: seq<string>)
    ensures Covers(w, [class_] + rest) <==> HasOne(w, class_) && Covers(w, rest)
  {
    hide HasOne;
    var cs := [class_] + rest;
    assert forall k :: 0 <= k < |rest| ==> cs[k + 1] == rest[k];
    if Covers(w, cs) {
      assert HasOne(w, cs[0]);
      forall k | 0 <= k < |rest| ensures HasOne(w, rest[k]) { assert HasOne(w, cs[k + 1]); }
    }
  }

  lemma CoversWhen(w: string, on: bool, class_: string, rest: seq<string>)
    ensures Covers(w, When(on, class_) + rest) <==> (on ==> HasOne(w, class_)) && Covers(w, rest)
  {
    hide HasOne, Covers;
    if on {
      CoversCons(w, class_, rest);
    } else {
      assert [] + rest == rest;
    }
  }

  lemma CoversClasses(spec: Spec, w: string)
    ensures Covers(w, Classes(spec)) <==>
      && (spec.lowercase ==> HasOne(w, LOWERCASE)) && (spec.uppercase ==> HasOne(w, UPPERCASE))
      && (spec.digits ==> HasOne(w, DIGITS)) && (spec.symbols != NoSymbols ==> HasOne(w, SymbolChars(spec.symbols)))
  {
    hide HasOne, Covers, When, LOWERCASE, UPPERCASE, DIGITS, SymbolChars;
    var a, b, c := When(spec.lowercase, LOWERCASE), When(spec.uppercase, UPPERCASE), When(spec.digits, DIGITS);
    var d := When(spec.symbols != NoSymbols, SymbolChars(spec.symbols));
    assert a + b + c + d == a + (b + (c + (d + [])));
    CoversWhen(w, spec.lowercase, LOWERCASE, b + (c + (d + [])));
    CoversWhen(w, spec.uppercase, UPPERCASE, c + (d + []));
    CoversWhen(w, spec.digits, DIGITS, d + []);
    CoversWhen(w, spec.symbols != NoSymbols, SymbolChars(spec.symbols), []);
    assert Covers(w, []) by { NothingToCover(w); }
  }

  lemma NothingToCover(w: string)
    ensures Covers(w, [])
  {
  }

  lemma HasOneOf(w: string)
    ensures HasOne(w, LOWERCASE) <==> HasCharacter(w, c => 'a' <= c <= 'z')
    ensures HasOne(w, UPPERCASE) <==> HasCharacter(w, c => 'A' <= c <= 'Z')
    ensures HasOne(w, DIGITS) <==> HasCharacter(w, c => '0' <= c <= '9')
    ensures HasOne(w, SYMBOLS_FULL) <==>
      HasCharacter(w, c => '!' <= c <= '/' || ':' <= c <= '@' || '[' <= c <= '`' || '{' <= c <= '~')
    ensures HasOne(w, "!#$%&()*+,-.=?@_") <==> HasCharacter(w, c => c in "!#$%&()*+,-.=?@_")
  {
    hide LOWERCASE, UPPERCASE, DIGITS, SYMBOLS_FULL;
    forall i | 0 <= i < |w|
      ensures w[i] in LOWERCASE <==> 'a' <= w[i] <= 'z'
      ensures w[i] in UPPERCASE <==> 'A' <= w[i] <= 'Z'
      ensures w[i] in DIGITS <==> '0' <= w[i] <= '9'
      ensures w[i] in SYMBOLS_FULL <==>
        '!' <= w[i] <= '/' || ':' <= w[i] <= '@' || '[' <= w[i] <= '`' || '{' <= w[i] <= '~'
    {
      InClasses(w[i]);
    }
  }

  /** The passwords counted as acceptable are exactly those asked for. */
  lemma AcceptableIs(spec: Spec, w: string)
    ensures Acceptable(spec, w) <==> Asked(spec, w)
  {
    hide Alphabet, Classes, Covers, Enabled, HasOne, HasCharacter, LOWERCASE, UPPERCASE, DIGITS, SYMBOLS_FULL;
    CoversClasses(spec, w);
    HasOneOf(w);
    forall i | 0 <= i < |w|
      ensures w[i] in Alphabet(spec) <==> Enabled(spec, w[i])
    {
      AlphabetIs(spec, w[i]);
    }
  }

  /** A generated password is one that was asked for. */
  lemma GeneratedMeans(spec: Spec, draws: seq<nat>)
    requires Generated(spec, draws).Ok?
    ensures Asked(spec, Generated(spec, draws).value)
  {
    hide Generated, Acceptable, Asked;
    GeneratedAcceptable(spec, draws);
    AcceptableIs(spec, Generated(spec, draws).value);
  }

  /** Draws are kept or dropped one by one, kept exactly below the limit. */
  lemma {:induction false} KeptConcat(a: seq<nat>, b: seq<nat>, limit: nat)
    ensures Kept(a + b, limit) == Kept(a, limit) + Kept(b, limit)
  {
    if a == [] {
      assert a + b == b;
    } else {
      var first := if a[0] < limit then [a[0]] else [];
      KeptConcat(a[1..], b, limit);
      assert (a + b)[1..] == a[1..] + b;
      assert (first + Kept(a[1..], limit)) + Kept(b, limit) == first + (Kept(a[1..], limit) + Kept(b, limit));
    }
  }

  lemma KeptOne(draw: nat, limit: nat)
    ensures Kept([draw], limit) == if draw < limit then [draw] else []
  {
    assert [draw][1..] == [];
  }

  /** A draw chooses the character at its remainder. */
  lemma ImageAt(v: seq<nat>, alphabet: string, i: nat)
    requires alphabet != "" && i < |v|
    ensures Image(v, alphabet)[i] == alphabet[v[i] % |alphabet|]
  {
  }
}
