/** Recovery codes (backup.rs): thirty Crockford base32 characters, the last a Luhn mod 32
    check character, shown in groups of five. */
module RecoveryCode {
  import opened Text
  import opened Utf8

  datatype CodeError = CodeLength | CodeCharacter | CodeChecksum

  type Digit = v: int | 0 <= v < 32

  const CROCKFORD: string := "0123456789ABCDEFGHJKMNPQRSTVWXYZ"
  const CODE_CHARS: nat := 30
  const GROUP: nat := 5

  function Symbol(v: Digit): (c: char)
    ensures '0' <= c <= 'Z'
  {
    if v < 10 then '0' + v as char
    else if v < 18 then 'A' + (v - 10) as char
    else if v < 20 then 'J' + (v - 18) as char
    else if v < 22 then 'M' + (v - 20) as char
    else if v < 27 then 'P' + (v - 22) as char
    else 'V' + (v - 27) as char
  }

  /** The arithmetic is the table lookup. */
  lemma SymbolTable()
    ensures |CROCKFORD| == 32
    ensures forall v :: 0 <= v < 32 ==> CROCKFORD[v] == Symbol(v)
  {
  }

  /** The position of `c` in the table. */
  function Position(c: char): Option<Digit> {
    if '0' <= c <= '9' then Some((c - '0') as int)
    else if 'A' <= c <= 'H' then Some((c - 'A') as int + 10)
    else if 'J' <= c <= 'K' then Some((c - 'J') as int + 18)
    else if 'M' <= c <= 'N' then Some((c - 'M') as int + 20)
    else if 'P' <= c <= 'T' then Some((c - 'P') as int + 22)
    else if 'V' <= c <= 'Z' then Some((c - 'V') as int + 27)
    else None
  }

  lemma PositionTable(c: char)
    ensures Position(c).None? ==> forall v :: 0 <= v < 32 ==> Symbol(v) != c
    ensures Position(c).Some? ==> Symbol(Position(c).value) == c
  {
  }

  /** O, I and L read as 0, 1 and 1. */
  function LookAlike(c: char): char {
    if c == 'O' then '0' else if c == 'I' || c == 'L' then '1' else c
  }

  function Value(c: char): Option<Digit> {
    Position(LookAlike(ToUpper(c)))
  }

  // --- the check character -------------------------------------------------------

  function Addend(v: Digit, factor: nat): nat {
    factor * v / 32 + factor * v % 32
  }

  /** Factors `factor`, then the other of 1 and 2, and so on, from the right. */
  function Sum(vs: seq<Digit>, factor: nat): nat
    requires 1 <= factor <= 2
  {
    if vs == [] then 0
    else Addend(vs[|vs| - 1], factor) + Sum(vs[..|vs| - 1], 3 - factor)
  }

  function Check(vs: seq<Digit>): Digit {
    (32 - Sum(vs, 2) % 32) % 32
  }

  /** `check_value`. */
  method CheckValue(vs: seq<Digit>) returns (check: Digit)
    ensures check == Check(vs)
  {
    var sum, factor, rest := 0, 2, vs;
    while rest != []
      invariant 1 <= factor <= 2
      invariant Sum(vs, 2) == sum + Sum(rest, factor)
      decreases |rest|
    {
      sum := sum + Addend(rest[|rest| - 1], factor);
      factor := if factor == 2 then 1 else 2;
      rest := rest[..|rest| - 1];
    }
    return (32 - sum % 32) % 32;
  }

  /** A code whose last character checks. */
  predicate Accepted(vs: seq<Digit>) {
    |vs| == CODE_CHARS && Check(vs[..CODE_CHARS - 1]) == vs[CODE_CHARS - 1]
  }

  /** Checking is one congruence over the whole code. */
  lemma AcceptedSum(vs: seq<Digit>)
    requires |vs| == CODE_CHARS
    ensures Accepted(vs) <==> Sum(vs, 1) % 32 == 0
  {
    hide Addend, Sum;
    var body, last := vs[..CODE_CHARS - 1], vs[CODE_CHARS - 1];
    CheckCloses(Sum(body, 2), last);
    SumLast(vs, 1);
    AddendIs(last);
  }

  lemma SumLast(vs: seq<Digit>, factor: nat)
    requires vs != [] && 1 <= factor <= 2
    ensures Sum(vs, factor) == Addend(vs[|vs| - 1], factor) + Sum(vs[..|vs| - 1], 3 - factor)
  {
  }

  lemma CheckCloses(sum: nat, last: Digit)
    ensures (32 - sum % 32) % 32 == last <==> (last + sum) % 32 == 0
  {
  }

  lemma {:induction false} SumUpdate(vs: seq<Digit>, factor: nat, i: nat, v: Digit)
    requires i < |vs| && 1 <= factor <= 2
    ensures var f := if (|vs| - 1 - i) % 2 == 0 then factor else 3 - factor;
      Sum(vs[i := v], factor) == Sum(vs, factor) - Addend(vs[i], f) + Addend(v, f)
    decreases |vs|
  {
    hide Addend, Sum;
    var n := |vs| - 1;
    SumLast(vs, factor);
    SumLast(vs[i := v], factor);
    if i == n {
      assert vs[i := v][..n] == vs[..n];
    } else {
      SumUpdate(vs[..n], 3 - factor, i, v);
      assert vs[i := v][..n] == vs[..n][i := v];
    }
  }

  /** Doubling with the carry folded in only permutes the digits. */
  lemma AddendIs(v: Digit)
    ensures Addend(v, 1) == v
    ensures Addend(v, 2) == if v < 16 then 2 * v else 2 * v - 31
  {
    assert 2 * v / 32 == if v < 16 then 0 else 1;
  }

  lemma AddendDistinct(a: Digit, b: Digit, factor: nat)
    requires 1 <= factor <= 2 && a != b
    ensures Addend(a, factor) != Addend(b, factor) && Addend(a, factor) < 32 && Addend(b, factor) < 32
  {
    hide Addend;
    AddendIs(a);
    AddendIs(b);
  }

  lemma NotCongruent(s: nat, a: nat, b: nat)
    requires a < 32 && b < 32 && a != b && s % 32 == 0 && s - a + b >= 0
    ensures (s - a + b) % 32 != 0
  {
  }

  /** Of two codes that differ in one place at most one is accepted. */
  lemma TypoCaught(vs: seq<Digit>, i: nat, v: Digit)
    requires Accepted(vs) && i < CODE_CHARS && v != vs[i]
    ensures !Accepted(vs[i := v])
  {
    hide Addend, Accepted, Sum;
    assert |vs| == CODE_CHARS by { assert Accepted(vs); Length(vs); }
    var f := if (|vs| - 1 - i) % 2 == 0 then 1 else 2;
    AcceptedSum(vs);
    AcceptedSum(vs[i := v]);
    SumUpdate(vs, 1, i, v);
    AddendDistinct(vs[i], v, f);
    NotCongruent(Sum(vs, 1), Addend(vs[i], f), Addend(v, f));
  }

  lemma Length(vs: seq<Digit>)
    requires Accepted(vs)
    ensures |vs| == CODE_CHARS
  {
  }

  predicate Blind(a: Digit, b: Digit) {
    a == b || (a == 0 && b == 31) || (a == 31 && b == 0)
  }

  function Swapped(vs: seq<Digit>, i: nat): seq<Digit>
    requires i + 1 < |vs|
  {
    vs[i := vs[i + 1]][i + 1 := vs[i]]
  }

  lemma SwapSum(s: nat, a: Digit, b: Digit, f: nat)
    requires 1 <= f <= 2 && s % 32 == 0
    requires s - Addend(a, f) + Addend(b, f) - Addend(b, 3 - f) + Addend(a, 3 - f) >= 0
    ensures (s - Addend(a, f) + Addend(b, f) - Addend(b, 3 - f) + Addend(a, 3 - f)) % 32 == 0 <==> Blind(a, b)
  {
    hide Addend;
    AddendIs(a);
    AddendIs(b);
    Near(s, 0 - Addend(a, f) + Addend(b, f) - Addend(b, 3 - f) + Addend(a, 3 - f));
  }

  lemma Near(s: nat, d: int)
    requires s % 32 == 0 && -32 < d < 32
    ensures (s + d) % 32 == 0 <==> d == 0
  {
  }

  /** Swapping neighbours, the check character included, goes unnoticed exactly when the
      two are equal or are 0 and 31. */
  lemma SwapCaught(vs: seq<Digit>, i: nat)
    requires Accepted(vs) && i + 1 < CODE_CHARS
    ensures Accepted(Swapped(vs, i)) <==> Blind(vs[i], vs[i + 1])
  {
    hide Addend, Accepted, Sum, Blind;
    Length(vs);
    var f := if (|vs| - 1 - i) % 2 == 0 then 1 else 2;
    var one := vs[i := vs[i + 1]];
    AcceptedSum(vs);
    AcceptedSum(Swapped(vs, i));
    SumUpdate(vs, 1, i, vs[i + 1]);
    SumUpdate(one, 1, i + 1, vs[i]);
    SwapSum(Sum(vs, 1), vs[i], vs[i + 1], f);
  }

  /** 27 zeros, then Z, 0 and 1. */
  function ZeroAndZ(): (vs: seq<Digit>)
    ensures |vs| == CODE_CHARS
  {
    seq(27, _ => 0) + [31, 0, 1]
  }

  lemma {:induction false} SumZeros(vs: seq<Digit>, factor: nat)
    requires 1 <= factor <= 2 && forall i :: 0 <= i < |vs| ==> vs[i] == 0
    ensures Sum(vs, factor) == 0
  {
    if vs != [] {
      SumZeros(vs[..|vs| - 1], 3 - factor);
    }
  }

  /** The check of a single digit: every second digit from the right, the last one first, counts
      double, less 31 where that is a carry. */
  lemma CheckOne(i: nat, v: Digit)
    requires i < 29
    ensures Check(seq(29, _ => 0)[i := v]) ==
      (32 - (if i % 2 == 0 then (if v < 16 then 2 * v else 2 * v - 31) else v) % 32) % 32
  {
    hide Addend, Sum;
    var zeros: seq<Digit> := seq(29, _ => 0);
    SumZeros(zeros, 2);
    SumUpdate(zeros, 2, i, v);
    AddendIs(v);
    AddendIs(0);
  }

  /** And digits add up: changing one changes the sum by what that digit counts. */
  lemma CheckChange(vs: seq<Digit>, i: nat, v: Digit)
    requires |vs| == 29 && i < 29
    ensures (Check(vs[i := v]) + CheckOf(i, v)) % 32 == (Check(vs) + CheckOf(i, vs[i])) % 32
  {
    CheckSum(vs, i, v);
    Closes(Sum(vs, 2), CheckOf(i, vs[i]), CheckOf(i, v));
  }

  lemma Closes(s: nat, a: nat, b: nat)
    requires s - a + b >= 0
    ensures ((32 - (s - a + b) % 32) % 32 + b) % 32 == ((32 - s % 32) % 32 + a) % 32
  {
    var t := s - a + b;
    var x, y := (32 - t % 32) % 32, (32 - s % 32) % 32;
    var m := Rounds(t);
    var n := Rounds(s);
    SameRest(x + b, y + a, m - n);
  }

  lemma Rounds(t: nat) returns (k: int)
    ensures (32 - t % 32) % 32 + t == 32 * k
  {
    k := if t % 32 == 0 then t / 32 else t / 32 + 1;
  }

  lemma SameRest(m: nat, n: nat, k: int)
    requires m == n + 32 * k
    ensures m % 32 == n % 32
  {
  }

  lemma CheckSum(vs: seq<Digit>, i: nat, v: Digit)
    requires |vs| == 29 && i < 29
    ensures Sum(vs[i := v], 2) == Sum(vs, 2) - CheckOf(i, vs[i]) + CheckOf(i, v)
  {
    hide Addend, Sum;
    SumUpdate(vs, 2, i, v);
    AddendIs(v);
    AddendIs(vs[i]);
  }

  function CheckOf(i: nat, v: Digit): nat {
    if i % 2 == 0 then (if v < 16 then 2 * v else 2 * v - 31) else v
  }

  /** A valid code with a Z next to a 0: swapping the two gives another valid code. */
  lemma SwapUnseen()
    ensures Accepted(ZeroAndZ()) && ZeroAndZ()[27] == 31 && ZeroAndZ()[28] == 0
    ensures Accepted(Swapped(ZeroAndZ(), 27)) && Swapped(ZeroAndZ(), 27) != ZeroAndZ()
  {
    hide Addend, Accepted, Sum;
    var vs := ZeroAndZ();
    var body := vs[..29];
    SumLast(vs, 1);
    SumLast(body, 2);
    SumLast(body[..28], 1);
    assert body[..28][..27] == vs[..27];
    SumZeros(vs[..27], 2);
    AddendIs(1);
    AddendIs(0);
    AddendIs(31);
    AcceptedSum(vs);
    SwapCaught(vs, 27);
    assert Swapped(vs, 27)[27] == 0;
  }

  // --- text ------------------------------------------------------------------------

  function Symbols(vs: seq<Digit>): (s: string)
    ensures |s| == |vs|
    ensures forall i :: 0 <= i < |s| ==> '0' <= s[i] <= 'Z'
  {
    seq(|vs|, i requires 0 <= i < |vs| => Symbol(vs[i]))
  }

  function Groups(vs: seq<Digit>): seq<string> {
    if vs == [] then []
    else if |vs| <= GROUP then [Symbols(vs)]
    else [Symbols(vs[..GROUP])] + Groups(vs[GROUP..])
  }

  /** `format_code`. */
  function Format(vs: seq<Digit>): string {
    Join(Groups(vs), '-')
  }

  /** Bytes of the ignored character at the front, or 0. */
  function Ignored(s: string): (n: nat)
    ensures n <= |s|
  {
    if SpaceAt(s) > 0 then SpaceAt(s) else if s != "" && s[0] == '-' then 1 else 0
  }

  function Values(s: string): Option<seq<Digit>>
    decreases |s|
  {
    if s == "" then Some([])
    else if Ignored(s) > 0 then Values(s[Ignored(s)..])
    else Then(Value(s[0]), Values(s[1..]))
  }

  function Then(v: Option<Digit>, vs: Option<seq<Digit>>): Option<seq<Digit>> {
    if v.Some? && vs.Some? then Some([v.value] + vs.value) else None
  }

  function Judge(vs: Option<seq<Digit>>): Result<string, CodeError> {
    if vs.None? then Err(CodeCharacter)
    else if |vs.value| != CODE_CHARS then Err(CodeLength)
    else if !Accepted(vs.value) then Err(CodeChecksum)
    else Ok(Format(vs.value))
  }

  function Normalized(input: string): Result<string, CodeError> {
    Judge(Values(input))
  }

  function Prepend(done: seq<Digit>, vs: Option<seq<Digit>>): Option<seq<Digit>> {
    if vs.Some? then Some(done + vs.value) else None
  }

  lemma PrependStep(done: seq<Digit>, rest: string)
    requires rest != "" && Ignored(rest) == 0
    ensures Prepend(done, Values(rest)) ==
            if Value(rest[0]).None? then None else Prepend(done + [Value(rest[0]).value], Values(rest[1..]))
  {
    hide Value;
    var v, vs := Value(rest[0]), Values(rest[1..]);
    if v.Some? && vs.Some? {
      assert done + ([v.value] + vs.value) == done + [v.value] + vs.value;
    }
  }

  /** `normalize_recovery_code`. */
  method NormalizeRecoveryCode(input: string) returns (r: Result<string, CodeError>)
    ensures r == Normalized(input)
  {
    hide Value, Accepted, Format;
    var values, rest := [], input;
    ghost var all := Values(input);
    assert all.Some? ==> [] + all.value == all.value;
    while rest != ""
      invariant Values(input) == Prepend(values, Values(rest))
      decreases |rest|
    {
      if Ignored(rest) > 0 {
        rest := rest[Ignored(rest)..];
      } else {
        PrependStep(values, rest);
        var v := Value(rest[0]);
        if v.None? {
          return Err(CodeCharacter);
        }
        values := values + [v.value];
        rest := rest[1..];
      }
    }
    assert values + [] == values;
    if |values| != CODE_CHARS {
      return Err(CodeLength);
    }
    var check := CheckValue(values[..CODE_CHARS - 1]);
    if check != values[CODE_CHARS - 1] {
      NotAccepted(values);
      return Err(CodeChecksum);
    }
    NotAccepted(values);
    return Ok(Format(values));
  }

  lemma NotAccepted(vs: seq<Digit>)
    requires |vs| == CODE_CHARS
    ensures Accepted(vs) <==> Check(vs[..CODE_CHARS - 1]) == vs[CODE_CHARS - 1]
  {
  }

  function Fresh(random: seq<Digit>): seq<Digit> {
    random + [Check(random)]
  }

  /** `generate_recovery_code` on 29 random bytes, each cut to its low five bits. */
  method GenerateRecoveryCode(random: seq<nat>) returns (code: string)
    requires |random| == CODE_CHARS - 1
    ensures code == Format(Fresh(LowBits(random)))
  {
    hide Format, Check;
    var values := LowBits(random);
    var check := CheckValue(values);
    return Format(values + [check]);
  }

  function LowBits(random: seq<nat>): (vs: seq<Digit>)
    ensures |vs| == |random|
  {
    seq(|random|, i requires 0 <= i < |random| => random[i] % 32)
  }

  // --- the text is the code ----------------------------------------------------------

  lemma SymbolReads(v: Digit)
    ensures Value(Symbol(v)) == Some(v) && Symbol(v) != '-' && !AsciiSpace(Symbol(v)) && Symbol(v) < 0x80 as char
  {
  }

  lemma {:induction false} SymbolsRead(vs: seq<Digit>, rest: string)
    ensures Values(Symbols(vs) + rest) == Prepend(vs, Values(rest))
    decreases |vs|
  {
    hide Value, Symbol, Values;
    var s := Symbols(vs) + rest;
    if vs == [] {
      assert s == rest;
      assert Values(rest).Some? ==> [] + Values(rest).value == Values(rest).value;
    } else {
      SymbolReads(vs[0]);
      SymbolsRead(vs[1..], rest);
      assert s == [Symbol(vs[0])] + (Symbols(vs[1..]) + rest);
      OneValue(Symbol(vs[0]), Symbols(vs[1..]) + rest);
      PrependFirst(vs, Values(rest));
    }
  }

  lemma PrependFirst(vs: seq<Digit>, tail: Option<seq<Digit>>)
    requires vs != []
    ensures Then(Some(vs[0]), Prepend(vs[1..], tail)) == Prepend(vs, tail)
  {
    if tail.Some? {
      assert [vs[0]] + (vs[1..] + tail.value) == vs + tail.value;
    }
  }

  lemma DashIgnored(rest: string)
    ensures Values("-" + rest) == Values(rest)
  {
    hide Value;
    var s := "-" + rest;
    assert Ignored(s) == 1 && s[1..] == rest;
  }

  /** Reading back what is shown. */
  lemma {:induction false} FormatReads(vs: seq<Digit>)
    ensures Values(Format(vs)) == Some(vs)
    decreases |vs|
  {
    hide Values, Symbols;
    assert Values("") == Some([]) by { NothingRead(); }
    if vs == [] {
    } else if |vs| <= GROUP {
      SymbolsRead(vs, "");
      assert Symbols(vs) + "" == Symbols(vs) && vs + [] == vs;
    } else {
      var a, b := vs[..GROUP], vs[GROUP..];
      FormatReads(b);
      JoinCons(Symbols(a), Groups(b), '-');
      SymbolsRead(a, "-" + Format(b));
      DashIgnored(Format(b));
      assert Symbols(a) + "-" + Format(b) == Symbols(a) + ("-" + Format(b));
      assert a + b == vs;
    }
  }

  lemma {:induction false} FormatGroups(vs: seq<Digit>, i: nat)
    requires vs != [] && |vs| % GROUP == 0 && i < |vs| + |vs| / GROUP - 1
    ensures |Format(vs)| == |vs| + |vs| / GROUP - 1
    ensures Format(vs)[i] == if i % 6 == 5 then '-' else Symbol(vs[i - i / 6])
    decreases |vs|
  {
    hide Symbol, Format;
    FormatStep(vs);
    if |vs| > GROUP {
      var b := vs[GROUP..];
      FormatGroups(b, if i >= 6 then i - 6 else 0);
      if i >= 6 {
        assert Format(vs)[i] == Format(b)[i - 6] && (i - 6) / 6 == i / 6 - 1;
      }
    }
  }

  lemma FormatStep(vs: seq<Digit>)
    requires vs != [] && |vs| % GROUP == 0
    ensures Format(vs) ==
      if |vs| == GROUP then Symbols(vs) else Symbols(vs[..GROUP]) + "-" + Format(vs[GROUP..])
  {
    hide Symbols;
    if |vs| > GROUP {
      JoinCons(Symbols(vs[..GROUP]), Groups(vs[GROUP..]), '-');
    }
  }

  /** A code is shown as six groups of five characters with dashes between them. */
  lemma FormatShape(vs: seq<Digit>, i: nat)
    requires |vs| == CODE_CHARS && i < 35
    ensures |Format(vs)| == 35
    ensures Format(vs)[i] == if i in {5, 11, 17, 23, 29} then '-' else Symbol(vs[i - i / 6])
  {
    hide Format;
    FormatGroups(vs, i);
  }

  lemma NothingRead()
    ensures Values("") == Some([])
  {
  }

  /** A shown code is judged by its digits alone, and a valid one is a fixed point. */
  lemma FormatNormalized(vs: seq<Digit>)
    requires |vs| == CODE_CHARS
    ensures Normalized(Format(vs)) == if Accepted(vs) then Ok(Format(vs)) else Err(CodeChecksum)
  {
    FormatReads(vs);
  }

  lemma Idempotent(input: string)
    requires Normalized(input).Ok?
    ensures Normalized(Normalized(input).value) == Normalized(input)
  {
    hide Values, Format, Accepted;
    FormatNormalized(Values(input).value);
  }

  /** Every generated code is accepted as it is shown. */
  lemma FreshNormalized(random: seq<Digit>)
    requires |random| == CODE_CHARS - 1
    ensures Normalized(Format(Fresh(random))) == Ok(Format(Fresh(random)))
  {
    var vs := Fresh(random);
    assert vs[..CODE_CHARS - 1] == random;
    FormatNormalized(vs);
  }

  /** As the user sees it: any one wrong character of a shown code is refused, and so is
      any swap of neighbours but of 0 and Z. */
  lemma ShownTypos(vs: seq<Digit>, i: nat, v: Digit)
    requires Accepted(vs) && i < CODE_CHARS && v != vs[i]
    ensures Normalized(Format(vs[i := v])) == Err(CodeChecksum)
    ensures i + 1 < CODE_CHARS && !Blind(vs[i], vs[i + 1]) ==> Normalized(Format(Swapped(vs, i))) == Err(CodeChecksum)
    ensures i + 1 < CODE_CHARS && Blind(vs[i], vs[i + 1]) ==> Normalized(Format(Swapped(vs, i))).Ok?
  {
    hide Accepted, Format, Normalized, Blind;
    Length(vs);
    TypoCaught(vs, i, v);
    FormatNormalized(vs[i := v]);
    if i + 1 < CODE_CHARS {
      SwapCaught(vs, i);
      FormatNormalized(Swapped(vs, i));
    }
  }

  // --- what typing may vary ------------------------------------------------------------

  /** Reading a valid piece of text, then the rest. */
  lemma {:induction false} ValuesConcat(a: string, b: string)
    requires IsUtf8(a)
    ensures Values(a + b) == if Values(a).Some? then Prepend(Values(a).value, Values(b)) else None
    decreases |a|
  {
    hide Value, SpaceAt, Values, Ignored;
    var s := a + b;
    if a == "" {
      assert s == b;
      NothingRead();
      assert Values(b).Some? ==> [] + Values(b).value == Values(b).value;
    } else {
      IgnoredConcat(a, b);
      ValuesStep(a);
      ValuesStep(s);
      var n := Ignored(a);
      if n > 0 {
        assert s[n..] == a[n..] + b;
        ValuesConcat(a[n..], b);
      } else if Value(a[0]).Some? {
        AsciiValue(a[0]);
        assert s[1..] == a[1..] + b;
        ValuesConcat(a[1..], b);
        ThenPrepend(Value(a[0]), Values(a[1..]), Values(b));
      }
    }
  }

  lemma ValuesStep(s: string)
    requires s != ""
    ensures Values(s) == if Ignored(s) > 0 then Values(s[Ignored(s)..]) else Then(Value(s[0]), Values(s[1..]))
  {
  }

  lemma ThenPrepend(v: Option<Digit>, x: Option<seq<Digit>>, y: Option<seq<Digit>>)
    requires v.Some?
    ensures Then(v, if x.Some? then Prepend(x.value, y) else None) ==
            if Then(v, x).Some? then Prepend(Then(v, x).value, y) else None
  {
    if x.Some? && y.Some? {
      assert [v.value] + (x.value + y.value) == [v.value] + x.value + y.value;
    }
  }

  /** Valid text never ends inside a white-space character. */
  lemma IgnoredConcat(a: string, b: string)
    requires a != "" && IsUtf8(a)
    ensures Ignored(a + b) == Ignored(a)
    ensures Ignored(a) > 0 ==> CharLen(a) == Ignored(a)
  {
  }

  lemma AsciiValue(c: char)
    requires Value(c).Some?
    ensures c < 0x80 as char && !AsciiSpace(c) && c != '-'
  {
  }

  /** White space and dashes may come and go anywhere. */
  lemma SpacingIgnored(a: string, w: string, b: string)
    requires IsUtf8(a) && IsUtf8(w) && w != "" && Ignored(w) == |w|
    ensures Normalized(a + w + b) == Normalized(a + b)
  {
    hide Values, Judge;
    ValuesConcat(a, b);
    ValuesConcat(a, w + b);
    ValuesConcat(w, b);
    assert Values(w) == Some([]) by { IgnoredValues(w); }
    assert Values(b).Some? ==> [] + Values(b).value == Values(b).value;
    assert a + w + b == a + (w + b);
  }

  lemma IgnoredValues(w: string)
    requires w != "" && Ignored(w) == |w|
    ensures Values(w) == Some([])
  {
    assert w[|w|..] == "";
  }

  /** Characters that read as the same digit may stand for each other: the other case,
      O for 0, I and L for 1. */
  lemma LookAlikes(a: string, c: char, d: char, b: string)
    requires IsUtf8(a) && Value(c).Some? && Value(c) == Value(d)
    ensures Normalized(a + [c] + b) == Normalized(a + [d] + b)
  {
    hide Judge, Value, Values;
    OneValue(c, b);
    OneValue(d, b);
    ValuesConcat(a, [c] + b);
    ValuesConcat(a, [d] + b);
    assert a + [c] + b == a + ([c] + b) && a + [d] + b == a + ([d] + b);
  }

  lemma OneValue(c: char, b: string)
    requires Value(c).Some?
    ensures Values([c] + b) == Then(Value(c), Values(b))
  {
    hide Value;
    AsciiValue(c);
    assert ([c] + b)[1..] == b;
  }

  lemma AlikeCharacters(c: char)
    ensures Value(ToLower(c)) == Value(c) && Value(ToUpper(c)) == Value(c)
    ensures Value('O') == Value('o') == Value('0') == Some(0)
    ensures Value('I') == Value('i') == Value('L') == Value('l') == Value('1') == Some(1)
  {
  }

  /** A code typed in the other case is the same code. */
  lemma {:induction false} LowerValues(s: string)
    ensures Values(Lower(s)) == Values(s)
    decreases |s|
  {
    hide Value;
    var l := Lower(s);
    if s != "" {
      SpaceLower(s);
      AlikeCharacters(s[0]);
      if Ignored(s) > 0 {
        assert l[Ignored(s)..] == Lower(s[Ignored(s)..]);
        LowerValues(s[Ignored(s)..]);
      } else {
        assert l[1..] == Lower(s[1..]);
        LowerValues(s[1..]);
      }
    }
  }

  lemma SpaceLower(s: string)
    ensures Ignored(Lower(s)) == Ignored(s)
  {
  }

  lemma CaseIgnored(s: string)
    ensures Normalized(Lower(s)) == Normalized(s)
  {
    LowerValues(s);
  }
}
