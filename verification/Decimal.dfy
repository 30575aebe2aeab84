/** Unsigned decimal numbers: `format!("{n}")` and `str::parse` on u32, u64 and usize. */
module Decimal {
  import opened Text

  const U32_MAX: nat := 0xFFFF_FFFF
  const U64_MAX: nat := 0xFFFF_FFFF_FFFF_FFFF

  lemma Widths()
    ensures U32_MAX + 1 == 0x1_0000_0000 && U64_MAX + 1 == 0x1_0000_0000_0000_0000
  {
  }

  predicate IsDigit(c: char) { '0' <= c <= '9' }

  predicate AllDigits(s: string) {
    forall k :: 0 <= k < |s| ==> IsDigit(s[k])
  }

  function Print(n: nat): (s: string)
    ensures s != [] && AllDigits(s)
  {
    if n < 10 then ['0' + n as char] else Print(n / 10) + ['0' + (n % 10) as char]
  }

  function Number(s: string): nat
    requires AllDigits(s)
  {
    if s == [] then 0 else Number(s[..|s| - 1]) * 10 + (s[|s| - 1] - '0') as nat
  }

  /** An optional `+`, then at least one digit; a value over `max` is an error. */
  function Parse(s: string, max: nat): (r: Option<nat>)
    ensures r.Some? ==> r.value <= max
  {
    var d := if s != [] && s[0] == '+' then s[1..] else s;
    if d == [] || !AllDigits(d) || Number(d) > max then None else Some(Number(d))
  }

  lemma {:induction false} NumberPrint(n: nat)
    ensures Number(Print(n)) == n
  {
    if n >= 10 {
      NumberPrint(n / 10);
      assert Print(n)[..|Print(n)| - 1] == Print(n / 10);
    }
  }

  lemma ParsePrint(n: nat, max: nat)
    requires n <= max
    ensures Parse(Print(n), max) == Some(n)
  {
    NumberPrint(n);
    assert IsDigit(Print(n)[0]);
  }

  lemma PrintLacks(n: nat, c: char)
    requires !IsDigit(c)
    ensures c !in Print(n)
  {
  }

  lemma DigitTable(c: char)
    ensures IsDigit(c) <==> c in "0123456789"
  {
    var table := "0123456789";
    assert forall v :: 0 <= v < 10 ==> table[v] == '0' + v as char;
    if IsDigit(c) { assert table[(c - '0') as int] == c; }
  }

  lemma NumberSnoc(s: string, c: char)
    requires AllDigits(s) && IsDigit(c)
    ensures Number(s + [c]) == 10 * Number(s) + (c - '0') as nat
  {
    assert (s + [c])[..|s|] == s;
  }

  /** What parses: digits in base ten, leading zeros and one `+` allowed, up to the largest
      number of the type. */
  lemma ParseIs(s: string, max: nat)
    requires s != "" && AllDigits(s)
    ensures Parse(s, max) == Parse("+" + s, max) == if Number(s) <= max then Some(Number(s)) else None
  {
    assert s[0] != '+' && ("+" + s)[1..] == s;
  }

  lemma ParseNothing(s: string, max: nat)
    requires s == "" || s == "+" || exists i :: 0 <= i < |s| && !IsDigit(s[i]) && !(i == 0 && s[i] == '+')
    ensures Parse(s, max) == None
  {
    var d := if s != [] && s[0] == '+' then s[1..] else s;
    if i :| 0 <= i < |s| && !IsDigit(s[i]) && !(i == 0 && s[i] == '+') {
      assert d == s ==> !IsDigit(d[i]);
      assert d != s && i > 0 ==> !IsDigit(d[i - 1]);
    }
  }
}
