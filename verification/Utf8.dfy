/** UTF-8 as `std::str::from_utf8` and `String::from_utf8_lossy` read it, and the
    Unicode White_Space characters `str::trim` and `split_whitespace` know. */
module Utf8 {
  import opened Text

  predicate Cont(c: char) { 0x80 as char <= c <= 0xBF as char }

  /** Length of the well-formed character at the front, or 0. */
  function CharLen(s: string): (n: nat)
    ensures n <= |s| && n <= 4
  {
    if |s| >= 1 && s[0] < 0x80 as char then 1
    else if |s| >= 2 && 0xC2 as char <= s[0] <= 0xDF as char && Cont(s[1]) then 2
    else if |s| >= 3 && ThreeStart(s[0], s[1]) && Cont(s[2]) then 3
    else if |s| >= 4 && FourStart(s[0], s[1]) && Cont(s[2]) && Cont(s[3]) then 4
    else 0
  }

  predicate ThreeStart(a: char, b: char) {
    || (a == 0xE0 as char && 0xA0 as char <= b <= 0xBF as char)
    || (0xE1 as char <= a <= 0xEC as char && Cont(b))
    || (a == 0xED as char && 0x80 as char <= b <= 0x9F as char)
    || (0xEE as char <= a <= 0xEF as char && Cont(b))
  }

  predicate FourStart(a: char, b: char) {
    || (a == 0xF0 as char && 0x90 as char <= b <= 0xBF as char)
    || (0xF1 as char <= a <= 0xF3 as char && Cont(b))
    || (a == 0xF4 as char && 0x80 as char <= b <= 0x8F as char)
  }

  /** Length of the maximal ill-formed piece that one U+FFFD replaces. */
  function BadLen(s: string): (n: nat)
    requires s != []
    ensures 1 <= n <= |s|
  {
    if |s| >= 3 && FourStart(s[0], s[1]) && Cont(s[2]) then 3
    else if |s| >= 2 && (ThreeStart(s[0], s[1]) || FourStart(s[0], s[1])) then 2
    else 1
  }

  predicate IsUtf8(s: string)
    decreases |s|
  {
    s == [] || (CharLen(s) > 0 && IsUtf8(s[CharLen(s)..]))
  }

  const REPLACEMENT: string := [0xEF as char, 0xBF as char, 0xBD as char]

  /** `String::from_utf8_lossy`. */
  function Lossy(s: string): string
    decreases |s|
  {
    if s == [] then []
    else if CharLen(s) > 0 then s[..CharLen(s)] + Lossy(s[CharLen(s)..])
    else REPLACEMENT + Lossy(s[BadLen(s)..])
  }

  lemma {:induction false} LossyId(s: string)
    requires IsUtf8(s)
    ensures Lossy(s) == s
    decreases |s|
  {
    if s != [] {
      LossyId(s[CharLen(s)..]);
    }
  }

  lemma {:induction false} LossyIsUtf8(s: string)
    ensures IsUtf8(Lossy(s))
    decreases |s|
  {
    if s != [] {
      if CharLen(s) > 0 {
        var n := CharLen(s);
        LossyIsUtf8(s[n..]);
        CharThen(s[..n], Lossy(s[n..]));
      } else {
        LossyIsUtf8(s[BadLen(s)..]);
        CharThen(REPLACEMENT, Lossy(s[BadLen(s)..]));
      }
    }
  }

  lemma CharThen(c: string, rest: string)
    requires c != [] && CharLen(c) == |c| && IsUtf8(rest)
    ensures IsUtf8(c + rest)
  {
    var s := c + rest;
    assert CharLen(s) == |c|;
    assert s[|c|..] == rest;
  }

  lemma {:induction false} Concat(a: string, b: string)
    requires IsUtf8(a)
    ensures IsUtf8(a + b) <==> IsUtf8(b)
    decreases |a|
  {
    if a == [] {
      assert a + b == b;
    } else {
      var n := CharLen(a);
      assert CharLen(a + b) == n;
      assert (a + b)[n..] == a[n..] + b;
      Concat(a[n..], b);
    }
  }

  /** A one-byte character is always a boundary. */
  lemma {:induction false} AsciiBoundary(a: string, c: char, b: string)
    requires c < 0x80 as char
    ensures IsUtf8(a + [c] + b) <==> IsUtf8(a) && IsUtf8(b)
    decreases |a|
  {
    var s := a + [c] + b;
    if a == [] {
      assert s[1..] == b;
    } else if CharLen(a) > 0 {
      var n := CharLen(a);
      assert CharLen(s) == n;
      assert s[n..] == a[n..] + [c] + b;
      AsciiBoundary(a[n..], c, b);
    } else {
      assert CharLen(s) == 0;
    }
  }

  predicate Ascii(s: string) {
    forall k :: 0 <= k < |s| ==> s[k] < 0x80 as char
  }

  lemma {:induction false} AsciiIsUtf8(s: string)
    requires Ascii(s)
    ensures IsUtf8(s)
  {
    if s != [] {
      AsciiIsUtf8(s[1..]);
    }
  }

  // --- white space ---------------------------------------------------------

  predicate AsciiSpace(c: char) {
    c == ' ' || 0x09 as char <= c <= 0x0D as char
  }

  predicate Space2(a: char, b: char) {
    a == 0xC2 as char && (b == 0x85 as char || b == 0xA0 as char)
  }

  predicate Space3(a: char, b: char, c: char) {
    || (a == 0xE1 as char && b == 0x9A as char && c == 0x80 as char)
    || (a == 0xE2 as char && b == 0x80 as char && (c <= 0x8A as char || c == 0xA8 as char || c == 0xA9 as char || c == 0xAF as char) && Cont(c))
    || (a == 0xE2 as char && b == 0x81 as char && c == 0x9F as char)
    || (a == 0xE3 as char && b == 0x80 as char && c == 0x80 as char)
  }

  /** Bytes of the white-space character at the front of `s`, or 0. */
  function SpaceAt(s: string): (n: nat)
    ensures n <= |s| && n <= 3
  {
    if |s| >= 1 && AsciiSpace(s[0]) then 1
    else if |s| >= 2 && Space2(s[0], s[1]) then 2
    else if |s| >= 3 && Space3(s[0], s[1], s[2]) then 3
    else 0
  }

  /** Bytes of the white-space character at the end of `s`, or 0. */
  function SpaceEnd(s: string): (n: nat)
    ensures n <= |s| && n <= 3
  {
    var m := |s|;
    if m >= 1 && AsciiSpace(s[m - 1]) then 1
    else if m >= 2 && Space2(s[m - 2], s[m - 1]) then 2
    else if m >= 3 && Space3(s[m - 3], s[m - 2], s[m - 1]) then 3
    else 0
  }

  function TrimStart(s: string): (r: string)
    ensures SpaceAt(r) == 0
    decreases |s|
  {
    if SpaceAt(s) > 0 then TrimStart(s[SpaceAt(s)..]) else s
  }

  function TrimEnd(s: string): (r: string)
    ensures r <= s
    ensures SpaceEnd(r) == 0
    decreases |s|
  {
    if SpaceEnd(s) > 0 then TrimEnd(s[..|s| - SpaceEnd(s)]) else s
  }

  /** `str::trim`. */
  function Trim(s: string): string {
    TrimEnd(TrimStart(s))
  }

  ghost predicate Trimmed(s: string) {
    SpaceAt(s) == 0 && SpaceEnd(s) == 0
  }

  lemma TrimmedStays(s: string)
    requires Trimmed(s)
    ensures Trim(s) == s
  {
  }

  lemma TrimIsTrimmed(s: string)
    ensures Trimmed(Trim(s))
  {
  }

  lemma {:induction false} TrimCr(v: string)
    ensures Trim(v + "\r") == Trim(v)
    decreases |v|
  {
    var x := v + "\r";
    if v == "" {
      assert SpaceAt(x) == 1 && x[1..] == "";
      assert TrimStart("") == "";
      assert TrimStart(x) == "";
    } else if SpaceAt(v) > 0 {
      assert SpaceAt(x) == SpaceAt(v);
      assert x[SpaceAt(x)..] == v[SpaceAt(v)..] + "\r";
      TrimCr(v[SpaceAt(v)..]);
    } else {
      assert SpaceAt(x) == 0;
      assert SpaceEnd(x) == 1 && x[..|x| - 1] == v;
    }
  }

  lemma TrimStripCr(line: string)
    ensures Trim(StripCr(line)) == Trim(line)
  {
    hide Trim;
    if StripCr(line) != line {
      TrimCr(StripCr(line));
      assert line == StripCr(line) + "\r";
    }
  }

  /** Trimming never cuts a character. */
  lemma {:induction false} TrimStartUtf8(s: string)
    requires IsUtf8(s)
    ensures IsUtf8(TrimStart(s))
    decreases |s|
  {
    if SpaceAt(s) > 0 {
      assert CharLen(s) == SpaceAt(s);
      TrimStartUtf8(s[SpaceAt(s)..]);
    }
  }

  lemma DropTail(s: string, n: nat, m: nat)
    requires n + m <= |s|
    ensures s[..n] + s[n..][..|s[n..]| - m] == s[..|s| - m]
  {
  }

  /** A white-space character at the end does not reach into the character before. */
  lemma SpaceEndTail(s: string, n: nat)
    requires s != "" && n == CharLen(s) > 0 && s[n..] != "" && IsUtf8(s[n..])
    ensures SpaceEnd(s[n..]) == SpaceEnd(s) <= |s[n..]|
  {
    hide IsUtf8;
    assert CharLen(s[n..]) > 0 by { FirstChar(s[n..]); }
  }

  lemma FirstChar(s: string)
    requires IsUtf8(s) && s != ""
    ensures CharLen(s) > 0
  {
  }

  lemma {:induction false} DropSpaceEnd(s: string)
    requires IsUtf8(s) && SpaceEnd(s) > 0
    ensures IsUtf8(s[..|s| - SpaceEnd(s)])
    decreases |s|
  {
    var n, m := CharLen(s), SpaceEnd(s);
    var t := s[n..];
    if t == [] {
      assert s[..|s| - m] == [];
    } else {
      SpaceEndTail(s, n);
      DropSpaceEnd(t);
      DropTail(s, n, m);
      CharThen(s[..n], t[..|t| - m]);
    }
  }

  lemma {:induction false} TrimEndUtf8(s: string)
    requires IsUtf8(s)
    ensures IsUtf8(TrimEnd(s))
    decreases |s|
  {
    if SpaceEnd(s) > 0 {
      DropSpaceEnd(s);
      TrimEndUtf8(s[..|s| - SpaceEnd(s)]);
    }
  }

  lemma TrimUtf8(s: string)
    requires IsUtf8(s)
    ensures IsUtf8(Trim(s))
  {
    TrimStartUtf8(s);
    TrimEndUtf8(TrimStart(s));
  }

  // --- words -------------------------------------------------------------------

  function WordLen(s: string): (n: nat)
    ensures n <= |s|
    ensures s != "" && SpaceAt(s) == 0 ==> n > 0
  {
    if s == "" || SpaceAt(s) > 0 then 0 else 1 + WordLen(s[1..])
  }

  /** `str::split_whitespace`. */
  function Words(s: string): seq<string>
    decreases |s|
  {
    if s == "" then []
    else if SpaceAt(s) > 0 then Words(s[SpaceAt(s)..])
    else [s[..WordLen(s)]] + Words(s[WordLen(s)..])
  }

  /** A word: not empty, and no white space anywhere in it. */
  ghost predicate Solid(s: string) {
    s != "" && forall i :: 0 <= i < |s| ==> SpaceAt(s[i..]) == 0
  }

  /** No white-space character begins in a word and ends after a following space. */
  lemma SolidThenSpace(w: string, rest: string)
    requires Solid(w) && (rest == "" || rest[0] == ' ')
    ensures forall i :: 0 <= i < |w| ==> SpaceAt((w + rest)[i..]) == 0
  {
    forall i | 0 <= i < |w|
      ensures SpaceAt((w + rest)[i..]) == 0
    {
      var a, b := w[i..], (w + rest)[i..];
      assert b == a + rest;
      assert SpaceAt(a) == 0;
    }
  }

  lemma {:induction false} WordLenOf(w: string, rest: string)
    requires rest == "" || rest[0] == ' '
    requires forall i :: 0 <= i < |w| ==> SpaceAt((w + rest)[i..]) == 0
    ensures WordLen(w + rest) == |w|
    decreases |w|
  {
    var s := w + rest;
    if w == "" {
      assert s == rest;
    } else {
      assert s[0..] == s;
      assert s[1..] == w[1..] + rest;
      forall i | 0 <= i < |w| - 1
        ensures SpaceAt((w[1..] + rest)[i..]) == 0
      {
        assert (w[1..] + rest)[i..] == s[i + 1..];
      }
      WordLenOf(w[1..], rest);
    }
  }

  lemma WordsStep(w: string, rest: string)
    requires Solid(w) && (rest == "" || rest[0] == ' ')
    ensures Words(w + rest) == [w] + Words(rest)
    ensures rest != "" ==> Words(rest) == Words(rest[1..])
  {
    hide WordLen;
    SolidThenSpace(w, rest);
    WordLenOf(w, rest);
    var s := w + rest;
    assert s[0..] == s;
    assert s[..|w|] == w && s[|w|..] == rest;
  }

  lemma NoWords()
    ensures Words("") == []
  {
  }

  ghost predicate AllSolid(ws: seq<string>) {
    forall k :: 0 <= k < |ws| ==> Solid(ws[k])
  }

  /** What splitting gives are words. */
  lemma {:induction false} WordsSolid(s: string)
    ensures AllSolid(Words(s))
    decreases |s|
  {
    hide SpaceAt, WordLen;
    if s != "" {
      if SpaceAt(s) > 0 {
        WordsSolid(s[SpaceAt(s)..]);
      } else {
        WordsSolid(s[WordLen(s)..]);
        FirstWordSolid(s);
      }
    }
  }

  lemma FirstWordSolid(s: string)
    requires s != "" && SpaceAt(s) == 0
    ensures Solid(s[..WordLen(s)])
  {
    hide SpaceAt;
    var n := WordLen(s);
    WordLenStops(s);
    forall i | 0 <= i < n
      ensures SpaceAt(s[..n][i..]) == 0
    {
      assert s[i..] == s[..n][i..] + s[n..];
      PrefixSpace(s[..n][i..], s[n..]);
    }
  }

  lemma {:induction false} WordLenStops(s: string)
    ensures forall i :: 0 <= i < WordLen(s) ==> SpaceAt(s[i..]) == 0
  {
    hide SpaceAt;
    if s != "" && SpaceAt(s) == 0 {
      WordLenStops(s[1..]);
      assert s[0..] == s;
      forall i | 1 <= i < WordLen(s)
        ensures SpaceAt(s[i..]) == 0
      {
        assert s[i..] == s[1..][i - 1..];
      }
    }
  }

  lemma PrefixSpace(a: string, b: string)
    requires SpaceAt(a + b) == 0
    ensures SpaceAt(a) == 0
  {
  }

  /** White space never ends in a word, nor reaches over a space into one. */
  lemma SolidEnd(w: string)
    requires Solid(w)
    ensures SpaceEnd(w) == 0 && SpaceAt(w) == 0
  {
    assert w[0..] == w;
    var m := |w|;
    assert SpaceAt(w[m - 1..]) == 0;
    assert m >= 2 ==> SpaceAt(w[m - 2..]) == 0;
    assert m >= 3 ==> SpaceAt(w[m - 3..]) == 0;
  }

  lemma SolidEndAfter(a: string, w: string)
    requires Solid(w)
    ensures SpaceEnd(a + " " + w) == 0
  {
    SolidEnd(w);
    var s := a + " " + w;
    assert s[|s| - 1] == w[|w| - 1];
    assert s[|a|] == ' ';
  }

  /** Words joined by single spaces are trimmed and split back into them. */
  lemma {:induction false} JoinedWords(ws: seq<string>)
    requires |ws| >= 1 && AllSolid(ws)
    ensures Words(Join(ws, ' ')) == ws && Trimmed(Join(ws, ' ')) && Join(ws, ' ') != ""
    ensures Join(ws, ' ')[0] == ws[0][0]
  {
    hide Words, SpaceAt, SpaceEnd;
    var w, s := ws[0], Join(ws, ' ');
    assert Words("") == [] by { NoWords(); }
    SolidEnd(w);
    if |ws| == 1 {
      WordsStep(w, "");
      assert w + "" == w && [w] + [] == ws;
    } else {
      var rest := Join(ws[1..], ' ');
      JoinedWords(ws[1..]);
      WordsStep(w, " " + rest);
      assert (" " + rest)[1..] == rest;
      assert s == w + (" " + rest);
      assert ws == [w] + ws[1..];
      LastWord(ws);
      SolidThenSpace(w, " " + rest);
      assert s[0..] == s;
    }
  }

  lemma {:induction false} LastWord(ws: seq<string>)
    requires |ws| >= 2 && AllSolid(ws)
    ensures SpaceEnd(Join(ws, ' ')) == 0
  {
    hide SpaceEnd;
    var init, w := ws[..|ws| - 1], ws[|ws| - 1];
    assert ws == init + [w];
    JoinConcat(init, ' ', [w]);
    assert Join([w], ' ') == w;
    SolidEndAfter(Join(init, ' '), w);
  }

  lemma SolidClean(s: string)
    requires Solid(s)
    ensures '\n' !in s && '\r' !in s
  {
    forall i | 0 <= i < |s|
      ensures s[i] != '\n' && s[i] != '\r'
    {
      assert SpaceAt(s[i..]) == 0 && s[i..][0] == s[i];
    }
  }

  // --- against the code points ---------------------------------------------------

  predicate Scalar(cp: nat) {
    cp <= 0x10_FFFF && !(0xD800 <= cp <= 0xDFFF)
  }

  /** A code point in bytes (section 3 of RFC 3629). */
  function Utf8Of(cp: nat): (s: string)
    requires Scalar(cp)
    ensures 1 <= |s| <= 4
  {
    if cp < 0x80 then [cp as char]
    else if cp < 0x800 then [(0xC0 + cp / 64) as char, (0x80 + cp % 64) as char]
    else if cp < 0x1_0000 then
      [(0xE0 + cp / 4096) as char, (0x80 + cp / 64 % 64) as char, (0x80 + cp % 64) as char]
    else
      [(0xF0 + cp / 0x4_0000) as char, (0x80 + cp / 4096 % 64) as char,
       (0x80 + cp / 64 % 64) as char, (0x80 + cp % 64) as char]
  }

  lemma FrontLen(c: string, rest: string)
    requires 1 <= |c| <= 4 && CharLen(c) == |c|
    ensures CharLen(c + rest) == |c|
  {
    var s := c + rest;
    assert s[0] == c[0];
    assert |c| >= 2 ==> s[1] == c[1];
    assert |c| >= 3 ==> s[2] == c[2];
    assert |c| >= 4 ==> s[3] == c[3];
  }

  lemma CharOf(cp: nat, rest: string)
    requires Scalar(cp)
    ensures CharLen(Utf8Of(cp) + rest) == |Utf8Of(cp)|
  {
    CharOnly(cp);
    hide Utf8Of, CharLen;
    FrontLen(Utf8Of(cp), rest);
  }

  lemma CharOnly(cp: nat)
    requires Scalar(cp)
    ensures CharLen(Utf8Of(cp)) == |Utf8Of(cp)|
  {
    if cp >= 0x1_0000 {
      FourOnly(cp, cp / 0x4_0000, cp / 4096 % 64);
    } else if cp >= 0x800 {
      ThreeOnly(cp, cp / 4096, cp / 64 % 64);
    }
  }

  lemma ThreeOnly(cp: nat, a: nat, b: nat)
    requires Scalar(cp) && 0x800 <= cp < 0x1_0000 && a == cp / 4096 && b == cp / 64 % 64
    ensures ThreeStart((0xE0 + a) as char, (0x80 + b) as char)
  {
    assert cp / 64 == a * 64 + b;
    assert a == 0 ==> b >= 0x20;
    assert a == 13 ==> b < 0x20;
  }

  lemma FourOnly(cp: nat, a: nat, b: nat)
    requires Scalar(cp) && cp >= 0x1_0000 && a == cp / 0x4_0000 && b == cp / 4096 % 64
    ensures FourStart((0xF0 + a) as char, (0x80 + b) as char)
  {
    assert cp / 4096 == a * 64 + b;
    assert a == 0 ==> b >= 0x10;
    assert a == 4 ==> b < 0x10;
  }

  lemma TwoScalar(a: char, b: char) returns (cp: nat)
    requires 0xC2 as char <= a <= 0xDF as char && Cont(b)
    ensures Scalar(cp) && Utf8Of(cp) == [a, b]
  {
    cp := (a as nat - 0xC0) * 64 + (b as nat - 0x80);
  }

  lemma ThreeScalar(a: char, b: char, c: char) returns (cp: nat)
    requires ThreeStart(a, b) && Cont(c)
    ensures Scalar(cp) && Utf8Of(cp) == [a, b, c]
  {
    var x, y, z := a as nat - 0xE0, b as nat - 0x80, c as nat - 0x80;
    cp := x * 4096 + y * 64 + z;
    Sixes(0, x, y, z);
  }

  lemma ScalarOf(s: string) returns (cp: nat)
    requires CharLen(s) > 0
    ensures Scalar(cp) && s[..CharLen(s)] == Utf8Of(cp)
  {
    var n := CharLen(s);
    if n == 1 {
      cp := s[0] as nat;
    } else if n == 2 {
      hide Utf8Of, Scalar;
      cp := TwoScalar(s[0], s[1]);
    } else if n == 3 {
      hide Utf8Of, Scalar;
      cp := ThreeScalar(s[0], s[1], s[2]);
    } else {
      hide Utf8Of, Scalar;
      cp := FourScalar(s[0], s[1], s[2], s[3]);
    }
  }

  lemma Sixes(a: nat, b: nat, c: nat, d: nat)
    requires b < 64 && c < 64 && d < 64
    ensures var n := a * 0x4_0000 + b * 4096 + c * 64 + d;
      n / 0x4_0000 == a && n / 4096 % 64 == b && n / 64 % 64 == c && n % 64 == d
  {
    var n := a * 0x4_0000 + b * 4096 + c * 64 + d;
    assert n / 64 == a * 4096 + b * 64 + c;
    assert n / 4096 == a * 64 + b;
  }

  lemma FourScalar(a: char, b: char, c: char, d: char) returns (cp: nat)
    requires FourStart(a, b) && Cont(c) && Cont(d)
    ensures Scalar(cp) && Utf8Of(cp) == [a, b, c, d]
  {
    var w, x, y, z := a as nat - 0xF0, b as nat - 0x80, c as nat - 0x80, d as nat - 0x80;
    cp := w * 0x4_0000 + x * 4096 + y * 64 + z;
    Sixes(w, x, y, z);
    assert 0x1_0000 <= cp <= 0x10_FFFF;
  }

  ghost predicate Scalars(cps: seq<nat>) {
    forall i :: 0 <= i < |cps| ==> Scalar(cps[i])
  }

  function TextOf(cps: seq<nat>): string
    requires Scalars(cps)
  {
    if cps == [] then "" else Utf8Of(cps[0]) + TextOf(cps[1..])
  }

  lemma {:induction false} TextIsUtf8(cps: seq<nat>)
    requires Scalars(cps)
    ensures IsUtf8(TextOf(cps))
  {
    hide Utf8Of, Scalar, CharLen;
    if cps != [] {
      TextIsUtf8(cps[1..]);
      CharOf(cps[0], "");
      assert Utf8Of(cps[0]) + "" == Utf8Of(cps[0]);
      CharThen(Utf8Of(cps[0]), TextOf(cps[1..]));
    }
  }

  /** Valid text is exactly what some code points are written as. */
  lemma {:induction false} Utf8IsText(s: string) returns (cps: seq<nat>)
    requires IsUtf8(s)
    ensures Scalars(cps) && s == TextOf(cps)
    decreases |s|
  {
    hide Utf8Of, Scalar;
    if s == "" {
      cps := [];
    } else {
      var n := CharLen(s);
      var cp := ScalarOf(s);
      var rest := Utf8IsText(s[n..]);
      cps := [cp] + rest;
      assert cps[1..] == rest && s == s[..n] + s[n..];
    }
  }

  /** The Unicode White_Space characters. */
  predicate WhiteSpace(cp: nat) {
    || 0x09 <= cp <= 0x0D || cp in {0x20, 0x85, 0xA0, 0x1680, 0x2028, 0x2029, 0x202F, 0x205F, 0x3000}
    || 0x2000 <= cp <= 0x200A
  }

  lemma SpaceIs(cp: nat, rest: string)
    requires Scalar(cp)
    ensures SpaceAt(Utf8Of(cp) + rest) == if WhiteSpace(cp) then |Utf8Of(cp)| else 0
  {
    var c, s := Utf8Of(cp), Utf8Of(cp) + rest;
    assert s[0] == c[0];
    assert |c| >= 2 ==> s[1] == c[1];
    assert |c| >= 3 ==> s[2] == c[2];
  }

  lemma SpaceEndIs(before: string, cp: nat)
    requires Scalar(cp)
    ensures SpaceEnd(before + Utf8Of(cp)) == if WhiteSpace(cp) then |Utf8Of(cp)| else 0
  {
    var c, s := Utf8Of(cp), before + Utf8Of(cp);
    var n, m := |c|, |s|;
    assert s[m - 1] == c[n - 1];
    assert n >= 2 ==> s[m - 2] == c[n - 2];
    assert n >= 3 ==> s[m - 3] == c[n - 3];
  }

  /** Some character starts with `s` and goes on. */
  ghost predicate Begins(s: string) {
    exists cp :: Scalar(cp) && s < Utf8Of(cp)
  }

  lemma ThreeBegins(a: char, b: char)
    requires ThreeStart(a, b)
    ensures Begins([a, b])
  {
    hide Utf8Of, Scalar;
    var cp := ThreeScalar(a, b, 0x80 as char);
    assert [a, b] < Utf8Of(cp);
  }

  lemma FourBegins(a: char, b: char, c: char)
    requires FourStart(a, b) && Cont(c)
    ensures Begins([a, b]) && Begins([a, b, c])
  {
    hide Utf8Of, Scalar;
    var cp := FourScalar(a, b, c, 0x80 as char);
    assert [a, b, c] < Utf8Of(cp) && [a, b] < Utf8Of(cp);
  }

  /** What one replacement character stands for: one byte, or the longest start of a character
      there is. */
  lemma BadLenIs(s: string)
    requires s != "" && CharLen(s) == 0
    ensures BadLen(s) == 1 || Begins(s[..BadLen(s)])
    ensures BadLen(s) < |s| ==> !Begins(s[..BadLen(s) + 1])
  {
    var n := BadLen(s);
    if n == 2 {
      assert s[..2] == [s[0], s[1]];
      if ThreeStart(s[0], s[1]) { ThreeBegins(s[0], s[1]); } else { FourBegins(s[0], s[1], 0x80 as char); }
    } else if n == 3 {
      assert s[..3] == [s[0], s[1], s[2]];
      FourBegins(s[0], s[1], s[2]);
    }
    if n < |s| && Begins(s[..n + 1]) {
      var cp :| Scalar(cp) && s[..n + 1] < Utf8Of(cp);
      NoLonger(s, n, cp);
    }
  }

  lemma NoLonger(s: string, n: nat, cp: nat)
    requires s != "" && CharLen(s) == 0 && n == BadLen(s) < |s| && Scalar(cp)
    ensures !(s[..n + 1] < Utf8Of(cp))
  {
    var c, p := Utf8Of(cp), s[..n + 1];
    assert p[0] == s[0] && p[1] == s[1];
    assert n >= 2 ==> p[2] == s[2];
    assert n >= 3 ==> p[3] == s[3];
  }

  /** Lossy reading keeps every whole character and puts U+FFFD for each piece that is none. */
  lemma LossyIs(cp: nat, bad: string, rest: string)
    requires Scalar(cp)
    ensures Lossy(Utf8Of(cp) + rest) == Utf8Of(cp) + Lossy(rest)
    ensures bad + rest != "" && CharLen(bad + rest) == 0 && BadLen(bad + rest) == |bad|
      ==> Lossy(bad + rest) == Utf8Of(0xFFFD) + Lossy(rest)
  {
    CharOf(cp, rest);
    var s := Utf8Of(cp) + rest;
    assert s[..|Utf8Of(cp)|] == Utf8Of(cp) && s[|Utf8Of(cp)|..] == rest;
    assert (bad + rest)[|bad|..] == rest;
    assert Utf8Of(0xFFFD) == REPLACEMENT by { Replacement(); }
  }

  lemma Replacement()
    ensures Utf8Of(0xFFFD) == REPLACEMENT
  {
  }
}
