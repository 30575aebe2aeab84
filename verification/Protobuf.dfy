/** The protobuf wire format as migration.rs reads it: a cursor over the buffer, against
    a reference that cuts the buffer into fields. */
module Protobuf {
  import opened Text
  import opened Bits

  type Bytes = seq<u8>

  datatype Value = Number(n: nat) | Blob(bytes: Bytes) | Fixed(raw: Bytes)

  /** One field: its number and what its wire type carried. */
  datatype Token = Token(field: nat, value: Value)

  // --- reference ---------------------------------------------------------------

  /** Groups of seven bits, lowest first, at most `left` of them. */
  function Groups(s: Bytes, left: nat): (r: Option<(nat, Bytes)>)
    ensures r.Some? ==> |r.value.1| < |s|
    decreases left
  {
    if left == 0 || s == [] then None
    else if s[0] < 128 then Some((s[0], s[1..]))
    else match Groups(s[1..], left - 1)
      case None => None
      case Some((n, rest)) => Some((s[0] - 128 + 128 * n, rest))
  }

  /** A number and what follows it; ten groups at most, bits past 64 dropped. */
  function ReadVarint(s: Bytes): (r: Option<(nat, Bytes)>)
    ensures r.Some? ==> r.value.0 < TWO_64 && |r.value.1| < |s|
  {
    match Groups(s, 10) case None => None case Some((n, rest)) => Some((n % TWO_64, rest))
  }

  function Take(s: Bytes, n: nat): (r: Option<(Bytes, Bytes)>)
    ensures r.Some? ==> s == r.value.0 + r.value.1 && |r.value.0| == n
  {
    if n <= |s| then Some((s[..n], s[n..])) else None
  }

  function ReadBlob(s: Bytes): (r: Option<(Bytes, Bytes)>)
    ensures r.Some? ==> |r.value.1| < |s|
  {
    match ReadVarint(s) case None => None case Some((n, rest)) => Take(rest, n)
  }

  function ReadValue(wire: nat, s: Bytes): (r: Option<(Value, Bytes)>)
    ensures r.Some? ==> |r.value.1| <= |s|
  {
    if wire == 0 then
      match ReadVarint(s) case None => None case Some((n, rest)) => Some((Number(n), rest))
    else if wire == 2 then
      match ReadBlob(s) case None => None case Some((b, rest)) => Some((Blob(b), rest))
    else if wire == 1 || wire == 5 then
      match Take(s, if wire == 1 then 8 else 4) case None => None case Some((b, rest)) => Some((Fixed(b), rest))
    else None
  }

  function ReadToken(s: Bytes): (r: Option<(Token, Bytes)>)
    ensures r.Some? ==> |r.value.1| < |s|
  {
    match ReadVarint(s)
    case None => None
    case Some((key, body)) =>
      match ReadValue(key % 8, body)
      case None => None
      case Some((v, rest)) => Some((Token(key / 8, v), rest))
  }

  function Cons(t: Token, ts: Option<seq<Token>>): Option<seq<Token>> {
    if ts.Some? then Some([t] + ts.value) else None
  }

  /** The whole buffer as fields, or None where reading it fails. */
  function Tokens(s: Bytes): Option<seq<Token>>
    decreases |s|
  {
    if s == [] then Some([])
    else match ReadToken(s)
      case None => None
      case Some((t, rest)) => Cons(t, Tokens(rest))
  }

  // --- the cursor --------------------------------------------------------------

  function Weight(i: nat): (w: nat)
    ensures w >= 1
  {
    if i == 0 then 1 else 128 * Weight(i - 1)
  }

  /** A group or-ed in at its weight, the bits past 64 dropped. */
  function OrIn(out: nat, w: nat, b: nat): nat {
    (out + b * w) % TWO_64
  }

  /** The number once `out` has been read and groups of weight `w` on remain. */
  function Resume(out: nat, w: nat, r: Option<(nat, Bytes)>): Option<(nat, Bytes)> {
    match r case None => None case Some((n, rest)) => Some(((out + w * n) % TWO_64, rest))
  }

  lemma ResumeGroup(out: nat, w: nat, b: nat, n: nat)
    ensures (out + w * (b + 128 * n)) % TWO_64 == ((out + b * w) % TWO_64 + (128 * w) * n) % TWO_64
  {
    assert w * (b + 128 * n) == b * w + (128 * w) * n by { Distribute(w, b, n); }
    ModSum(out + b * w, (128 * w) * n);
  }

  lemma Distribute(w: nat, b: nat, n: nat)
    ensures w * (b + 128 * n) == b * w + (128 * w) * n
  {
  }

  lemma ModSum(x: nat, y: nat)
    ensures (x + y) % TWO_64 == (x % TWO_64 + y) % TWO_64
  {
  }

  lemma ResumeEnd(out: nat, w: nat, b: nat, rest: Bytes)
    ensures Resume(out, w, Some((b, rest))) == Some((OrIn(out, w, b), rest))
  {
  }

  lemma ResumeStep(out: nat, w: nat, s: Bytes, left: nat)
    requires left > 0 && s != [] && s[0] >= 128
    ensures Resume(out, w, Groups(s, left)) ==
            Resume(OrIn(out, w, s[0] - 128), 128 * w, Groups(s[1..], left - 1))
  {
    match Groups(s[1..], left - 1)
    case None =>
    case Some((n, rest)) => ResumeGroup(out, w, s[0] - 128, n);
  }

  /** `Reader`: everything before `pos` has been read. */
  class Reader {
    const buf: Bytes
    var pos: nat

    ghost predicate Valid() reads this { pos <= |buf| }

    ghost function Rest(): Bytes reads this requires Valid() { buf[pos..] }

    constructor (buf: Bytes)
      ensures Valid() && this.buf == buf && Rest() == buf
    {
      this.buf := buf;
      pos := 0;
    }

    method Done() returns (done: bool)
      requires Valid()
      ensures done <==> Rest() == []
    {
      return pos >= |buf|;
    }

    method Varint() returns (r: Option<nat>)
      requires Valid()
      modifies this
      ensures Valid() && pos >= old(pos)
      ensures match ReadVarint(old(Rest()))
        case None => r == None
        case Some((n, rest)) => r == Some(n) && Rest() == rest
    {
      hide Groups, Weight, Resume, OrIn, ReadVarint;
      var out: nat, weight: nat, left: nat := 0, 1, 10;
      ghost var s := Rest();
      assert ReadVarint(s) == Resume(0, 1, Groups(s, 10)) by { ResumeAll(s); }
      while left > 0
        invariant Valid() && pos >= old(pos)
        invariant out < weight
        invariant ReadVarint(s) == Resume(out, weight, Groups(Rest(), left))
      {
        if pos >= |buf| {
          NoGroups(left);
          ResumeNone(out, weight);
          return None;
        }
        var b := buf[pos];
        ghost var rest := Rest();
        assert rest[0] == b && rest[1..] == buf[pos + 1..];
        pos := pos + 1;
        if b < 128 {
          LastGroup(rest, left);
          ResumeEnd(out, weight, b, Rest());
          assert Resume(out, weight, Groups(rest, left)) == Some((OrIn(out, weight, b), Rest()));
          return Some(OrIn(out, weight, b));
        }
        ResumeStep(out, weight, rest, left);
        GroupAbove(out, weight, b - 128);
        out := OrIn(out, weight, b - 128);
        weight := 128 * weight;
        left := left - 1;
      }
      ResumeOver(out, weight, Rest());
      return None;
    }

    method Key() returns (r: Option<(nat, nat)>)
      requires Valid()
      modifies this
      ensures Valid() && pos >= old(pos)
      ensures match ReadVarint(old(Rest()))
        case None => r == None
        case Some((key, rest)) => r == Some((key / 8, key % 8)) && Rest() == rest
    {
      hide ReadVarint;
      var key := Varint();
      return if key.None? then None else Some((key.value / 8, key.value % 8));
    }

    method ReadBytes() returns (r: Option<Bytes>)
      requires Valid()
      modifies this
      ensures Valid() && pos >= old(pos)
      ensures match ReadBlob(old(Rest()))
        case None => r == None
        case Some((b, rest)) => r == Some(b) && Rest() == rest
    {
      hide ReadVarint;
      var len := Varint();
      if len.None? || len.value > |buf| - pos {
        return None;
      }
      var end := pos + len.value;
      assert Rest()[..len.value] == buf[pos..end] && Rest()[len.value..] == buf[end..];
      r := Some(buf[pos..end]);
      pos := end;
    }

    method Advance(n: nat) returns (ok: bool)
      requires Valid()
      modifies this
      ensures Valid() && pos >= old(pos)
      ensures match Take(old(Rest()), n)
        case None => !ok
        case Some((_, rest)) => ok && Rest() == rest
    {
      if n > |buf| - pos {
        return false;
      }
      assert Rest()[n..] == buf[pos + n..];
      pos := pos + n;
      return true;
    }

    method Skip(wire: nat) returns (ok: bool)
      requires Valid()
      modifies this
      ensures Valid() && pos >= old(pos)
      ensures match ReadValue(wire, old(Rest()))
        case None => !ok
        case Some((_, rest)) => ok && Rest() == rest
    {
      hide ReadVarint, ReadBlob, Take;
      match wire
      case 0 =>
        var n := Varint();
        return n.Some?;
      case 1 => ok := Advance(8);
      case 2 =>
        var b := ReadBytes();
        return b.Some?;
      case 5 => ok := Advance(4);
      case _ => return false;
    }
  }

  lemma ResumeAll(s: Bytes)
    ensures ReadVarint(s) == Resume(0, 1, Groups(s, 10))
  {
    hide Groups;
  }

  lemma NoGroups(left: nat)
    ensures Groups([], left) == None
  {
  }

  lemma ResumeNone(out: nat, w: nat)
    ensures Resume(out, w, None) == None
  {
  }

  lemma ResumeOver(out: nat, w: nat, s: Bytes)
    ensures Resume(out, w, Groups(s, 0)) == None
  {
  }

  lemma LastGroup(s: Bytes, left: nat)
    requires s != [] && s[0] < 128 && left > 0
    ensures Groups(s, left) == Some((s[0], s[1..]))
  {
  }

  /** The new group lies above everything read, so or-ing it in is adding it. */
  lemma GroupAbove(out: nat, w: nat, b: nat)
    requires out < w && b < 128
    ensures OrIn(out, w, b) < 128 * w
  {
    assert b * w <= 127 * w;
    ModLess(out + b * w);
  }

  lemma ModLess(x: nat)
    ensures x % TWO_64 <= x
  {
  }

  // --- reading is compositional ------------------------------------------------

  lemma {:induction false} GroupsLonger(s: Bytes, left: nat, more: Bytes)
    requires Groups(s, left).Some?
    ensures Groups(s + more, left) == Some((Groups(s, left).value.0, Groups(s, left).value.1 + more))
    decreases left
  {
    assert (s + more)[1..] == s[1..] + more;
    if s[0] >= 128 {
      GroupsLonger(s[1..], left - 1, more);
    }
  }

  lemma TakeLonger(s: Bytes, n: nat, more: Bytes)
    requires Take(s, n).Some?
    ensures Take(s + more, n) == Some((Take(s, n).value.0, Take(s, n).value.1 + more))
  {
    assert (s + more)[..n] == s[..n] && (s + more)[n..] == s[n..] + more;
  }

  lemma VarintLonger(s: Bytes, more: Bytes)
    requires ReadVarint(s).Some?
    ensures ReadVarint(s + more) == Some((ReadVarint(s).value.0, ReadVarint(s).value.1 + more))
  {
    hide Groups;
    GroupsLonger(s, 10, more);
  }

  lemma ValueLonger(wire: nat, s: Bytes, more: Bytes)
    requires ReadValue(wire, s).Some?
    ensures ReadValue(wire, s + more) == Some((ReadValue(wire, s).value.0, ReadValue(wire, s).value.1 + more))
  {
    hide ReadVarint, Take;
    if wire == 0 {
      VarintLonger(s, more);
    } else if wire == 2 {
      VarintLonger(s, more);
      var (n, rest) := ReadVarint(s).value;
      TakeLonger(rest, n, more);
    } else {
      TakeLonger(s, if wire == 1 then 8 else 4, more);
    }
  }

  lemma TokenLonger(s: Bytes, more: Bytes)
    requires ReadToken(s).Some?
    ensures ReadToken(s + more) == Some((ReadToken(s).value.0, ReadToken(s).value.1 + more))
  {
    hide ReadVarint, ReadValue;
    VarintLonger(s, more);
    var (key, body) := ReadVarint(s).value;
    ValueLonger(key % 8, body, more);
  }

  /** A run of whole fields, then the rest. */
  lemma {:induction false} TokensConcat(a: Bytes, b: Bytes)
    requires Tokens(a).Some?
    ensures Tokens(a + b) == if Tokens(b).Some? then Some(Tokens(a).value + Tokens(b).value) else None
    decreases |a|
  {
    hide ReadToken;
    if a == [] {
      assert a + b == b;
      assert Tokens(b).Some? ==> [] + Tokens(b).value == Tokens(b).value;
    } else {
      var (t, rest) := ReadToken(a).value;
      TokenLonger(a, b);
      TokensConcat(rest, b);
      if Tokens(b).Some? {
        assert [t] + (Tokens(rest).value + Tokens(b).value) == [t] + Tokens(rest).value + Tokens(b).value;
      }
    }
  }

  // --- the writer ----------------------------------------------------------------

  function WriteVarint(n: nat): Bytes {
    if n < 128 then [n] else [128 + n % 128] + WriteVarint(n / 128)
  }

  lemma {:induction false} GroupsWritten(n: nat, left: nat, rest: Bytes)
    requires n < Weight(left) && left > 0
    ensures Groups(WriteVarint(n) + rest, left) == Some((n, rest))
    decreases n
  {
    var s := WriteVarint(n) + rest;
    if n < 128 {
      assert s[1..] == rest;
    } else {
      WriteVarintLong(n);
      assert s[1..] == WriteVarint(n / 128) + rest;
      GroupsWritten(n / 128, left - 1, rest);
    }
  }

  lemma WriteVarintLong(n: nat)
    requires n >= 128
    ensures WriteVarint(n) == [128 + n % 128] + WriteVarint(n / 128)
  {
  }

  lemma TenGroups()
    ensures TWO_64 <= Weight(10)
  {
    assert Weight(5) == 128 * 128 * 128 * 128 * 128;
    assert Weight(10) == 128 * (128 * (128 * (128 * (128 * Weight(5)))));
  }

  /** Reading a number inverts its base-128 writing, for every 64-bit number. */
  lemma VarintRoundTrip(n: nat, rest: Bytes)
    requires n < TWO_64
    ensures ReadVarint(WriteVarint(n) + rest) == Some((n, rest))
  {
    hide Groups, Weight, WriteVarint;
    TenGroups();
    GroupsWritten(n, 10, rest);
  }

  function Wire(v: Value): nat {
    match v
    case Number(_) => 0
    case Blob(_) => 2
    case Fixed(raw) => if |raw| == 8 then 1 else 5
  }

  function WriteValue(v: Value): Bytes {
    match v
    case Number(n) => WriteVarint(n)
    case Blob(b) => WriteVarint(|b|) + b
    case Fixed(raw) => raw
  }

  function WriteToken(t: Token): Bytes {
    WriteVarint(t.field * 8 + Wire(t.value)) + WriteValue(t.value)
  }

  function WriteTokens(ts: seq<Token>): Bytes {
    if ts == [] then [] else WriteToken(ts[0]) + WriteTokens(ts[1..])
  }

  /** A field that fits the wire format. */
  ghost predicate GoodToken(t: Token) {
    && t.field * 8 + 7 < TWO_64
    && match t.value
       case Number(n) => n < TWO_64
       case Blob(b) => |b| < TWO_64
       case Fixed(raw) => |raw| == 4 || |raw| == 8
  }

  lemma ValueRoundTrip(v: Value, rest: Bytes)
    requires GoodToken(Token(0, v))
    ensures ReadValue(Wire(v), WriteValue(v) + rest) == Some((v, rest))
  {
    hide ReadVarint, WriteVarint;
    match v
    case Number(n) => VarintRoundTrip(n, rest);
    case Blob(b) =>
      VarintRoundTrip(|b|, b + rest);
      assert WriteVarint(|b|) + b + rest == WriteVarint(|b|) + (b + rest);
      assert (b + rest)[..|b|] == b && (b + rest)[|b|..] == rest;
    case Fixed(raw) =>
      assert (raw + rest)[..|raw|] == raw && (raw + rest)[|raw|..] == rest;
  }

  lemma TokenRoundTrip(t: Token, rest: Bytes)
    requires GoodToken(t)
    ensures ReadToken(WriteToken(t) + rest) == Some((t, rest))
  {
    hide ReadVarint, WriteVarint, ReadValue, WriteValue;
    var key := t.field * 8 + Wire(t.value);
    VarintRoundTrip(key, WriteValue(t.value) + rest);
    assert WriteToken(t) + rest == WriteVarint(key) + (WriteValue(t.value) + rest);
    ValueRoundTrip(t.value, rest);
  }

  lemma {:induction false} TokensRoundTrip(ts: seq<Token>)
    requires forall i :: 0 <= i < |ts| ==> GoodToken(ts[i])
    ensures Tokens(WriteTokens(ts)) == Some(ts)
  {
    hide ReadToken, WriteToken, GoodToken;
    if ts != [] {
      TokenRoundTrip(ts[0], WriteTokens(ts[1..]));
      TokensRoundTrip(ts[1..]);
      assert [ts[0]] + ts[1..] == ts;
    }
  }
}
