/** Passkey lines of an entry (webauthn.rs) behave as a list: append at the end,
    delete the first with a given id. What a value decodes to is left to the caller. */
module Passkeys {
  import opened Text
  import opened Utf8
  import opened EntryCodec
  import opened EntryLaws

  const FIELD_KEY := "passkey"

  /** `Passkey::from_value` on a trimmed value; only the credential id matters here. */
  type Decoder = string -> Option<string>

  function FromValue(decode: Decoder, v: string): Option<string> {
    decode(Trim(v))
  }

  predicate Is(decode: Decoder, id: string, v: string) {
    FromValue(decode, v) == Some(id)
  }

  // --- the operations ----------------------------------------------------------

  /** A brand-new entry gets an empty password line first. */
  function AddText(raw: string, value: string): string {
    AppendLine(if raw == "" then "\n" else raw, FieldLine(FIELD_KEY, value))
  }

  function RemoveText(decode: Decoder, raw: string, id: string): Option<string> {
    RemoveFieldText(raw, FIELD_KEY, v => Is(decode, id, v))
  }

  method AddPasskey(entry: Entry, value: string)
    modifies entry
    ensures entry.raw == AddText(old(entry.raw), value)
  {
    hide FieldLine;
    if entry.raw == "" {
      entry.raw := "\n";
    }
    entry.AppendField(FIELD_KEY, value);
  }

  method RemovePasskey(decode: Decoder, entry: Entry, id: string) returns (removed: bool)
    modifies entry
    ensures removed <==> RemoveText(decode, old(entry.raw), id).Some?
    ensures entry.raw == if removed then RemoveText(decode, old(entry.raw), id).value else old(entry.raw)
  {
    removed := entry.RemoveFieldWhere(FIELD_KEY, v => Is(decode, id, v));
  }

  /** `entry_passkeys`: every readable passkey, in line order. */
  function Ids(decode: Decoder, fs: seq<Field>): seq<string> {
    if fs == [] then []
    else
      (if fs[0].key == FIELD_KEY && FromValue(decode, fs[0].value).Some?
       then [FromValue(decode, fs[0].value).value] else []) + Ids(decode, fs[1..])
  }

  // --- the list they stand for ---------------------------------------------------

  predicate IsPasskey(line: string) {
    HasKey(StripCr(line), FIELD_KEY)
  }

  function ValueIn(line: string): string
    requires IsPasskey(line)
  {
    FieldOf(StripCr(line)).value.value
  }

  function Values(ls: seq<string>): seq<string> {
    if ls == [] then [] else (if IsPasskey(ls[0]) then [ValueIn(ls[0])] else []) + Values(ls[1..])
  }

  function Others(ls: seq<string>): seq<string> {
    if ls == [] then [] else (if IsPasskey(ls[0]) then [] else [ls[0]]) + Others(ls[1..])
  }

  /** The passkey values after line 1, and every other line after line 1. */
  function List(raw: string): seq<string> {
    if TermLines(raw) == [] then [] else Values(TermLines(raw)[1..])
  }

  function Rest(raw: string): seq<string> {
    if TermLines(raw) == [] then [] else Others(TermLines(raw)[1..])
  }

  /** The reference: delete the first value with that id. */
  function Delete(decode: Decoder, vs: seq<string>, id: string): seq<string> {
    if vs == [] then []
    else if Is(decode, id, vs[0]) then vs[1..]
    else [vs[0]] + Delete(decode, vs[1..], id)
  }

  lemma {:induction false} ValuesConcat(a: seq<string>, b: seq<string>)
    ensures Values(a + b) == Values(a) + Values(b)
    ensures Others(a + b) == Others(a) + Others(b)
  {
    hide IsPasskey, ValueIn, Values, Others;
    if a == [] {
      assert a + b == b;
      NoValues();
    } else {
      ValuesConcat(a[1..], b);
      ValuesCons(a[0], a[1..]);
      ValuesCons(a[0], a[1..] + b);
      assert a == [a[0]] + a[1..];
      assert a + b == [a[0]] + (a[1..] + b);
    }
  }

  lemma ValuesCons(line: string, rest: seq<string>)
    ensures Values([line] + rest) == (if IsPasskey(line) then [ValueIn(line)] else []) + Values(rest)
    ensures Others([line] + rest) == (if IsPasskey(line) then [] else [line]) + Others(rest)
  {
    hide IsPasskey, ValueIn;
    assert ([line] + rest)[1..] == rest;
  }

  lemma ValuesOne(line: string)
    ensures Values([line]) == if IsPasskey(line) then [ValueIn(line)] else []
    ensures Others([line]) == if IsPasskey(line) then [] else [line]
  {
    hide IsPasskey, ValueIn;
    assert [line][1..] == [];
  }

  /** A value that one line can hold and give back. */
  ghost predicate Storable(v: string) {
    IsUtf8(v) && '\n' !in v && StripCr(v) == v
  }

  lemma LineReads(v: string)
    requires Storable(v)
    ensures IsPasskey(FieldLine(FIELD_KEY, v)) && ValueIn(FieldLine(FIELD_KEY, v)) == v
    ensures '\n' !in FieldLine(FIELD_KEY, v)
  {
    hide IsUtf8, FieldOf;
    KeyGood();
    FieldLineReads(FIELD_KEY, v);
    var line := FieldLine(FIELD_KEY, v);
    FieldLineClean(FIELD_KEY, v);
    assert StripCr(line) == line by {
      assert v != "" ==> line[|line| - 1] == v[|v| - 1];
      assert v == "" ==> line[|line| - 1] == ' ';
    }
  }

  lemma KeyGood()
    ensures IsUtf8(FIELD_KEY) && TrimEnd(FIELD_KEY) == FIELD_KEY && ':' !in FIELD_KEY && '\n' !in FIELD_KEY
  {
    hide IsUtf8, TrimEnd;
    AsciiIsUtf8(FIELD_KEY);
    TrimPlain(FIELD_KEY);
  }

  /** Adding appends to the list and leaves every other line. */
  lemma AddIs(raw: string, v: string)
    requires Storable(v)
    ensures List(AddText(raw, v)) == List(raw) + [v]
    ensures Rest(AddText(raw, v)) == Rest(raw)
    ensures Password(AddText(raw, v)) == Password(raw)
    ensures AddText(raw, v) != ""
  {
    hide IsUtf8, Values, Others, IsPasskey, ValueIn, Split, FieldLine;
    var base := if raw == "" then "\n" else raw;
    var line := FieldLine(FIELD_KEY, v);
    LineReads(v);
    LinesAppend(base, line);
    ValuesOne(line);
    assert TermLines("\n") == [""] by { OneBlank(); }
    NoValues();
    var ts := TermLines(base);
    assert (ts + [line])[1..] == ts[1..] + [line];
    ValuesConcat(ts[1..], [line]);
    BlankPassword();
    LinesTerm(base);
    assert Rest(base) + [] == Rest(base);
  }

  lemma OneBlank()
    ensures TermLines("\n") == [""]
  {
    assert "\n"[..1 - 1] == "";
  }

  lemma NoValues()
    ensures Values([]) == [] && Others([]) == []
  {
  }

  lemma BlankPassword()
    ensures Password("\n") == "" == Password("")
  {
  }

  /** Line `k` of a text, as one of its terminated lines. */
  lemma TermIndex(raw: string, k: nat)
    requires k < |Lines(raw)| && Lines(raw)[k] != ""
    ensures k < |TermLines(raw)| && TermLines(raw)[k] == Lines(raw)[k]
  {
    LinesTerm(raw);
  }

  lemma TermRemove(raw: string, k: nat)
    requires 1 <= k < |Lines(raw)| && Lines(raw)[k] != ""
    ensures k < |TermLines(raw)|
    ensures TermLines(RemoveLine(Lines(raw), k)) == TermLines(raw)[..k] + TermLines(raw)[k + 1..]
    ensures RemoveLine(Lines(raw), k) != ""
  {
    hide Split, Join, Before;
    var ls, ts := Lines(raw), TermLines(raw);
    var r := RemoveLine(ls, k);
    TermIndex(raw, k);
    LinesRemove(raw, k);
    LinesTerm(raw);
    LinesTerm(r);
    assert |Lines(r)| >= 2;
    assert r != "" by { assert r == "" ==> Lines(r) == [""]; }
    TermUnique(r);
    if EndsLine(raw) {
      assert ls[..k] + ls[k + 1..] == (ts[..k] + ts[k + 1..]) + [""];
    } else {
      LastLine(raw);
      assert k + 1 == |ls| ==> ls[..k] == ts[..k] + ts[k + 1..];
    }
  }

  /** The lines decide the terminated lines: drop a final empty one. */
  lemma TermUnique(raw: string)
    requires raw != ""
    ensures var ls := Lines(raw);
      TermLines(raw) == if ls[|ls| - 1] == "" then ls[..|ls| - 1] else ls
  {
    LinesTerm(raw);
    if !EndsLine(raw) {
      LastLine(raw);
    }
  }

  lemma {:induction false} LastLine(raw: string)
    requires raw != "" && !EndsLine(raw)
    ensures Lines(raw)[|Lines(raw)| - 1] != ""
    decreases |raw|
  {
    hide IndexOf;
    var i := IndexOf(raw, '\n');
    SplitStep(raw, '\n', i);
    if i < |raw| {
      var rest := raw[i + 1..];
      assert rest != "" && rest[|rest| - 1] == raw[|raw| - 1];
      LastLine(rest);
    }
  }

  lemma {:induction false} DeleteAt(decode: Decoder, ls: seq<string>, k: nat, id: string)
    requires k < |ls| && IsPasskey(ls[k]) && Is(decode, id, ValueIn(ls[k]))
    requires forall i :: 0 <= i < k ==> !(IsPasskey(ls[i]) && Is(decode, id, ValueIn(ls[i])))
    ensures Values(ls[..k] + ls[k + 1..]) == Delete(decode, Values(ls), id)
    ensures Others(ls[..k] + ls[k + 1..]) == Others(ls)
  {
    hide IsPasskey, ValueIn, Is, Values, Others, Delete;
    var x, rest := ls[0], ls[1..];
    ValuesOne(x);
    ValuesConcat([x], rest);
    assert ls == [x] + rest;
    if k == 0 {
      assert ls[..0] + ls[1..] == rest;
      DeleteCons(decode, ValueIn(x), Values(rest), id);
    } else {
      var less := rest[..k - 1] + rest[k..];
      DeleteAt(decode, rest, k - 1, id);
      assert ls[..k] + ls[k + 1..] == [x] + less;
      ValuesConcat([x], less);
      if IsPasskey(x) {
        DeleteCons(decode, ValueIn(x), Values(rest), id);
      } else {
        assert [] + Values(rest) == Values(rest) && [] + Values(less) == Values(less);
      }
    }
  }

  lemma DeleteCons(decode: Decoder, x: string, rest: seq<string>, id: string)
    ensures Delete(decode, [x] + rest, id) == if Is(decode, id, x) then rest else [x] + Delete(decode, rest, id)
  {
    assert ([x] + rest)[1..] == rest;
  }

  lemma {:induction false} DeleteNone(decode: Decoder, ls: seq<string>, id: string)
    requires forall i :: 0 <= i < |ls| ==> !(IsPasskey(ls[i]) && Is(decode, id, ValueIn(ls[i])))
    ensures Delete(decode, Values(ls), id) == Values(ls)
    ensures forall i :: 0 <= i < |Values(ls)| ==> !Is(decode, id, Values(ls)[i])
  {
    hide IsPasskey, ValueIn, Is, Values, Delete;
    if ls == [] {
      NoValues();
      NoDelete(decode, id);
    } else {
      var x, rest := ls[0], ls[1..];
      DeleteNone(decode, rest, id);
      ValuesOne(x);
      ValuesConcat([x], rest);
      assert ls == [x] + rest;
      if IsPasskey(x) {
        DeleteCons(decode, ValueIn(x), Values(rest), id);
      } else {
        assert [] + Values(rest) == Values(rest);
      }
    }
  }

  lemma WantedIsPasskey(decode: Decoder, line: string, id: string)
    ensures Wanted(line, FIELD_KEY, v => Is(decode, id, v)) <==> IsPasskey(line) && Is(decode, id, ValueIn(line))
    ensures IsPasskey(line) ==> line != ""
  {
    NothingInEmpty(FIELD_KEY, _ => true);
  }

  /** Removing deletes the first value with that id, if there is one, and leaves every
      other line. */
  lemma RemoveIs(decode: Decoder, raw: string, id: string)
    ensures RemoveText(decode, raw, id).Some? <==> exists i :: 0 <= i < |List(raw)| && Is(decode, id, List(raw)[i])
    ensures RemoveText(decode, raw, id).Some? ==>
      var r := RemoveText(decode, raw, id).value;
      && List(r) == Delete(decode, List(raw), id) && Rest(r) == Rest(raw)
      && Password(r) == Password(raw) && r != ""
    ensures RemoveText(decode, raw, id).None? ==> Delete(decode, List(raw), id) == List(raw)
  {
    hide List, Rest, Password, Is, Delete, RemoveText, Wanted, Lines, IsPasskey, ValueIn;
    var k := FirstWith(decode, raw, id);
    if k < |Lines(raw)| {
      RemoveFound(decode, raw, id, k);
    } else {
      RemoveMissing(decode, raw, id);
    }
  }

  /** The line a removal takes, or the number of lines. */
  function FirstWith(decode: Decoder, raw: string, id: string): (k: nat)
    ensures 1 <= k <= |Lines(raw)|
  {
    First(Lines(raw), 1, l => Wanted(l, FIELD_KEY, v => Is(decode, id, v)))
  }

  lemma FirstWithIs(decode: Decoder, raw: string, id: string)
    ensures var ls, k := Lines(raw), FirstWith(decode, raw, id);
      && RemoveText(decode, raw, id) == (if k == |ls| then None else Some(RemoveLine(ls, k)))
      && (k < |ls| ==> IsPasskey(ls[k]) && ls[k] != "" && Is(decode, id, ValueIn(ls[k])))
      && forall i :: 1 <= i < k ==> !(IsPasskey(ls[i]) && Is(decode, id, ValueIn(ls[i])))
  {
    hide Lines, IsPasskey, ValueIn, Is, Wanted;
    forall line
      ensures Wanted(line, FIELD_KEY, v => Is(decode, id, v)) <==> IsPasskey(line) && Is(decode, id, ValueIn(line))
    {
      WantedIsPasskey(decode, line, id);
    }
    var ls, k := Lines(raw), FirstWith(decode, raw, id);
    if k < |ls| {
      WantedIsPasskey(decode, ls[k], id);
    }
  }

  lemma RemoveFound(decode: Decoder, raw: string, id: string, k: nat)
    requires k == FirstWith(decode, raw, id) && k < |Lines(raw)|
    ensures RemoveText(decode, raw, id).Some?
    ensures exists i :: 0 <= i < |List(raw)| && Is(decode, id, List(raw)[i])
    ensures var r := RemoveText(decode, raw, id).value;
      && List(r) == Delete(decode, List(raw), id) && Rest(r) == Rest(raw)
      && Password(r) == Password(raw) && r != ""
  {
    hide Split, IsPasskey, ValueIn, Is, Values, Others, Wanted, FirstWith, RemoveText, RemoveLine, Delete;
    var ls, ts := Lines(raw), TermLines(raw);
    FirstWithIs(decode, raw, id);
    LinesTerm(raw);
    TermRemove(raw, k);
    TermIndex(raw, k);
    var tail := ts[1..];
    assert forall i :: 0 <= i < k - 1 ==> tail[i] == ls[i + 1];
    DeleteAt(decode, tail, k - 1, id);
    assert (ts[..k] + ts[k + 1..])[1..] == tail[..k - 1] + tail[k..];
    LinesRemove(raw, k);
    ValuesHas(tail, k - 1);
    var i :| 0 <= i < |List(raw)| && List(raw)[i] == ValueIn(tail[k - 1]);
    assert Is(decode, id, List(raw)[i]);
  }

  lemma RemoveMissing(decode: Decoder, raw: string, id: string)
    requires FirstWith(decode, raw, id) == |Lines(raw)|
    ensures RemoveText(decode, raw, id).None? && Delete(decode, List(raw), id) == List(raw)
    ensures forall i :: 0 <= i < |List(raw)| ==> !Is(decode, id, List(raw)[i])
  {
    hide Split, IsPasskey, ValueIn, Is, Values, Others, Wanted, FirstWith, RemoveText, RemoveLine, Delete;
    var ls, ts := Lines(raw), TermLines(raw);
    FirstWithIs(decode, raw, id);
    LinesTerm(raw);
    if ts != [] {
      assert forall i :: 0 <= i < |ts| - 1 ==> ts[1..][i] == ls[i + 1];
      DeleteNone(decode, ts[1..], id);
    } else {
      NoDelete(decode, id);
    }
  }

  lemma NoDelete(decode: Decoder, id: string)
    ensures Delete(decode, [], id) == []
  {
  }

  lemma ValuesHas(ls: seq<string>, k: nat)
    requires k < |ls| && IsPasskey(ls[k])
    ensures exists i :: 0 <= i < |Values(ls)| && Values(ls)[i] == ValueIn(ls[k])
  {
    hide IsPasskey, ValueIn, Values;
    ValuesOne(ls[k]);
    ValuesConcat(ls[..k], [ls[k]]);
    ValuesConcat(ls[..k] + [ls[k]], ls[k + 1..]);
    assert ls == ls[..k] + [ls[k]] + ls[k + 1..];
    assert Values(ls)[|Values(ls[..k])|] == ValueIn(ls[k]);
  }

  // --- runs ----------------------------------------------------------------------

  datatype Op = Add(value: string) | Remove(id: string)

  function Step(decode: Decoder, raw: string, op: Op): string {
    match op
    case Add(v) => AddText(raw, v)
    case Remove(id) => match RemoveText(decode, raw, id) case Some(r) => r case None => raw
  }

  function Run(decode: Decoder, raw: string, ops: seq<Op>): string
    decreases |ops|
  {
    if ops == [] then raw else Run(decode, Step(decode, raw, ops[0]), ops[1..])
  }

  function StepList(decode: Decoder, vs: seq<string>, op: Op): seq<string> {
    match op case Add(v) => vs + [v] case Remove(id) => Delete(decode, vs, id)
  }

  function RunList(decode: Decoder, vs: seq<string>, ops: seq<Op>): seq<string>
    decreases |ops|
  {
    if ops == [] then vs else RunList(decode, StepList(decode, vs, ops[0]), ops[1..])
  }

  /** Over any run the passkey lines are the list, and nothing else moves. */
  lemma {:induction false} RunIsList(decode: Decoder, raw: string, ops: seq<Op>)
    requires forall i :: 0 <= i < |ops| && ops[i].Add? ==> Storable(ops[i].value)
    ensures List(Run(decode, raw, ops)) == RunList(decode, List(raw), ops)
    ensures Rest(Run(decode, raw, ops)) == Rest(raw)
    ensures Password(Run(decode, raw, ops)) == Password(raw)
    decreases |ops|
  {
    hide List, Rest, Password, AddText, RemoveText, Delete, Storable;
    if ops != [] {
      match ops[0] {
        case Add(v) => AddIs(raw, v);
        case Remove(id) => RemoveIs(decode, raw, id);
      }
      RunIsList(decode, Step(decode, raw, ops[0]), ops[1..]);
    }
  }

  /** What `entry_passkeys` reports is that list, decoded: a `\r` a CRLF editor left in
      a field's value is white space to the decoder. */
  function Decoded(decode: Decoder, vs: seq<string>): seq<string> {
    if vs == [] then []
    else (match FromValue(decode, vs[0]) case Some(id) => [id] case None => []) + Decoded(decode, vs[1..])
  }

  lemma {:induction false} IdsOfLines(decode: Decoder, ls: seq<string>)
    ensures Ids(decode, Collect(ls)) == Decoded(decode, Values(ls))
  {
    hide IsPasskey, ValueIn, FieldOf, FromValue;
    if ls != [] {
      IdsOfLines(decode, ls[1..]);
      OneLine(decode, ls[0]);
      var fs := match FieldOf(ls[0]) case Some(f) => [f] case None => [];
      IdsCons(decode, fs, Collect(ls[1..]));
      var vs := if IsPasskey(ls[0]) then [ValueIn(ls[0])] else [];
      DecodedCons(decode, vs, Values(ls[1..]));
    }
  }

  lemma IdsCons(decode: Decoder, a: seq<Field>, b: seq<Field>)
    requires |a| <= 1
    ensures Ids(decode, a + b) == Ids(decode, a) + Ids(decode, b)
  {
    hide FromValue;
    if a == [] {
      assert a + b == b;
    } else {
      assert (a + b)[1..] == b && a[1..] == [];
    }
  }

  lemma DecodedCons(decode: Decoder, a: seq<string>, b: seq<string>)
    requires |a| <= 1
    ensures Decoded(decode, a + b) == Decoded(decode, a) + Decoded(decode, b)
  {
    hide FromValue;
    if a == [] {
      assert a + b == b;
    } else {
      assert (a + b)[1..] == b && a[1..] == [];
    }
  }

  lemma OneLine(decode: Decoder, line: string)
    ensures Ids(decode, match FieldOf(line) case Some(f) => [f] case None => [])
         == Decoded(decode, if IsPasskey(line) then [ValueIn(line)] else [])
  {
    hide FromValue, FieldOf;
    CrInValue(line);
    match FieldOf(line) {
      case None =>
      case Some(f) =>
        assert [f][1..] == [];
        if f.key == FIELD_KEY {
          assert [ValueIn(line)][1..] == [];
          SameId(decode, line);
        }
    }
  }

  lemma SameId(decode: Decoder, line: string)
    requires IsPasskey(line) && FieldOf(line).Some?
    requires FieldOf(line).value.value == ValueIn(line) || FieldOf(line).value.value == ValueIn(line) + "\r"
    ensures FromValue(decode, FieldOf(line).value.value) == FromValue(decode, ValueIn(line))
  {
    hide Trim, FieldOf;
    TrimCr(ValueIn(line));
  }

  /** A trailing `\r` ends up in the value of a field and changes nothing else. */
  lemma CrInValue(line: string)
    ensures var t := StripCr(line);
      && (FieldOf(line).Some? <==> FieldOf(t).Some?)
      && (FieldOf(t).Some? ==>
           && FieldOf(line).value.key == FieldOf(t).value.key
           && (FieldOf(line).value.value == FieldOf(t).value.value || FieldOf(line).value.value == FieldOf(t).value.value + "\r"))
  {
    hide IsUtf8, TrimEnd, IndexOf, IsUri, StripSpace, FieldOf;
    var t := StripCr(line);
    StripCrUtf8(line);
    if t != line {
      assert line == t + "\r";
      UriCr(t);
      if ':' in t {
        ColonAt(t);
        var k, v := t[..IndexOf(t, ':')], t[IndexOf(t, ':') + 1..];
        assert line == k + [':'] + (v + "\r");
        StripSpaceCr(v);
        FieldOfEither(t, k, v);
        FieldOfEither(line, k, v + "\r");
      } else {
        NoColon(t);
        NoColon(line);
      }
    }
  }

  lemma FieldOfEither(line: string, k: string, v: string)
    requires line == k + [':'] + v && ':' !in k
    ensures FieldOf(line) ==
      if IsUtf8(line) && !IsUri(line) then Some(Field(TrimEnd(k), StripSpace(v))) else None
  {
    hide IsUtf8, TrimEnd, StripSpace, IsUri;
    SplitOnceAt(k, ':', v);
  }

  lemma NoColon(line: string)
    requires ':' !in line
    ensures FieldOf(line).None?
  {
    hide IsUtf8, IsUri;
    IndexOfNone(line, ':');
  }

  lemma StripSpaceCr(v: string)
    ensures StripSpace(v + "\r") == StripSpace(v) + "\r"
  {
    assert v != "" ==> (v + "\r")[1..] == v[1..] + "\r";
  }

  lemma UriCr(t: string)
    ensures IsUri(t + "\r") <==> IsUri(t)
  {
    var x := t + "\r";
    if IsUri(x) {
      assert forall i :: 0 <= i < 10 ==> x[i] == OTPAUTH_PREFIX[i];
      assert forall i :: 0 <= i < 10 ==> OTPAUTH_PREFIX[i] != '\r';
      assert x[|t|] == '\r';
      assert t[..10] == x[..10];
    }
  }

  lemma IdsAreList(decode: Decoder, raw: string)
    ensures Ids(decode, Fields(raw)) == Decoded(decode, List(raw))
  {
    hide Split, Collect, Values, Ids, Decoded;
    var ls, ts := Lines(raw), TermLines(raw);
    LinesTerm(raw);
    assert Collect([]) == [] by { CollectNone(); }
    NoValues();
    if raw == "" {
      assert ls[1..] == [];
      NoIds(decode);
    } else {
      IdsOfLines(decode, ts[1..]);
      if EndsLine(raw) {
        assert ls[1..] == ts[1..] + [""];
        CollectConcat(ts[1..], [""]);
        assert Collect([""]) == [] by { EmptyIsNoField(); CollectOne(""); }
        assert Collect(ts[1..]) + [] == Collect(ts[1..]);
      }
    }
  }

  lemma NoIds(decode: Decoder)
    ensures Ids(decode, []) == [] == Decoded(decode, [])
  {
  }

  /** The reference on ids: the first occurrence goes. */
  function WithoutFirst(ids: seq<string>, id: string): seq<string> {
    if ids == [] then [] else if ids[0] == id then ids[1..] else [ids[0]] + WithoutFirst(ids[1..], id)
  }

  /** Deleting a passkey takes the first of its id out of the reported ids, and no other. */
  lemma {:induction false} DeletedIds(decode: Decoder, vs: seq<string>, id: string)
    ensures Decoded(decode, Delete(decode, vs, id)) == WithoutFirst(Decoded(decode, vs), id)
    decreases |vs|
  {
    hide FromValue;
    if vs != [] {
      DeletedIds(decode, vs[1..], id);
      var v := FromValue(decode, vs[0]);
      if v != Some(id) {
        assert ([vs[0]] + Delete(decode, vs[1..], id))[1..] == Delete(decode, vs[1..], id);
      }
      if v.Some? {
        assert ([v.value] + Decoded(decode, vs[1..]))[1..] == Decoded(decode, vs[1..]);
      } else {
        assert [] + Decoded(decode, vs[1..]) == Decoded(decode, vs[1..]);
      }
    }
  }

  /** The bytes added: a newline where one is missing, and the `passkey` line. */
  lemma AddBytes(raw: string, value: string)
    ensures AddText(raw, value) ==
      raw + (if raw == "" || raw[|raw| - 1] != '\n' then "\n" else "") + "passkey: " + value + "\n"
  {
    assert "passkey" + ": " + value == "passkey: " + value;
  }
}
