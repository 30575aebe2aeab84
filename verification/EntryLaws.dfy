/** What the byte edits of an entry mean for its fields, its password and its URI. */
module EntryLaws {
  import opened Text
  import opened Utf8
  import opened EntryCodec

  predicate EndsLine(raw: string) {
    raw != "" && raw[|raw| - 1] == '\n'
  }

  /** The lines of a text file: no phantom line after a final newline. */
  function TermLines(raw: string): seq<string> {
    if raw == "" then []
    else if EndsLine(raw) then Lines(raw[..|raw| - 1])
    else Lines(raw)
  }

  lemma LinesClean(raw: string)
    ensures Lacks(Lines(raw), '\n')
  {
    SplitLacks(raw, '\n');
  }

  lemma LinesTerm(raw: string)
    ensures raw == "" ==> Lines(raw) == [""]
    ensures EndsLine(raw) ==> Lines(raw) == TermLines(raw) + [""]
  {
    if EndsLine(raw) {
      var body := raw[..|raw| - 1];
      assert raw == body + ['\n'] + "";
      SplitConcat(body, '\n', "");
      assert Lines("") == [""];
    }
  }

  lemma LinesAppend(raw: string, line: string)
    requires '\n' !in line
    ensures Lines(AppendLine(raw, line)) == TermLines(raw) + [line, ""]
    ensures TermLines(AppendLine(raw, line)) == TermLines(raw) + [line]
  {
    hide Split;
    var r := AppendLine(raw, line);
    assert Lines(line) == [line] by { SplitNone(line, '\n'); }
    assert Lines(r[..|r| - 1]) == TermLines(raw) + [line] by {
      if raw == "" {
        assert r[..|r| - 1] == line;
      } else {
        var body := if EndsLine(raw) then raw[..|raw| - 1] else raw;
        assert r[..|r| - 1] == body + ['\n'] + line;
        SplitConcat(body, '\n', line);
      }
    }
    LinesTerm(r);
    assert (TermLines(raw) + [line]) + [""] == TermLines(raw) + [line, ""];
  }

  lemma LinesSplice(raw: string, k: nat, x: string)
    requires k < |Lines(raw)| && '\n' !in x
    ensures Lines(Join(Lines(raw)[k := x], '\n')) == Lines(raw)[k := x]
  {
    LinesClean(raw);
    SplitJoin(Lines(raw)[k := x], '\n');
  }

  // --- the field list ----------------------------------------------------------

  /** The reference: the first field of that key gets the value, or one is added. */
  function SetFirst(fs: seq<Field>, key: string, value: string): seq<Field> {
    if fs == [] then [Field(key, value)]
    else if fs[0].key == key then [Field(key, value)] + fs[1..]
    else [fs[0]] + SetFirst(fs[1..], key, value)
  }

  lemma {:induction false} CollectConcat(a: seq<string>, b: seq<string>)
    ensures Collect(a + b) == Collect(a) + Collect(b)
  {
    hide FieldOf;
    if a == [] {
      assert a + b == b;
    } else {
      var pre := match FieldOf(a[0]) case Some(f) => [f] case None => [];
      CollectConcat(a[1..], b);
      assert (a + b)[1..] == a[1..] + b;
      assert (pre + Collect(a[1..])) + Collect(b) == pre + (Collect(a[1..]) + Collect(b));
    }
  }

  lemma CollectOne(line: string)
    ensures Collect([line]) == match FieldOf(line) case Some(f) => [f] case None => []
  {
    hide FieldOf;
    assert Collect([line][1..]) == [];
  }

  lemma CollectCons(head: string, rest: seq<string>)
    ensures Collect([head] + rest) == Collect([head]) + Collect(rest)
  {
    CollectConcat([head], rest);
  }

  lemma SetFirstCons(fs: seq<Field>, rest: seq<Field>, key: string, value: string)
    requires |fs| <= 1
    ensures |fs| == 1 && fs[0].key == key ==> SetFirst(fs + rest, key, value) == [Field(key, value)] + rest
    ensures |fs| == 1 && fs[0].key != key ==> SetFirst(fs + rest, key, value) == fs + SetFirst(rest, key, value)
    ensures |fs| == 0 ==> SetFirst(fs + rest, key, value) == SetFirst(rest, key, value)
  {
    if fs == [] {
      assert fs + rest == rest;
    } else {
      assert (fs + rest)[1..] == rest;
    }
  }

  lemma {:induction false} CollectSet(ls: seq<string>, k: nat, key: string, x: string, value: string)
    requires k < |ls| && HasKey(ls[k], key) && forall i :: 0 <= i < k ==> !HasKey(ls[i], key)
    requires FieldOf(x) == Some(Field(key, value))
    ensures Collect(ls[k := x]) == SetFirst(Collect(ls), key, value)
  {
    hide FieldOf, Collect, SetFirst;
    var head, rest := ls[0], ls[1..];
    CollectOne(head);
    CollectOne(x);
    CollectCons(head, rest);
    assert ls == [head] + rest;
    SetFirstCons(Collect([head]), Collect(rest), key, value);
    if k == 0 {
      CollectCons(x, rest);
      assert ls[k := x] == [x] + rest;
    } else {
      CollectSet(rest, k - 1, key, x, value);
      CollectCons(head, rest[k - 1 := x]);
      assert ls[k := x] == [head] + rest[k - 1 := x];
    }
  }

  lemma {:induction false} CollectAdd(ls: seq<string>, key: string, value: string)
    requires forall i :: 0 <= i < |ls| ==> !HasKey(ls[i], key)
    ensures SetFirst(Collect(ls), key, value) == Collect(ls) + [Field(key, value)]
  {
    hide FieldOf;
    if ls != [] {
      var head, rest := ls[0], ls[1..];
      CollectAdd(rest, key, value);
      CollectOne(head);
      CollectCons(head, rest);
      assert ls == [head] + rest;
      SetFirstCons(Collect([head]), Collect(rest), key, value);
      assert Collect([head]) + (Collect(rest) + [Field(key, value)])
          == (Collect([head]) + Collect(rest)) + [Field(key, value)];
    }
  }

  /** A key as `fields` would return it, and not the word a URI line starts with. */
  ghost predicate GoodKey(key: string) {
    IsUtf8(key) && TrimEnd(key) == key && ':' !in key && '\n' !in key && key != "otpauth"
  }

  ghost predicate GoodValue(value: string) {
    IsUtf8(value) && '\n' !in value
  }

  lemma ColonAt(line: string)
    requires ':' in line
    ensures var i := IndexOf(line, ':');
      && i < |line| && line == line[..i] + [':'] + line[i + 1..]
      && SplitOnce(line, ':') == Some((line[..i], line[i + 1..]))
  {
    hide IndexOf;
    IndexOfIn(line, ':');
    Cut(line, IndexOf(line, ':'));
  }

  predicate Spaced(line: string)
    requires ':' in line
  {
    ColonAt(line);
    var i := IndexOf(line, ':');
    i + 1 < |line| && line[i + 1] == ' '
  }

  /** What a value reads back as: in a line without the customary space after the
      colon, a leading space of the value is taken for it. */
  function Stored(line: string, value: string): string
    requires ':' in line
  {
    if Spaced(line) then value else StripSpace(value)
  }

  lemma FieldOfParts(line: string, k: string, v: string)
    requires line == k + [':'] + v && ':' !in k && IsUtf8(line) && !IsUri(line)
    ensures FieldOf(line) == Some(Field(TrimEnd(k), StripSpace(v)))
  {
    hide IsUtf8, TrimEnd, StripSpace, IndexOf;
    SplitOnceAt(k, ':', v);
  }

  lemma SpacedUtf8(k: string, value: string)
    requires IsUtf8(k) && IsUtf8(value)
    ensures IsUtf8(k + [':'] + value) && IsUtf8(k + [':'] + (" " + value))
    ensures StripSpace(" " + value) == value
  {
    hide IsUtf8;
    AsciiBoundary(k, ':', value);
    AsciiBoundary("", ' ', value);
    assert "" + [' '] + value == " " + value;
    AsciiBoundary(k, ':', " " + value);
    assert IsUtf8("") by { EmptyUtf8(); }
  }

  lemma EmptyUtf8()
    ensures IsUtf8("")
  {
  }

  lemma WithValueReads(line: string, key: string, value: string)
    requires HasKey(line, key) && ':' in line && GoodKey(key) && GoodValue(value)
    ensures FieldOf(WithValue(line, value)) == Some(Field(key, Stored(line, value)))
    ensures '\n' !in line ==> '\n' !in WithValue(line, value)
    ensures !IsUri(line) && !IsUri(WithValue(line, value))
  {
    hide IsUtf8, IndexOf, TrimEnd, StripSpace;
    ColonAt(line);
    var k := line[..IndexOf(line, ':')];
    var v := if Spaced(line) then " " + value else value;
    var x := WithValue(line, value);
    assert x == k + [':'] + v;
    AsciiBoundary(k, ':', line[|k| + 1..]);
    SpacedUtf8(k, value);
    if IsUri(x) {
      UriKey(x, k, v);
      TrimPlain("otpauth");
      assert false;
    }
    FieldOfParts(x, k, v);
  }

  lemma TrimPlain(s: string)
    requires SpaceEnd(s) == 0
    ensures TrimEnd(s) == s
  {
  }

  lemma UriKey(x: string, k: string, v: string)
    requires x == k + [':'] + v && ':' !in k && IsUri(x)
    ensures k == "otpauth" && v != "" && v[0] == '/'
  {
    assert x[..10] == "otpauth://";
    assert x[7] == ':' && x[8] == '/';
    assert forall i :: 0 <= i < 7 ==> x[i] == x[..10][i];
    assert forall i :: 0 <= i < 7 ==> x[i] != ':';
    assert x[|k|] == ':' && forall i :: 0 <= i < |k| ==> k[i] == x[i];
    assert |k| == 7;
    assert k == x[..10][..7];
  }

  lemma FieldLineReads(key: string, value: string)
    requires GoodValue(value) && IsUtf8(key) && TrimEnd(key) == key && ':' !in key
    ensures FieldOf(FieldLine(key, value)) == Some(Field(key, value))
    ensures !IsUri(FieldLine(key, value))
  {
    hide IsUtf8, IndexOf, TrimEnd, StripSpace, FieldOf;
    var v := " " + value;
    var x := FieldLine(key, value);
    assert x == key + [':'] + v;
    SpacedUtf8(key, value);
    if IsUri(x) {
      UriKey(x, key, v);
      assert false;
    }
    FieldOfParts(x, key, v);
  }

  // --- set_field ---------------------------------------------------------------

  /** The value the field list shows after `SetFieldText`. */
  function Shown(raw: string, key: string, value: string): string {
    var ls := Lines(raw);
    var k := FieldIndex(ls, key);
    if k < |ls| then Stored(ls[k], value) else value
  }

  lemma SetFieldFound(raw: string, key: string, value: string)
    requires GoodKey(key) && GoodValue(value) && FieldIndex(Lines(raw), key) < |Lines(raw)|
    ensures var k := FieldIndex(Lines(raw), key);
      Lines(SetFieldText(raw, key, value)) == Lines(raw)[k := WithValue(Lines(raw)[k], value)]
    ensures Fields(SetFieldText(raw, key, value)) == SetFirst(Fields(raw), key, Shown(raw, key, value))
  {
    hide FieldOf, IsUtf8, Split;
    var ls := Lines(raw);
    var k := FieldIndex(ls, key);
    var x := WithValue(ls[k], value);
    LinesClean(raw);
    WithValueReads(ls[k], key, value);
    LinesSplice(raw, k, x);
    CollectSet(ls[1..], k - 1, key, x, Shown(raw, key, value));
    assert ls[k := x][1..] == ls[1..][k - 1 := x];
  }

  lemma SetFieldMissing(raw: string, key: string, value: string)
    requires GoodKey(key) && GoodValue(value) && FieldIndex(Lines(raw), key) == |Lines(raw)|
    requires raw != ""
    ensures Fields(SetFieldText(raw, key, value)) == SetFirst(Fields(raw), key, value)
  {
    hide FieldOf, IsUtf8, Split, Lines, Collect, SetFirst, TermLines;
    var ls, ts, x := Lines(raw), TermLines(raw), FieldLine(key, value);
    FieldLineReads(key, value);
    LinesAppend(raw, x);
    CollectAdd(ls[1..], key, value);
    CollectOne(x);
    TermFields(raw);
    assert (ts + [x, ""])[1..] == ts[1..] + [x] + [""];
    CollectBlank(ts[1..] + [x]);
    CollectConcat(ts[1..], [x]);
  }

  lemma CollectBlank(ls: seq<string>)
    ensures Collect(ls + [""]) == Collect(ls)
  {
    hide FieldOf, Collect;
    EmptyIsNoField();
    CollectOne("");
    CollectConcat(ls, [""]);
  }

  /** The phantom line is no field. */
  lemma TermFields(raw: string)
    requires raw != ""
    ensures |TermLines(raw)| >= 1 && Collect(Lines(raw)[1..]) == Collect(TermLines(raw)[1..])
  {
    hide FieldOf, IsUtf8, Split, Collect;
    LinesTerm(raw);
    if EndsLine(raw) {
      assert Lines(raw)[1..] == TermLines(raw)[1..] + [""];
      CollectBlank(TermLines(raw)[1..]);
    }
  }

  lemma EmptyIsNoField()
    ensures FieldOf("").None?
  {
  }

  /** `set_field` is `SetFirst` on the field list, exactly when the entry is not
      empty: in an empty entry the new line is line 1, the password. */
  lemma SetFieldFields(raw: string, key: string, value: string)
    requires GoodKey(key) && GoodValue(value)
    ensures Fields(SetFieldText(raw, key, value)) == SetFirst(Fields(raw), key, Shown(raw, key, value))
       <==> raw != ""
  {
    hide FieldOf, IsUtf8, Split;
    if raw == "" {
      LinesTerm(raw);
      EmptyIsNoField();
      LinesAppend(raw, FieldLine(key, value));
      CollectOne("");
      assert (TermLines(raw) + [FieldLine(key, value), ""])[1..] == [""];
      assert FieldIndex(Lines(raw), key) == |Lines(raw)|;
      assert Fields(SetFieldText(raw, key, value)) == [];
      assert Fields(raw) == [];
    } else if FieldIndex(Lines(raw), key) < |Lines(raw)| {
      SetFieldFound(raw, key, value);
    } else {
      SetFieldMissing(raw, key, value);
    }
  }

  /** A value that does not start with a space is shown as given. */
  lemma ShownPlainly(raw: string, key: string, value: string)
    requires value == "" || value[0] != ' '
    ensures Shown(raw, key, value) == value
  {
  }

  lemma {:induction false} FirstSame(a: seq<string>, b: seq<string>, k: nat, p: string -> bool)
    requires k <= |a| && k <= |b|
    requires forall i :: k <= i < |a| && i < |b| ==> p(a[i]) == p(b[i])
    requires forall i :: k <= i && |a| <= i < |b| ==> !p(b[i])
    requires forall i :: k <= i && |b| <= i < |a| ==> !p(a[i])
    ensures First(a, k, p) == First(b, k, p) || (First(a, k, p) >= |a| && First(b, k, p) >= |b|)
  {
  }

  /** Neither the password nor the URI is touched. */
  lemma SetFieldLeaves(raw: string, key: string, value: string)
    requires GoodKey(key) && GoodValue(value) && raw != ""
    ensures Password(SetFieldText(raw, key, value)) == Password(raw)
    ensures Otpauth(SetFieldText(raw, key, value)) == Otpauth(raw)
  {
    hide IsUtf8, Split, StripCr, FieldOf, WithValue, FieldLine, IsUri;
    var ls, k := Lines(raw), FieldIndex(Lines(raw), key);
    if k < |ls| {
      SetFieldFound(raw, key, value);
      WithValueReads(ls[k], key, value);
      FirstSame(ls, Lines(SetFieldText(raw, key, value)), 0, IsUri);
    } else {
      FieldLineReads(key, value);
      FieldLineClean(key, value);
      AppendLeaves(raw, FieldLine(key, value));
    }
  }

  lemma FieldLineClean(key: string, value: string)
    requires '\n' !in key && '\n' !in value
    ensures '\n' !in FieldLine(key, value)
  {
  }

  /** Appending a line that is no URI leaves the password and the URI. */
  lemma AppendLeaves(raw: string, line: string)
    requires raw != "" && '\n' !in line && !IsUri(line)
    ensures Password(AppendLine(raw, line)) == Password(raw)
    ensures Otpauth(AppendLine(raw, line)) == Otpauth(raw)
  {
    hide IsUtf8, Split, StripCr;
    LinesAppend(raw, line);
    LinesTerm(raw);
    FirstSame(Lines(raw), Lines(AppendLine(raw, line)), 0, IsUri);
  }

  /** Every byte outside the replaced span, or the appended line and one supplied
      newline, is identical. */
  lemma SetFieldBytes(raw: string, key: string, value: string)
    ensures var ls := Lines(raw); var k := FieldIndex(ls, key); var r := SetFieldText(raw, key, value);
      if k < |ls| then
        var a := |Before(ls[..k], '\n')| + ValueStart(ls[k]);
        var b := |Before(ls[..k], '\n')| + |ls[k]|;
        a <= b <= |raw| && r == raw[..a] + value + raw[b..]
      else
        r == raw + (if raw == "" || EndsLine(raw) then "" else "\n") + key + ": " + value + "\n"
  {
    hide Split, FieldIndex, ValueStart, Join, Before, After, FieldLine;
    var ls, k := Lines(raw), FieldIndex(Lines(raw), key);
    if k < |ls| {
      var before, after := Before(ls[..k], '\n'), After(ls[k + 1..], '\n');
      JoinAround(ls, '\n', k, ls[k]);
      JoinAround(ls, '\n', k, WithValue(ls[k], value));
      JoinSplit(raw, '\n');
      assert ls[k := ls[k]] == ls;
      Splice(before, ls[k], after, ValueStart(ls[k]), value);
    } else {
      FieldLineText(raw, key, value);
    }
  }

  lemma FieldLineText(raw: string, key: string, value: string)
    ensures AppendLine(raw, FieldLine(key, value))
         == raw + (if raw == "" || EndsLine(raw) then "" else "\n") + key + ": " + value + "\n"
  {
    var s := raw + if raw == "" || EndsLine(raw) then "" else "\n";
    assert s + (key + ": " + value) + "\n" == s + key + ": " + value + "\n";
  }

  lemma Splice(before: string, line: string, after: string, m: nat, value: string)
    requires m <= |line|
    ensures var raw := before + line + after;
      before + (line[..m] + value) + after == raw[..|before| + m] + value + raw[|before| + |line|..]
  {
    var raw := before + line + after;
    assert raw[..|before| + m] == before + line[..m];
    assert raw[|before| + |line|..] == after;
  }

  // --- the URI line ------------------------------------------------------------

  lemma LinesRemove(raw: string, k: nat)
    requires k < |Lines(raw)| && |Lines(raw)| > 1
    ensures var ls := Lines(raw);
      Lines(RemoveLine(ls, k)) == if k + 1 < |ls| then ls[..k] + ls[k + 1..] else ls[..k] + [""]
  {
    hide Split, Join, Before;
    var ls := Lines(raw);
    LinesClean(raw);
    if k + 1 < |ls| {
      SplitJoin(ls[..k] + ls[k + 1..], '\n');
    } else {
      BeforeIsJoin(ls[..k], '\n');
      SplitJoin(ls[..k] + [""], '\n');
    }
  }

  lemma CollectDrop(ls: seq<string>, k: nat, x: seq<string>)
    requires k < |ls| && FieldOf(ls[k]).None? && Collect(x) == []
    ensures Collect(ls[..k] + x + ls[k + 1..]) == Collect(ls)
  {
    hide FieldOf, Collect;
    CollectOne(ls[k]);
    CollectConcat(ls[..k], x);
    CollectConcat(ls[..k] + x, ls[k + 1..]);
    CollectConcat(ls[..k], [ls[k]]);
    CollectConcat(ls[..k] + [ls[k]], ls[k + 1..]);
    assert ls == ls[..k] + [ls[k]] + ls[k + 1..];
    assert Collect(ls[..k]) + [] == Collect(ls[..k]);
  }

  lemma NoFieldLines(uri: string)
    requires IsUri(uri)
    ensures FieldOf(uri).None? && Collect([uri]) == [] && Collect([""]) == [] && Collect([uri, ""]) == []
  {
    CollectOne(uri);
    CollectOne("");
    CollectCons(uri, [""]);
    assert [uri] + [""] == [uri, ""];
  }

  /** Setting the URI never changes a field. */
  lemma SetOtpauthFields(raw: string, uri: string)
    requires IsUri(uri) && '\n' !in uri
    ensures Fields(SetOtpauthText(raw, uri)) == Fields(raw)
  {
    hide FieldOf, Collect, Split, IsUtf8;
    var ls := Lines(raw);
    var k := First(ls, 0, IsUri);
    if k < |ls| {
      var x := uri + Tail(ls[k]);
      LinesClean(raw);
      LinesSplice(raw, k, x);
      NoFieldLines(x);
      NoFieldLines(ls[k]);
      if k > 0 {
        var ts := ls[1..];
        CollectDrop(ts, k - 1, [x]);
        assert ls[k := x][1..] == ts[..k - 1] + [x] + ts[k..];
      } else {
        assert ls[k := x][1..] == ls[1..];
      }
    } else {
      AppendFields(raw, uri);
    }
  }

  lemma AppendFields(raw: string, uri: string)
    requires IsUri(uri) && '\n' !in uri
    ensures Fields(AppendLine(raw, uri)) == Fields(raw)
  {
    hide FieldOf, Collect, Split;
    var ts := TermLines(raw);
    LinesAppend(raw, uri);
    LinesTerm(raw);
    NoFieldLines(uri);
    CollectOne("");
    if raw == "" {
      assert (ts + [uri, ""])[1..] == [""];
      assert [""][1..] == [];
      assert Collect([]) == [] by { CollectNone(); }
    } else {
      assert (ts + [uri, ""])[1..] == ts[1..] + [uri, ""];
      CollectConcat(ts[1..], [uri, ""]);
      CollectConcat(ts[1..], [""]);
      assert EndsLine(raw) ==> Lines(raw)[1..] == ts[1..] + [""];
    }
  }

  lemma CollectNone()
    ensures Collect([]) == []
  {
  }

  /** Removing the URI never changes a field. */
  lemma RemoveOtpauthFields(raw: string)
    requires RemoveOtpauthText(raw).Some?
    ensures Fields(RemoveOtpauthText(raw).value) == Fields(raw)
    ensures Password(RemoveOtpauthText(raw).value) == Password(raw)
  {
    hide FieldOf, Collect, Split, IsUtf8;
    var ls := Lines(raw);
    var k := First(ls, 0, IsUri);
    var ts := ls[1..];
    NoFieldLines(ls[k]);
    LinesRemove(raw, k);
    if k + 1 < |ls| {
      CollectNone();
      CollectDrop(ts, k - 1, []);
      assert (ls[..k] + ls[k + 1..])[1..] == ts[..k - 1] + [] + ts[k..];
    } else {
      CollectDrop(ts, k - 1, [""]);
      assert (ls[..k] + [""])[1..] == ts[..k - 1] + [""] + ts[k..];
    }
  }

  function Terminated(raw: string): string {
    if raw == "" || EndsLine(raw) then raw else raw + "\n"
  }

  lemma TerminatedIs(raw: string)
    ensures Terminated(raw) == Before(TermLines(raw), '\n')
  {
    hide Split, Join, Before;
    var ts := TermLines(raw);
    BeforeIsJoin(ts, '\n');
    if raw == "" {
      assert Before([], '\n') == "" by { BeforeNone(); }
    } else if EndsLine(raw) {
      LinesTerm(raw);
      JoinSplit(raw, '\n');
    } else {
      JoinSplit(raw, '\n');
      JoinConcat(ts, '\n', [""]);
      assert Join([""], '\n') == "" by { JoinOne(""); }
    }
  }

  lemma BeforeNone()
    ensures Before([], '\n') == ""
  {
  }

  lemma JoinOne(x: string)
    ensures Join([x], '\n') == x
  {
  }

  /** On a nonempty entry without a URI, adding one and removing it again restores
      every byte, up to a final newline the entry lacked. */
  lemma SetThenRemove(raw: string, uri: string)
    requires raw != "" && IsUri(uri) && '\n' !in uri
    requires First(Lines(raw), 0, IsUri) == |Lines(raw)|
    ensures RemoveOtpauthText(SetOtpauthText(raw, uri)) == Some(Terminated(raw))
  {
    hide Split, Join, Before, IsUri;
    var ls, ts := Lines(raw), TermLines(raw);
    LinesAppend(raw, uri);
    LinesTerm(raw);
    var ms := ts + [uri, ""];
    assert forall i :: 0 <= i < |ts| ==> ms[i] == ls[i];
    FirstIs(ms, 0, IsUri, |ts|);
    assert ms[..|ts|] + ms[|ts| + 1..] == ts + [""];
    BeforeIsJoin(ts, '\n');
    TerminatedIs(raw);
  }

  /** A written URI reads back, and writing again replaces it. `\r` matters only
      where the line has none of its own. */
  lemma SetOtpauthReads(raw: string, x: string)
    requires IsUri(x) && '\n' !in x && IsUtf8(x)
    requires First(Lines(raw), 0, IsUri) < |Lines(raw)|
    requires Tail(Lines(raw)[First(Lines(raw), 0, IsUri)]) == "" ==> StripCr(x) == x
    ensures Otpauth(SetOtpauthText(raw, x)) == Some(x)
    ensures forall y :: SetOtpauthText(SetOtpauthText(raw, x), y) == SetOtpauthText(raw, y)
    ensures var ms := Lines(SetOtpauthText(raw, x)); var k := First(ms, 0, IsUri);
      k < |ms| && Tail(ms[k]) == Tail(Lines(raw)[First(Lines(raw), 0, IsUri)])
  {
    hide Split, Join, IsUtf8;
    var ls := Lines(raw);
    var k := First(ls, 0, IsUri);
    var line := x + Tail(ls[k]);
    LinesClean(raw);
    LinesSplice(raw, k, line);
    var ms := ls[k := line];
    UriThen(x, Tail(ls[k]));
    FirstIs(ms, 0, IsUri, k);
    TailOf(x, ls[k]);
    forall y
      ensures SetOtpauthText(SetOtpauthText(raw, x), y) == SetOtpauthText(raw, y)
    {
      assert ms[k := y + Tail(ls[k])] == ls[k := y + Tail(ls[k])];
    }
  }

  lemma UriThen(x: string, y: string)
    requires IsUri(x)
    ensures IsUri(x + y)
  {
  }

  lemma TailOf(x: string, line: string)
    requires Tail(line) == "" ==> StripCr(x) == x
    ensures StripCr(x + Tail(line)) == x && Tail(x + Tail(line)) == Tail(line)
  {
    if Tail(line) != "" {
      assert Tail(line) == "\r";
      assert (x + "\r")[..|x|] == x;
    } else {
      assert x + "" == x;
    }
  }

  // --- set_password --------------------------------------------------------------

  /** Setting the password replaces the bytes before the first newline and no others. */
  lemma SetPasswordBytes(raw: string, password: string)
    ensures Password(raw) <= raw && '\n' !in Password(raw)
    ensures |Password(raw)| == |raw| || raw[|Password(raw)|] == '\n'
    ensures SetPasswordText(raw, password) == password + raw[|Password(raw)|..]
  {
    hide Split, Join, Before, After;
    var ls := Lines(raw);
    LinesClean(raw);
    JoinSplit(raw, '\n');
    JoinAround(ls, '\n', 0, ls[0]);
    JoinAround(ls, '\n', 0, password);
    assert ls[0 := ls[0]] == ls && Before(ls[..0], '\n') == "" by { BeforeNone(); }
    AfterStarts(ls[1..]);
    FirstPart(raw, ls[0], After(ls[1..], '\n'));
    assert "" + password == password;
  }

  lemma AfterStarts(ls: seq<string>)
    ensures After(ls, '\n') == "" || After(ls, '\n')[0] == '\n'
  {
  }

  lemma FirstPart(raw: string, a: string, b: string)
    requires raw == "" + a + b
    ensures a <= raw && raw[|a|..] == b && (b != "" ==> raw[|a|] == b[0]) && (b == "" ==> |a| == |raw|)
  {
  }

  /** A password of one line reads back, the lines after it and the fields stay, and so does the
      URI where neither password is one. Setting the old password again restores every byte. */
  lemma SetPasswordReads(raw: string, password: string)
    requires '\n' !in password
    ensures var out := SetPasswordText(raw, password);
      && Password(out) == password && Lines(out)[1..] == Lines(raw)[1..] && Fields(out) == Fields(raw)
      && SetPasswordText(out, Password(raw)) == raw
      && (!IsUri(password) && !IsUri(Password(raw)) ==> Otpauth(out) == Otpauth(raw))
  {
    hide Split, Join, Collect, IsUtf8, IsUri;
    var ls := Lines(raw);
    LinesSplice(raw, 0, password);
    var ms := ls[0 := password];
    assert ms[1..] == ls[1..] && ms[0 := ls[0]] == ls;
    JoinSplit(raw, '\n');
    if !IsUri(password) && !IsUri(ls[0]) {
      var k := First(ls, 0, IsUri);
      if k < |ls| {
        FirstIs(ms, 0, IsUri, k);
      } else {
        assert forall i :: 0 < i < |ls| ==> !IsUri(ms[i]);
      }
    }
  }

  // --- which line is meant ---------------------------------------------------------

  /** A line gives no field exactly when it is not UTF-8, is a URI or has no colon. */
  lemma FieldNone(line: string)
    ensures FieldOf(line).None? <==> !IsUtf8(line) || "otpauth://" <= line || ':' !in line
  {
    hide IsUtf8;
    if ':' in line { ColonAt(line); }
  }

  /** The first URI line is the one read, replaced or removed, whatever lines stand around it; its
      ending stays, and line 1 is never removed. */
  lemma UriLineIs(a: seq<string>, u: string, cr: string, b: seq<string>, x: string)
    requires Lacks(a, '\n') && Lacks(b, '\n') && '\n' !in u && cr in {"", "\r"} && StripCr(u) == u
    requires "otpauth://" <= u && forall i :: 0 <= i < |a| ==> !("otpauth://" <= a[i])
    ensures var raw := Join(a + [u + cr] + b, '\n');
      && Otpauth(raw) == (if IsUtf8(u) then Some(u) else None)
      && SetOtpauthText(raw, x) == Join(a + [x + cr] + b, '\n')
      && RemoveOtpauthText(raw) ==
         (if a == [] then None else Some(if b == [] then Before(a, '\n') else Join(a + b, '\n')))
  {
    hide Split, Join, Before, IsUtf8;
    var line := u + cr;
    var ls := a + [line] + b;
    SplitJoin(ls, '\n');
    assert StripCr(line) == u && Tail(line) == cr by {
      if cr == "\r" { assert line[..|line| - 1] == u && line[|u|..] == cr; } else { assert line == u && line[|u|..] == ""; }
    }
    assert IsUri(line) by { PrefixOf("otpauth://", u, cr); }
    FirstIs(ls, 0, IsUri, |a|);
    assert ls[|a| := x + cr] == a + [x + cr] + b;
    assert ls[..|a|] == a && ls[|a| + 1..] == b;
  }

  lemma PrefixOf(p: string, s: string, t: string)
    requires p <= s
    ensures p <= s + t
  {
  }

  /** Without a URI line nothing is read or removed, and one is appended. */
  lemma NoUriLine(raw: string, x: string)
    requires forall i :: 0 <= i < |Lines(raw)| ==> !("otpauth://" <= Lines(raw)[i])
    ensures Otpauth(raw) == None && RemoveOtpauthText(raw) == None
    ensures SetOtpauthText(raw, x) == raw + (if raw == "" || raw[|raw| - 1] == '\n' then "" else "\n") + x + "\n"
  {
    hide Split;
  }

  /** The first line after line 1 that has the key is the one whose value is set, after the space
      the colon may have. */
  lemma FieldLineIs(p: string, a: seq<string>, k: string, space: string, v: string, b: seq<string>, key: string, value: string)
    requires Lacks([p] + a + [k + ":" + space + v] + b, '\n') && ':' !in k
    requires space == " " || (space == "" && (v == "" || v[0] != ' '))
    requires HasKey(k + ":" + space + v, key) && forall i :: 0 <= i < |a| ==> !HasKey(a[i], key)
    ensures SetFieldText(Join([p] + a + [k + ":" + space + v] + b, '\n'), key, value)
         == Join([p] + a + [k + ":" + space + value] + b, '\n')
  {
    hide Split, Join, HasKey;
    var line := k + ":" + space + v;
    var ls := [p] + a + [line] + b;
    SplitJoin(ls, '\n');
    FirstIs(ls, 1, l => HasKey(l, key), 1 + |a|);
    IndexOfAt(line, ':', |k|);
    assert line[..ValueStart(line)] == k + ":" + space;
    assert ls[1 + |a| := WithValue(line, value)] == [p] + a + [k + ":" + space + value] + b;
  }

  /** The first line after line 1 that has the key and a wanted value is removed with its
      ending. */
  lemma RemovedFieldIs(p: string, a: seq<string>, line: string, b: seq<string>, key: string, matches: string -> bool)
    requires Lacks([p] + a + [line] + b, '\n')
    requires HasKey(StripCr(line), key) && matches(FieldOf(StripCr(line)).value.value)
    requires forall i :: 0 <= i < |a| ==> !(HasKey(StripCr(a[i]), key) && matches(FieldOf(StripCr(a[i])).value.value))
    ensures RemoveFieldText(Join([p] + a + [line] + b, '\n'), key, matches)
         == Some(if b == [] then Before([p] + a, '\n') else Join([p] + a + b, '\n'))
  {
    hide Split, Join, Before, FieldOf, StripCr;
    var ls := [p] + a + [line] + b;
    SplitJoin(ls, '\n');
    FirstIs(ls, 1, l => Wanted(l, key, matches), 1 + |a|);
    assert ls[..1 + |a|] == [p] + a && ls[1 + |a| + 1..] == b;
  }
}
