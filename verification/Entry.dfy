/** A decrypted entry: raw bytes, edited in place. The reference view is its lines;
    every edit is one line replaced, added or removed. */
module EntryCodec {
  import opened Text
  import opened Utf8

  datatype Field = Field(key: string, value: string)

  const OTPAUTH_PREFIX := "otpauth://"

  function Lines(raw: string): (ls: seq<string>)
    ensures |ls| >= 1
  {
    Split(raw, '\n')
  }

  predicate IsUri(line: string) {
    OTPAUTH_PREFIX <= line
  }

  function StripSpace(v: string): string {
    if v != "" && v[0] == ' ' then v[1..] else v
  }

  /** The `key: value` view of a line after the first. */
  function FieldOf(line: string): Option<Field> {
    if !IsUtf8(line) || IsUri(line) then None
    else match SplitOnce(line, ':')
      case None => None
      case Some((k, v)) => Some(Field(TrimEnd(k), StripSpace(v)))
  }

  predicate HasKey(line: string, key: string) {
    FieldOf(line).Some? && FieldOf(line).value.key == key
  }

  function Collect(ls: seq<string>): seq<Field> {
    if ls == [] then []
    else (match FieldOf(ls[0]) case Some(f) => [f] case None => []) + Collect(ls[1..])
  }

  lemma CollectStep(out: seq<Field>, ls: seq<string>)
    requires ls != []
    ensures out + Collect(ls) ==
      (if FieldOf(ls[0]).Some? then out + [FieldOf(ls[0]).value] else out) + Collect(ls[1..])
  {
    hide FieldOf;
  }

  // --- what the entry says -----------------------------------------------------

  function Password(raw: string): string {
    Lines(raw)[0]
  }

  function Fields(raw: string): seq<Field> {
    Collect(Lines(raw)[1..])
  }

  function Otpauth(raw: string): Option<string> {
    var ls := Lines(raw);
    var k := First(ls, 0, IsUri);
    if k < |ls| && IsUtf8(StripCr(ls[k])) then Some(StripCr(ls[k])) else None
  }

  // --- what the edits do -------------------------------------------------------

  function AppendLine(raw: string, line: string): string {
    raw + (if raw != "" && raw[|raw| - 1] != '\n' then "\n" else "") + line + "\n"
  }

  function RemoveLine(ls: seq<string>, k: nat): string
    requires k < |ls|
  {
    if k + 1 < |ls| then Join(ls[..k] + ls[k + 1..], '\n') else Before(ls[..k], '\n')
  }

  /** Where the value starts in a field line: one space after the colon is kept. */
  function ValueStart(line: string): (n: nat)
    requires ':' in line
    ensures n <= |line|
  {
    var i := IndexOf(line, ':');
    IndexOfIn(line, ':');
    if i + 1 < |line| && line[i + 1] == ' ' then i + 2 else i + 1
  }

  lemma IndexOfIn(s: string, c: char)
    requires c in s
    ensures IndexOf(s, c) < |s|
  {
  }

  function FieldLine(key: string, value: string): string {
    key + ": " + value
  }

  function WithValue(line: string, value: string): string
    requires ':' in line
  {
    line[..ValueStart(line)] + value
  }

  function FieldIndex(ls: seq<string>, key: string): (k: nat)
    requires |ls| >= 1
    ensures 1 <= k <= |ls|
    ensures k < |ls| ==> ':' in ls[k]
  {
    First(ls, 1, l => HasKey(l, key))
  }

  function SetFieldText(raw: string, key: string, value: string): string {
    var ls := Lines(raw);
    var k := FieldIndex(ls, key);
    if k < |ls| then Join(ls[k := WithValue(ls[k], value)], '\n')
    else AppendLine(raw, FieldLine(key, value))
  }

  function Tail(line: string): string {
    line[|StripCr(line)|..]
  }

  function SetOtpauthText(raw: string, uri: string): string {
    var ls := Lines(raw);
    var k := First(ls, 0, IsUri);
    if k < |ls| then Join(ls[k := uri + Tail(ls[k])], '\n') else AppendLine(raw, uri)
  }

  /** Line 1 is never removed. */
  function RemoveOtpauthText(raw: string): Option<string> {
    var ls := Lines(raw);
    var k := First(ls, 0, IsUri);
    if k == 0 || k == |ls| then None else Some(RemoveLine(ls, k))
  }

  predicate Wanted(line: string, key: string, matches: string -> bool) {
    HasKey(StripCr(line), key) && matches(FieldOf(StripCr(line)).value.value)
  }

  function RemoveFieldText(raw: string, key: string, matches: string -> bool): Option<string> {
    var ls := Lines(raw);
    var k := First(ls, 1, l => Wanted(l, key, matches));
    if k == |ls| then None else Some(RemoveLine(ls, k))
  }

  function SetPasswordText(raw: string, password: string): string {
    Join(Lines(raw)[0 := password], '\n')
  }

  // --- scanning ----------------------------------------------------------------

  /** The scan stands at the start of line `k`, `offset` bytes in. */
  ghost predicate AtLine(raw: string, offset: nat, k: nat) {
    && offset <= |raw| && k < |Lines(raw)|
    && raw[..offset] == Before(Lines(raw)[..k], '\n')
    && Lines(raw[offset..]) == Lines(raw)[k..]
  }

  lemma AtFirst(raw: string)
    ensures AtLine(raw, 0, 0)
  {
    assert raw[0..] == raw;
  }

  /** One line is the text up to the next line feed; after it comes the next line. */
  lemma AtNext(raw: string, offset: nat, k: nat, end: nat)
    requires AtLine(raw, offset, k) && end == offset + IndexOf(raw[offset..], '\n')
    ensures raw[offset..end] == Lines(raw)[k]
    ensures end == |raw| <==> k + 1 == |Lines(raw)|
    ensures end < |raw| ==> raw[end] == '\n' && AtLine(raw, end + 1, k + 1)
  {
    hide IndexOf, Split, Before;
    var rest, ls := raw[offset..], Lines(raw);
    var i := IndexOf(rest, '\n');
    SplitStep(rest, '\n', i);
    assert rest[..i] == raw[offset..end];
    assert ls[k] == ls[k..][0];
    if i < |rest| {
      assert rest[i + 1..] == raw[end + 1..];
      assert ls[k + 1..] == ls[k..][1..];
      BeforeSnoc(ls[..k], '\n', ls[k]);
      assert ls[..k + 1] == ls[..k] + [ls[k]];
      assert raw[..end + 1] == raw[..offset] + raw[offset..end] + ['\n'];
    }
  }

  lemma {:induction false} AfterIsRest(raw: string, offset: nat, k: nat, end: nat)
    requires AtLine(raw, offset, k) && end == offset + IndexOf(raw[offset..], '\n')
    ensures raw[end..] == After(Lines(raw)[k + 1..], '\n')
  {
    hide IndexOf, Split, Before, Join;
    AtNext(raw, offset, k, end);
    if end < |raw| {
      JoinSplit(raw[end + 1..], '\n');
      assert raw[end..] == ['\n'] + raw[end + 1..];
    }
  }

  /** Rewriting the bytes of one line rewrites that line. */
  lemma SpliceLine(raw: string, offset: nat, k: nat, end: nat, x: string)
    requires AtLine(raw, offset, k) && end == offset + IndexOf(raw[offset..], '\n')
    ensures raw[..offset] + x + raw[end..] == Join(Lines(raw)[k := x], '\n')
  {
    AfterIsRest(raw, offset, k, end);
    JoinAround(Lines(raw), '\n', k, x);
  }

  /** Cutting a line out together with its ending removes that line. */
  lemma CutLine(raw: string, offset: nat, k: nat, end: nat)
    requires AtLine(raw, offset, k) && end == offset + IndexOf(raw[offset..], '\n')
    ensures raw[..offset] + raw[if end < |raw| then end + 1 else end..] == RemoveLine(Lines(raw), k)
  {
    var ls := Lines(raw);
    AtNext(raw, offset, k, end);
    if end < |raw| {
      JoinSplit(raw[end + 1..], '\n');
      JoinBefore(ls[..k], ls[k + 1..], '\n');
    } else {
      assert raw[end..] == "";
    }
  }

  lemma {:induction false} JoinBefore(a: seq<string>, b: seq<string>, c: char)
    requires |b| >= 1
    ensures Join(a + b, c) == Before(a, c) + Join(b, c)
  {
    if a == [] {
      assert a + b == b;
    } else {
      JoinBefore(a[1..], b, c);
      JoinCons(a[0], a[1..] + b, c);
      assert a + b == [a[0]] + (a[1..] + b);
    }
  }

  lemma NothingInEmpty(key: string, matches: string -> bool)
    ensures !HasKey("", key) && !Wanted("", key, matches)
  {
  }

  lemma ValueSplice(raw: string, offset: nat, k: nat, end: nat, value: string)
    requires AtLine(raw, offset, k) && end == offset + IndexOf(raw[offset..], '\n')
    requires ':' in Lines(raw)[k]
    ensures offset + ValueStart(Lines(raw)[k]) <= |raw|
    ensures raw[..offset + ValueStart(Lines(raw)[k])] + value + raw[end..]
         == Join(Lines(raw)[k := WithValue(Lines(raw)[k], value)], '\n')
  {
    var line := Lines(raw)[k];
    var m := ValueStart(line);
    hide Join, Lines, IndexOf, ValueStart;
    AtNext(raw, offset, k, end);
    SpliceLine(raw, offset, k, end, line[..m] + value);
    SliceJoin(raw, offset, end, m);
    Regroup(raw[..offset], line[..m], value, raw[end..]);
  }

  lemma Regroup(a: string, b: string, c: string, d: string)
    ensures (a + b) + c + d == a + (b + c) + d
  {
  }

  lemma SliceJoin(raw: string, offset: nat, end: nat, m: nat)
    requires offset <= end <= |raw| && m <= end - offset
    ensures raw[..offset + m] == raw[..offset] + raw[offset..end][..m]
  {
  }

  lemma UriSplice(raw: string, start: nat, k: nat, end: nat, textEnd: nat, uri: string)
    requires AtLine(raw, start, k) && end == start + IndexOf(raw[start..], '\n')
    requires textEnd == start + |StripCr(Lines(raw)[k])|
    ensures raw[start..end] == Lines(raw)[k] && textEnd <= end
    ensures raw[start..textEnd] == StripCr(Lines(raw)[k])
    ensures raw[..start] + uri + raw[textEnd..]
         == Join(Lines(raw)[k := uri + Tail(Lines(raw)[k])], '\n')
  {
    hide Lines, IndexOf, Join;
    var line := Lines(raw)[k];
    AtNext(raw, start, k, end);
    SpliceLine(raw, start, k, end, uri + Tail(line));
    SliceSplit(raw, textEnd, end);
    assert raw[textEnd..end] == Tail(line);
    assert raw[..start] + uri + (Tail(line) + raw[end..]) == raw[..start] + (uri + Tail(line)) + raw[end..];
  }

  /** After a URI's text: at most a `\r`, then the line's end. */
  lemma UriEnd(raw: string, start: nat, k: nat, stop: nat, textEnd: nat)
    requires AtLine(raw, start, k) && stop == start + IndexOf(raw[start..], '\n')
    requires textEnd == start + |StripCr(Lines(raw)[k])|
    ensures textEnd <= stop <= |raw|
    ensures stop == if textEnd < |raw| && raw[textEnd] == '\r' then textEnd + 1 else textEnd
    ensures stop < |raw| ==> raw[stop] == '\n'
    ensures start == 0 <==> k == 0
  {
    hide Lines, IndexOf;
    AtNext(raw, start, k, stop);
    assert |raw[..start]| == start;
    if k > 0 {
      BeforeNonempty(Lines(raw)[..k]);
    }
    var line := Lines(raw)[k];
    assert forall i :: 0 <= i < |line| ==> line[i] == raw[start + i];
  }

  lemma BeforeNonempty(ls: seq<string>)
    requires ls != []
    ensures Before(ls, '\n') != ""
  {
  }

  lemma FieldLineIs(raw: string, key: string, value: string)
    ensures raw + key + ": " + value + "\n" == raw + "" + FieldLine(key, value) + "\n"
    ensures (raw + "\n") + key + ": " + value + "\n" == raw + "\n" + FieldLine(key, value) + "\n"
  {
  }

  lemma SliceSplit(raw: string, a: nat, b: nat)
    requires a <= b <= |raw|
    ensures raw[a..] == raw[a..b] + raw[b..]
  {
  }

  // --- the entry ---------------------------------------------------------------

  class Entry {
    var raw: string

    constructor (raw: string)
      ensures this.raw == raw
    {
      this.raw := raw;
    }

    method PasswordOf() returns (p: string)
      ensures p == Password(raw)
    {
      var i := IndexOf(raw, '\n');
      return raw[..i];
    }

    method SetPassword(password: string)
      modifies this
      ensures raw == SetPasswordText(old(raw), password)
    {
      var i := IndexOf(raw, '\n');
      AtFirst(raw);
      assert raw[0..] == raw;
      SpliceLine(raw, 0, 0, i, password);
      assert raw[..0] + password + raw[i..] == password + raw[i..];
      raw := password + raw[i..];
    }

    /** Every field after line 1, in order. */
    method FieldsOf() returns (out: seq<Field>)
      ensures out == Fields(raw)
    {
      hide Lines, FieldOf;
      out := [];
      var rest := Lines(raw)[1..];
      while rest != []
        invariant Fields(raw) == out + Collect(rest)
        decreases |rest|
      {
        CollectStep(out, rest);
        var f := FieldOf(rest[0]);
        if f.Some? {
          out := out + [f.value];
        }
        rest := rest[1..];
      }
    }

    /** Byte range of the first URI line's text, without its `\n` and a `\r` before it. */
    method OtpauthSpan() returns (span: Option<(nat, nat)>, ghost k: nat)
      ensures k == First(Lines(raw), 0, IsUri)
      ensures span.None? <==> k == |Lines(raw)|
      ensures span.Some? ==>
        var (start, textEnd) := span.value;
        && AtLine(raw, start, k) && start + IndexOf(raw[start..], '\n') <= |raw|
        && textEnd == start + |StripCr(Lines(raw)[k])|
    {
      hide HasKey, FieldOf, Lines;
      var offset := 0;
      k := 0;
      AtFirst(raw);
      while true
        invariant AtLine(raw, offset, k)
        invariant First(Lines(raw), 0, IsUri) == First(Lines(raw), k, IsUri)
        decreases |raw| - offset
      {
        var end := offset + IndexOf(raw[offset..], '\n');
        AtNext(raw, offset, k, end);
        var line := raw[offset..end];
        if IsUri(line) {
          var textEnd := if line[|line| - 1] == '\r' then end - 1 else end;
          return Some((offset, textEnd)), k;
        }
        if end == |raw| {
          return None, k + 1;
        }
        offset, k := end + 1, k + 1;
      }
    }

    method OtpauthOf() returns (uri: Option<string>)
      ensures uri == Otpauth(raw)
    {
      hide Lines, IsUtf8, StripCr, IndexOf;
      var span, k := OtpauthSpan();
      if span.None? {
        return None;
      }
      var (start, textEnd) := span.value;
      UriSplice(raw, start, k, start + IndexOf(raw[start..], '\n'), textEnd, "");
      return if IsUtf8(raw[start..textEnd]) then Some(raw[start..textEnd]) else None;
    }

    method SetOtpauth(uri: string)
      modifies this
      ensures raw == SetOtpauthText(old(raw), uri)
    {
      hide Lines, StripCr, IndexOf, Join, Before, IsUri, First;
      var span, k := OtpauthSpan();
      if span.Some? {
        var (start, textEnd) := span.value;
        UriSplice(raw, start, k, start + IndexOf(raw[start..], '\n'), textEnd, uri);
        raw := raw[..start] + uri + raw[textEnd..];
      } else {
        if raw != "" && raw[|raw| - 1] != '\n' {
          raw := raw + "\n";
        }
        raw := raw + uri + "\n";
      }
    }

    method RemoveOtpauth() returns (removed: bool)
      modifies this
      ensures removed <==> RemoveOtpauthText(old(raw)).Some?
      ensures raw == if removed then RemoveOtpauthText(old(raw)).value else old(raw)
    {
      hide Lines, IndexOf, Join, Before, IsUri, First;
      var span, k := OtpauthSpan();
      if span.None? {
        return false;
      }
      var (start, textEnd) := span.value;
      ghost var stop := start + IndexOf(raw[start..], '\n');
      UriEnd(raw, start, k, stop, textEnd);
      if start == 0 {
        return false;
      }
      var end := textEnd;
      if end < |raw| && raw[end] == '\r' {
        end := end + 1;
      }
      if end < |raw| && raw[end] == '\n' {
        end := end + 1;
      }
      CutLine(raw, start, k, stop);
      raw := raw[..start] + raw[end..];
      return true;
    }

    method SetField(key: string, value: string)
      modifies this
      ensures raw == SetFieldText(old(raw), key, value)
    {
      hide HasKey, IsUtf8, Lines, IsUri, Join, Before, WithValue, ValueStart, IndexOf, TrimEnd, FieldLine, AppendLine;
      var offset, lineNo := 0, 0;
      var rawLen := |raw|;
      ghost var p := l => HasKey(l, key);
      ghost var ls := Lines(raw);
      AtFirst(raw);
      while offset < rawLen
        invariant raw == old(raw) && rawLen == |raw|
        invariant AtLine(raw, offset, lineNo)
        invariant lineNo <= FieldIndex(ls, key)
        decreases rawLen - offset
      {
        var end := offset + IndexOf(raw[offset..], '\n');
        AtNext(raw, offset, lineNo, end);
        var text := raw[offset..end];
        if lineNo > 0 && IsUtf8(text) && !IsUri(text) {
          var parts := SplitOnce(text, ':');
          if parts.Some? && TrimEnd(parts.value.0) == key {
            var (k, v) := parts.value;
            KeyFound(text, key, k, v);
            assert lineNo == FieldIndex(ls, key);
            var valueStart := offset + |k| + (if v != "" && v[0] == ' ' then 2 else 1);
            ValueSplice(raw, offset, lineNo, end, value);
            raw := raw[..valueStart] + value + raw[end..];
            return;
          }
        }
        KeyMissed(text, key);
        if end == rawLen {
          break;
        }
        offset, lineNo := end + 1, lineNo + 1;
      }
      NothingInEmpty(key, _ => true);
      ScanDone(raw, offset, lineNo, l => HasKey(l, key));
      AppendField(key, value);
    }

    method RemoveFieldWhere(key: string, matches: string -> bool) returns (removed: bool)
      modifies this
      ensures removed <==> RemoveFieldText(old(raw), key, matches).Some?
      ensures raw == if removed then RemoveFieldText(old(raw), key, matches).value else old(raw)
    {
      hide HasKey, IsUtf8, Lines, IsUri, Join, Before, IndexOf, TrimEnd, StripCr, StripSpace, Wanted;
      var offset, lineNo := 0, 0;
      var rawLen := |raw|;
      ghost var p := l => Wanted(l, key, matches);
      ghost var ls := Lines(raw);
      AtFirst(raw);
      while offset < rawLen
        invariant raw == old(raw) && rawLen == |raw|
        invariant AtLine(raw, offset, lineNo)
        invariant lineNo <= First(ls, 1, p)
        decreases rawLen - offset
      {
        var end := offset + IndexOf(raw[offset..], '\n');
        AtNext(raw, offset, lineNo, end);
        var line := raw[offset..end];
        var text := StripCr(line);
        var parts := SplitOnce(text, ':');
        WantedIs(line, key, matches);
        if lineNo > 0 && IsUtf8(line) && parts.Some?
           && !IsUri(text) && TrimEnd(parts.value.0) == key && matches(StripSpace(parts.value.1)) {
          var stop := if end < rawLen then end + 1 else end;
          CutLine(raw, offset, lineNo, end);
          raw := raw[..offset] + raw[stop..];
          return true;
        }
        if end == rawLen {
          break;
        }
        offset, lineNo := end + 1, lineNo + 1;
      }
      NothingInEmpty(key, matches);
      ScanDone(raw, offset, lineNo, p);
      return false;
    }

    method AppendField(key: string, value: string)
      modifies this
      ensures raw == AppendLine(old(raw), FieldLine(key, value))
    {
      hide FieldLine;
      FieldLineIs(raw, key, value);
      if raw != "" && raw[|raw| - 1] != '\n' {
        raw := raw + "\n";
      }
      raw := raw + key + ": " + value + "\n";
    }
  }

  /** The scan is over: it stands past the last line feed, or on the last line, and
      nothing it saw matched. */
  lemma ScanDone(raw: string, offset: nat, k: nat, p: string -> bool)
    requires AtLine(raw, offset, k) && !p("")
    requires offset == |raw| || (k + 1 == |Lines(raw)| && (k == 0 || !p(Lines(raw)[k])))
    requires k <= First(Lines(raw), 1, p)
    ensures First(Lines(raw), 1, p) == |Lines(raw)|
  {
    if offset == |raw| {
      assert raw[offset..] == "";
      assert Lines("") == [""];
      assert Lines(raw)[k] == Lines(raw)[k..][0];
    }
  }

  lemma KeyFound(text: string, key: string, k: string, v: string)
    requires IsUtf8(text) && !IsUri(text) && SplitOnce(text, ':') == Some((k, v)) && TrimEnd(k) == key
    ensures HasKey(text, key)
    ensures ValueStart(text) == |k| + (if v != "" && v[0] == ' ' then 2 else 1)
  {
  }

  lemma KeyMissed(text: string, key: string)
    ensures HasKey(text, key) ==> IsUtf8(text) && !IsUri(text) && SplitOnce(text, ':').Some? && TrimEnd(SplitOnce(text, ':').value.0) == key
  {
  }

  lemma StripCrUtf8(line: string)
    ensures IsUtf8(StripCr(line)) <==> IsUtf8(line)
  {
    var t := StripCr(line);
    if t != line {
      AsciiBoundary(t, '\r', "");
      assert line == t + ['\r'] + "";
    }
  }

  lemma WantedIs(line: string, key: string, matches: string -> bool)
    ensures var text := StripCr(line); var parts := SplitOnce(text, ':');
      Wanted(line, key, matches) <==>
      && IsUtf8(line) && parts.Some? && !IsUri(text)
      && TrimEnd(parts.value.0) == key && matches(StripSpace(parts.value.1))
  {
    StripCrUtf8(line);
  }
}
