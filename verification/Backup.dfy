/** The `.passpony` container (backup.rs): sections behind length-prefixed headers.
    Section bodies are bytes, one `char` per byte, like all text here. */
module Backup {
  import opened Text
  import opened Utf8
  import Decimal

  datatype BackupError = NotABackup | NewerVersion | Damaged

  datatype Section = Section(kind: string, name: string, data: string)

  const MAGIC: string := "PassPony backup "
  const TRAILER: string := "end"

  // --- writing -----------------------------------------------------------------

  /** `kind` without its white-space characters. */
  function StripSpaces(s: string): string
    decreases |s|
  {
    if s == "" then ""
    else if SpaceAt(s) > 0 then StripSpaces(s[SpaceAt(s)..])
    else
      var n := if CharLen(s) == 0 then 1 else CharLen(s);
      s[..n] + StripSpaces(s[n..])
  }

  /** `name` with its line breaks turned into spaces. */
  function OneLine(s: string): (r: string)
    ensures |r| == |s|
  {
    seq(|s|, i requires 0 <= i < |s| => if s[i] == '\n' || s[i] == '\r' then ' ' else s[i])
  }

  /** Line breaks become spaces, and nothing else changes. */
  lemma OneLineIs(s: string, i: nat)
    requires i < |s|
    ensures OneLine(s)[i] == if s[i] in {'\n', '\r'} then ' ' else s[i]
  {
  }

  function HeadLine(kind: string, len: nat, name: string): string {
    kind + " " + Decimal.Print(len) + (if name == "" then "" else " " + name)
  }

  function SectionText(s: Section): string {
    HeadLine(StripSpaces(s.kind), |s.data|, OneLine(s.name)) + "\n" + s.data + "\n"
  }

  function SectionsText(ss: seq<Section>): string {
    if ss == [] then "" else SectionText(ss[0]) + SectionsText(ss[1..])
  }

  function Encode(ss: seq<Section>): string {
    MAGIC + "1" + "\n" + SectionsText(ss) + TRAILER + "\n"
  }

  method EncodeSections(ss: seq<Section>) returns (out: string)
    ensures out == Encode(ss)
  {
    hide StripSpaces, OneLine, SectionText;
    out := MAGIC + "1" + "\n";
    var rest := ss;
    while rest != []
      invariant MAGIC + "1" + "\n" + SectionsText(ss) == out + SectionsText(rest)
      decreases |rest|
    {
      out := out + SectionText(rest[0]);
      rest := rest[1..];
    }
    out := out + TRAILER + "\n";
  }

  // --- reading -----------------------------------------------------------------

  /** The line at the front and what follows it, when the line ends and is UTF-8. */
  function ReadLine(rest: string): (r: Option<(string, string)>)
    ensures r.Some? ==> |r.value.1| < |rest| && rest == r.value.0 + "\n" + r.value.1
  {
    var nl := IndexOf(rest, '\n');
    if nl == |rest| || !IsUtf8(rest[..nl]) then None
    else
      Cut(rest, nl);
      Some((rest[..nl], rest[nl + 1..]))
  }

  /** Kind, length and name of a section's header line (`splitn(3, ' ')`). */
  function ReadHead(line: string): Option<(string, nat, string)> {
    match SplitOnce(line, ' ')
    case None => None
    case Some((kind, tail)) =>
      var (digits, name) := match SplitOnce(tail, ' ') case None => (tail, "") case Some((d, n)) => (d, n);
      match Decimal.Parse(digits, Decimal.U64_MAX)
      case Some(len) => if kind == "" then None else Some((kind, len, name))
      case None => None
  }

  /** The body of `len` bytes and what follows its newline. */
  function ReadBody(rest: string, len: nat): (r: Option<(string, string)>)
    ensures r.Some? ==> |r.value.1| < |rest| && rest == r.value.0 + "\n" + r.value.1 && |r.value.0| == len
  {
    if len >= |rest| || rest[len] != '\n' then None
    else
      Cut(rest, len);
      Some((rest[..len], rest[len + 1..]))
  }

  function ReadSections(rest: string): (r: Result<seq<Section>, BackupError>)
    ensures r.Ok? || r == Err(Damaged)
    decreases |rest|
  {
    match ReadLine(rest)
    case None => Err(Damaged)
    case Some((line, after)) =>
      if line == TRAILER then
        if after == "" then Ok([]) else Err(Damaged)
      else match ReadHead(line)
        case None => Err(Damaged)
        case Some((kind, len, name)) =>
          match ReadBody(after, len)
          case None => Err(Damaged)
          case Some((body, tail)) => Cons(Section(kind, name, body), ReadSections(tail))
  }

  function Cons(s: Section, r: Result<seq<Section>, BackupError>): Result<seq<Section>, BackupError> {
    match r case Ok(ss) => Ok([s] + ss) case Err(e) => Err(e)
  }

  /** `Ok` with everything after the header line, for version 1 alone. */
  function ReadHeader(data: string): (r: Result<string, BackupError>)
    ensures r.Ok? ==> |r.value| < |data| && exists line :: data == line + "\n" + r.value
  {
    match ReadLine(data)
    case None => Err(NotABackup)
    case Some((line, rest)) =>
      match StripPrefix(line, MAGIC)
      case None => Err(NotABackup)
      case Some(version) =>
        match Decimal.Parse(Trim(version), Decimal.U32_MAX)
        case None => Err(NotABackup)
        case Some(v) => if v == 1 then Ok(rest) else if v > 1 then Err(NewerVersion) else Err(NotABackup)
  }

  function Decode(data: string): Result<seq<Section>, BackupError> {
    match ReadHeader(data)
    case Err(e) => Err(e)
    case Ok(rest) => ReadSections(rest)
  }

  /** What the loop has read, then the rest. */
  function Continue(done: seq<Section>, rest: string): Result<seq<Section>, BackupError> {
    match ReadSections(rest) case Ok(ss) => Ok(done + ss) case Err(e) => Err(e)
  }

  lemma ContinueStep(done: seq<Section>, line: string, after: string, s: Section, len: nat, tail: string)
    requires line != TRAILER && ReadHead(line) == Some((s.kind, len, s.name))
    requires ReadBody(after, len) == Some((s.data, tail))
    requires ReadLine(line + "\n" + after) == Some((line, after))
    ensures Continue(done, line + "\n" + after) == Continue(done + [s], tail)
  {
    hide ReadHead, ReadBody, ReadLine;
    match ReadSections(tail)
    case Ok(ss) => assert done + ([s] + ss) == done + [s] + ss;
    case Err(_) =>
  }

  /** `read_line`, which moves the position over the line it returns. */
  method NextLine(data: string, pos: nat) returns (line: Option<string>, next: nat)
    requires pos <= |data|
    ensures pos <= next <= |data|
    ensures line.None? <==> ReadLine(data[pos..]).None?
    ensures line.Some? ==> pos < next && ReadLine(data[pos..]) == Some((line.value, data[next..]))
  {
    var rest := data[pos..];
    var nl := IndexOf(rest, '\n');
    if nl == |rest| || !IsUtf8(rest[..nl]) {
      return None, pos;
    }
    next := pos + nl + 1;
    assert rest[nl + 1..] == data[next..];
    return Some(rest[..nl]), next;
  }

  method DecodeSections(data: string) returns (r: Result<seq<Section>, BackupError>)
    ensures r == Decode(data)
  {
    hide ReadLine, ReadHead, ReadSections, Trim, StripPrefix, Decimal.Parse, Decimal.Number;
    var header, pos := NextLine(data, 0);
    assert data[0..] == data;
    if header.None? {
      return Err(NotABackup);
    }
    var version := StripPrefix(header.value, MAGIC);
    if version.None? {
      return Err(NotABackup);
    }
    var number := Decimal.Parse(Trim(version.value), Decimal.U32_MAX);
    if number.None? || number.value == 0 {
      return Err(NotABackup);
    } else if number.value > 1 {
      return Err(NewerVersion);
    }
    r := DecodeBodies(data, pos);
  }

  method DecodeBodies(data: string, start: nat) returns (r: Result<seq<Section>, BackupError>)
    requires start <= |data|
    ensures r == ReadSections(data[start..])
  {
    hide ReadHead, ReadLine, ReadSections;
    var sections, pos := [], start;
    ContinueFrom(data[start..]);
    while true
      invariant pos <= |data|
      invariant ReadSections(data[start..]) == Continue(sections, data[pos..])
      decreases |data| - pos
    {
      var line, next := NextLine(data, pos);
      if line.None? {
        EndsBadly(data[pos..]);
        return Err(Damaged);
      }
      if line.value == TRAILER {
        EndsWell(data[pos..], data[next..]);
        assert sections + [] == sections;
        return if next == |data| then Ok(sections) else Err(Damaged);
      }
      var head := ReadHead(line.value);
      if head.None? {
        EndsBadly(data[pos..]);
        return Err(Damaged);
      }
      var (kind, len, name) := head.value;
      var end := next + len;
      if end >= |data| || data[end] != '\n' {
        EndsBadly(data[pos..]);
        return Err(Damaged);
      }
      BodyAt(data, next, len);
      ContinueStep(sections, line.value, data[next..], Section(kind, name, data[next..end]), len, data[end + 1..]);
      sections := sections + [Section(kind, name, data[next..end])];
      pos := end + 1;
    }
  }

  lemma ContinueFrom(rest: string)
    ensures Continue([], rest) == ReadSections(rest)
  {
    hide ReadSections;
    match ReadSections(rest)
    case Ok(ss) => assert [] + ss == ss;
    case Err(_) =>
  }

  lemma EndsBadly(rest: string)
    requires match ReadLine(rest)
      case None => true
      case Some((line, after)) =>
        && line != TRAILER
        && match ReadHead(line) case None => true case Some((_, len, _)) => ReadBody(after, len).None?
    ensures ReadSections(rest) == Err(Damaged)
  {
  }

  lemma EndsWell(rest: string, after: string)
    requires ReadLine(rest) == Some((TRAILER, after))
    ensures ReadSections(rest) == if after == "" then Ok([]) else Err(Damaged)
  {
  }

  lemma BodyAt(data: string, pos: nat, len: nat)
    requires pos + len < |data| && data[pos + len] == '\n'
    ensures ReadBody(data[pos..], len) == Some((data[pos..pos + len], data[pos + len + 1..]))
  {
    var rest := data[pos..];
    assert rest[..len] == data[pos..pos + len] && rest[len + 1..] == data[pos + len + 1..];
  }

  // --- round trip --------------------------------------------------------------

  /** What the types of kind, name and data promise in any case. */
  ghost predicate Typed(s: Section) {
    IsUtf8(s.kind) && IsUtf8(s.name) && |s.data| <= Decimal.U64_MAX
  }

  /** A section as encoding writes it. */
  function Cleaned(s: Section): Section {
    Section(StripSpaces(s.kind), OneLine(s.name), s.data)
  }

  function AllCleaned(ss: seq<Section>): seq<Section> {
    if ss == [] then [] else [Cleaned(ss[0])] + AllCleaned(ss[1..])
  }

  /** A white-space character in the middle goes, what is around it stays. */
  lemma {:induction false} StripSpacesConcat(a: string, b: string)
    requires IsUtf8(a)
    ensures StripSpaces(a + b) == StripSpaces(a) + StripSpaces(b)
    decreases |a|
  {
    hide SpaceAt, CharLen, StripSpaces;
    if a == "" {
      assert a + b == b;
      StripSpacesNone();
    } else {
      var n := CharLen(a);
      FrontConcat(a, b);
      assert (a + b)[n..] == a[n..] + b && (a + b)[..n] == a[..n];
      StripSpacesStep(a);
      StripSpacesStep(a + b);
      StripSpacesConcat(a[n..], b);
    }
  }

  lemma StripSpacesNone()
    ensures StripSpaces("") == ""
  {
  }

  lemma StripSpacesStep(s: string)
    requires s != "" && CharLen(s) > 0 && (SpaceAt(s) > 0 ==> SpaceAt(s) == CharLen(s))
    ensures StripSpaces(s) == (if SpaceAt(s) > 0 then "" else s[..CharLen(s)]) + StripSpaces(s[CharLen(s)..])
  {
    hide SpaceAt, CharLen;
  }

  lemma FrontConcat(a: string, b: string)
    requires a != "" && IsUtf8(a)
    ensures CharLen(a + b) == CharLen(a) && SpaceAt(a + b) == SpaceAt(a) && (SpaceAt(a) > 0 ==> SpaceAt(a) == CharLen(a))
  {
  }

  /** What is stripped is white space, and all of it. */
  lemma StripSpacesOne(c: string)
    requires c != "" && CharLen(c) == |c|
    ensures StripSpaces(c) == if SpaceAt(c) > 0 then "" else c
  {
    assert c[|c|..] == "";
    FrontConcat(c, "");
    assert IsUtf8(c) by { assert IsUtf8(c[|c|..]); }
  }

  lemma {:induction false} StripSpacesPlain(s: string)
    ensures ' ' !in StripSpaces(s) && '\n' !in StripSpaces(s)
    ensures IsUtf8(s) ==> IsUtf8(StripSpaces(s))
    decreases |s|
  {
    if s != "" {
      if SpaceAt(s) > 0 {
        assert IsUtf8(s) ==> CharLen(s) == SpaceAt(s);
        StripSpacesPlain(s[SpaceAt(s)..]);
      } else {
        var n := if CharLen(s) == 0 then 1 else CharLen(s);
        StripSpacesPlain(s[n..]);
        if IsUtf8(s) {
          CharThen(s[..n], StripSpaces(s[n..]));
        }
      }
    }
  }

  lemma {:induction false} OneLinePlain(s: string)
    ensures '\n' !in OneLine(s)
    ensures IsUtf8(s) ==> IsUtf8(OneLine(s))
    decreases |s|
  {
    if s != "" && CharLen(s) > 0 {
      var n := CharLen(s);
      assert CharLen(OneLine(s)) == n;
      assert OneLine(s)[n..] == OneLine(s[n..]);
      OneLinePlain(s[n..]);
    }
  }

  lemma HeadReads(kind: string, len: nat, name: string)
    requires ' ' !in kind && len <= Decimal.U64_MAX
    ensures ReadHead(HeadLine(kind, len, name)) == if kind == "" then None else Some((kind, len, name))
  {
    hide Decimal.Print;
    var digits := Decimal.Print(len);
    var tail := digits + if name == "" then "" else " " + name;
    Decimal.ParsePrint(len, Decimal.U64_MAX);
    Decimal.PrintLacks(len, ' ');
    assert HeadLine(kind, len, name) == kind + [' '] + tail;
    SplitOnceAt(kind, ' ', tail);
    if name != "" {
      SplitOnceAt(digits, ' ', name);
      assert tail == digits + [' '] + name;
    } else {
      assert tail == digits;
      IndexOfNone(digits, ' ');
    }
  }

  lemma HeadPlain(kind: string, len: nat, name: string)
    requires IsUtf8(kind) && IsUtf8(name) && '\n' !in kind && '\n' !in name
    ensures IsUtf8(HeadLine(kind, len, name)) && '\n' !in HeadLine(kind, len, name)
    ensures HeadLine(kind, len, name) != TRAILER
  {
    hide Decimal.Print, IsUtf8;
    var digits := Decimal.Print(len);
    Decimal.PrintLacks(len, '\n');
    AsciiIsUtf8(digits);
    AsciiBoundary(kind, ' ', digits);
    AsciiBoundary(kind + " " + digits, ' ', name);
    assert kind + " " + digits + (" " + name) == kind + " " + digits + " " + name;
    assert kind + " " + digits + "" == kind + " " + digits;
    var line := HeadLine(kind, len, name);
    assert line[|kind|] == ' ';
  }

  lemma LineReads(line: string, after: string)
    requires '\n' !in line && IsUtf8(line)
    ensures ReadLine(line + "\n" + after) == Some((line, after))
  {
    var s := line + "\n" + after;
    IndexOfAt(s, '\n', |line|);
    assert s[..|line|] == line && s[|line| + 1..] == after;
  }

  lemma BodyReads(body: string, tail: string)
    ensures ReadBody(body + "\n" + tail, |body|) == Some((body, tail))
  {
    var s := body + "\n" + tail;
    assert s[..|body|] == body && s[|body| + 1..] == tail;
  }

  /** Reading one written section, whatever its body looks like, then the rest. */
  lemma SectionReads(s: Section, tail: string)
    requires Typed(s)
    ensures ReadSections(SectionText(s) + tail) ==
            if StripSpaces(s.kind) == "" then Err(Damaged) else Cons(Cleaned(s), ReadSections(tail))
  {
    hide ReadLine, ReadHead, ReadBody, HeadLine, StripSpaces, OneLine, IsUtf8, ReadSections;
    var kind, name := StripSpaces(s.kind), OneLine(s.name);
    var line := HeadLine(kind, |s.data|, name);
    StripSpacesPlain(s.kind);
    OneLinePlain(s.name);
    HeadPlain(kind, |s.data|, name);
    HeadReads(kind, |s.data|, name);
    var after := s.data + "\n" + tail;
    LineReads(line, after);
    BodyReads(s.data, tail);
    assert SectionText(s) + tail == line + "\n" + after;
    ReadStep(line + "\n" + after, line, after, tail);
  }

  lemma ReadStep(rest: string, line: string, after: string, tail: string)
    requires ReadLine(rest) == Some((line, after)) && line != TRAILER
    ensures match ReadHead(line)
      case None => ReadSections(rest) == Err(Damaged)
      case Some((kind, len, name)) =>
        match ReadBody(after, len)
        case None => ReadSections(rest) == Err(Damaged)
        case Some((body, t)) => ReadSections(rest) == Cons(Section(kind, name, body), ReadSections(t))
  {
    hide ReadLine, ReadHead, ReadBody;
  }

  ghost predicate Kinds(ss: seq<Section>) {
    forall i :: 0 <= i < |ss| ==> StripSpaces(ss[i].kind) != ""
  }

  lemma {:induction false} SectionsRead(ss: seq<Section>)
    requires forall i :: 0 <= i < |ss| ==> Typed(ss[i])
    ensures ReadSections(SectionsText(ss) + "end\n") == if Kinds(ss) then Ok(AllCleaned(ss)) else Err(Damaged)
  {
    hide ReadSections, SectionText, StripSpaces, Cleaned, Typed;
    if ss == [] {
      EndReads();
      assert SectionsText(ss) + "end\n" == "end\n";
    } else {
      SectionsRead(ss[1..]);
      var tail := SectionsText(ss[1..]) + "end\n";
      SectionReads(ss[0], tail);
      assert SectionsText(ss) + "end\n" == SectionText(ss[0]) + tail;
      assert Kinds(ss) <==> StripSpaces(ss[0].kind) != "" && Kinds(ss[1..]) by {
        assert Kinds(ss[1..]) ==> forall i :: 1 <= i < |ss| ==> StripSpaces(ss[i].kind) == StripSpaces(ss[1..][i - 1].kind);
      }
    }
  }

  lemma EndReads()
    ensures ReadSections("end\n") == Ok([])
  {
    LineReads("end", "");
    assert "end" + "\n" + "" == "end\n";
  }

  lemma HeaderReads(rest: string)
    ensures ReadHeader(MAGIC + "1" + "\n" + rest) == Ok(rest)
  {
    hide IsUtf8, Trim, Decimal.Parse, Decimal.Print;
    var line := MAGIC + "1";
    AsciiIsUtf8(line);
    LineReads(line, rest);
    assert line[|MAGIC|..] == "1";
    TrimmedStays("1");
    One();
  }

  /** Other versions: newer ones are told apart, anything else is no backup. */
  lemma HeaderVersion(version: string, rest: string)
    requires '\n' !in version && IsUtf8(version)
    ensures var line := "PassPony backup " + version;
      match Decimal.Parse(Trim(version), Decimal.U32_MAX)
      case None => ReadHeader(line + "\n" + rest) == Err(NotABackup)
      case Some(v) =>
        ReadHeader(line + "\n" + rest) ==
        if v == 0 then Err(NotABackup) else if v == 1 then Ok(rest) else Err(NewerVersion)
  {
    hide IsUtf8, Trim, Decimal.Parse;
    var line := MAGIC + version;
    AsciiIsUtf8(MAGIC);
    Concat(MAGIC, version);
    LineReads(line, rest);
    assert line[|MAGIC|..] == version;
  }

  lemma NoHeader(line: string, rest: string)
    requires '\n' !in line && !("PassPony backup " <= line)
    ensures ReadHeader(line + "\n" + rest) == Err(NotABackup) && ReadHeader(line) == Err(NotABackup)
  {
    hide IsUtf8;
    IndexOfAt(line + "\n" + rest, '\n', |line|);
    IndexOfNone(line, '\n');
    assert (line + "\n" + rest)[..|line|] == line;
  }

  lemma One()
    ensures Decimal.Parse("1", Decimal.U32_MAX) == Some(1)
  {
    Decimal.ParsePrint(1, Decimal.U32_MAX);
    assert Decimal.Print(1) == "1";
  }

  /** A written container reads back to its sections, cleaned, for any bodies; it is
      refused exactly when some kind is nothing but white space. */
  lemma RoundTrip(ss: seq<Section>)
    requires forall i :: 0 <= i < |ss| ==> Typed(ss[i])
    ensures Decode(Encode(ss)) == if Kinds(ss) then Ok(AllCleaned(ss)) else Err(Damaged)
  {
    hide ReadSections, ReadHeader, Kinds, SectionsText, AllCleaned, Typed;
    var rest := SectionsText(ss) + "end\n";
    HeaderReads(rest);
    SectionsRead(ss);
    Glue(MAGIC + "1" + "\n", SectionsText(ss), TRAILER, "\n");
    assert TRAILER + "\n" == "end\n";
  }

  lemma Glue(a: string, b: string, c: string, d: string)
    ensures a + b + c + d == a + (b + (c + d))
  {
  }

  /** White space in the kind and line breaks in the name are all that is changed. */
  ghost predicate Clean(s: Section) {
    && s.kind != "" && (forall i :: 0 <= i < |s.kind| ==> SpaceAt(s.kind[i..]) == 0)
    && '\n' !in s.name && '\r' !in s.name
  }

  lemma {:induction false} StripSpacesSame(s: string)
    requires forall i :: 0 <= i < |s| ==> SpaceAt(s[i..]) == 0
    ensures StripSpaces(s) == s
    decreases |s|
  {
    if s != "" {
      assert s[0..] == s;
      var n := if CharLen(s) == 0 then 1 else CharLen(s);
      forall i | 0 <= i < |s[n..]|
        ensures SpaceAt(s[n..][i..]) == 0
      {
        assert s[n..][i..] == s[n + i..];
      }
      StripSpacesSame(s[n..]);
    }
  }

  lemma {:induction false} CleanStays(ss: seq<Section>)
    requires forall i :: 0 <= i < |ss| ==> Clean(ss[i])
    ensures Kinds(ss) && AllCleaned(ss) == ss
  {
    hide StripSpaces;
    if ss != [] {
      StripSpacesSame(ss[0].kind);
      assert OneLine(ss[0].name) == ss[0].name;
      CleanStays(ss[1..]);
      assert forall i :: 1 <= i < |ss| ==> ss[i] == ss[1..][i - 1];
    }
  }

  lemma RoundTripClean(ss: seq<Section>)
    requires forall i :: 0 <= i < |ss| ==> Typed(ss[i]) && Clean(ss[i])
    ensures Decode(Encode(ss)) == Ok(ss)
  {
    hide Decode, Encode, Clean, Typed, Kinds;
    CleanStays(ss);
    RoundTrip(ss);
  }

  // --- never a partial result ------------------------------------------------------

  lemma LineLonger(rest: string, b: string)
    requires ReadLine(rest).Some?
    ensures ReadLine(rest + b) == Some((ReadLine(rest).value.0, ReadLine(rest).value.1 + b))
  {
    hide IsUtf8;
    var nl := IndexOf(rest, '\n');
    IndexOfAt(rest + b, '\n', nl);
    assert (rest + b)[..nl] == rest[..nl] && (rest + b)[nl + 1..] == rest[nl + 1..] + b;
  }

  lemma BodyLonger(rest: string, len: nat, b: string)
    requires ReadBody(rest, len).Some?
    ensures ReadBody(rest + b, len) == Some((ReadBody(rest, len).value.0, ReadBody(rest, len).value.1 + b))
  {
    assert (rest + b)[..len] == rest[..len] && (rest + b)[len + 1..] == rest[len + 1..] + b;
  }

  lemma {:induction false} SectionsLonger(rest: string, b: string)
    requires ReadSections(rest).Ok? && b != ""
    ensures ReadSections(rest + b) == Err(Damaged)
    decreases |rest|
  {
    hide ReadLine, ReadHead, ReadBody;
    var (line, after) := ReadLine(rest).value;
    LineLonger(rest, b);
    if line != TRAILER {
      var (kind, len, name) := ReadHead(line).value;
      var (body, tail) := ReadBody(after, len).value;
      BodyLonger(after, len, b);
      SectionsLonger(tail, b);
    }
  }

  /** No accepted container can be extended: any bytes after it make it `Damaged`. */
  lemma ExtensionRejected(data: string, b: string)
    requires Decode(data).Ok? && b != ""
    ensures Decode(data + b) == Err(Damaged)
  {
    hide ReadLine, ReadSections, Trim, Decimal.Parse, StripPrefix;
    LineLonger(data, b);
    SectionsLonger(ReadHeader(data).value, b);
  }

  lemma LineShorter(a: string, b: string)
    requires '\n' in a
    ensures ReadLine(a).Some? <==> ReadLine(a + b).Some?
  {
    hide IsUtf8;
    var nl := IndexOf(a, '\n');
    IndexOfAt(a + b, '\n', nl);
    assert (a + b)[..nl] == a[..nl];
  }

  /** No accepted container can be cut short: a prefix that ends inside the header line
      is not a backup, any other is `Damaged`. */
  lemma PrefixRejected(a: string, b: string)
    requires Decode(a + b).Ok? && b != ""
    ensures Decode(a) == Err(if '\n' in a then Damaged else NotABackup)
  {
    hide ReadSections, Trim, Decimal.Parse, StripPrefix, IsUtf8;
    if '\n' in a {
      hide ReadLine;
      LineShorter(a, b);
      LineLonger(a, b);
      if Decode(a).Ok? {
        ExtensionRejected(a, b);
      }
    } else {
      IndexOfNone(a, '\n');
    }
  }
}
