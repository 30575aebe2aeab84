/** Who an entry is encrypted for (store.rs): the recipients files and the walk to the
    nearest one. */
module Recipients {
  import opened Text
  import opened Utf8
  import opened Names

  /** A file's bytes: text, or a ciphertext known by its plaintext, its recipients and what the
      engine drew for it; two encryptions of one text need not be the same bytes. */
  datatype Content = Plain(text: string) | Enc(plain: string, to: seq<string>, salt: nat)

  type Files = map<Path, Content>

  datatype CryptoError = DecryptionFailed | EncryptionFailed | NoUsableKey | Cancelled | Unavailable

  datatype StoreError = NoStore | NotInStore | SneakyPath | Io | Crypto(error: CryptoError)

  datatype Source =
    | Ids(ids: seq<string>)
    | RecipientsFile(path: Path)
    | IdentitiesFallback
    | Uninitialized

  // --- the two file formats --------------------------------------------------------

  /** A line up to its `#`, trimmed; nothing when nothing is left. */
  function IdOf(line: string): seq<string> {
    var id := Trim(line[..IndexOf(line, '#')]);
    if id == "" then [] else [id]
  }

  /** A last line without its newline is dropped, as pass drops it. */
  function GpgIds(text: string): seq<string>
    decreases |text|
  {
    var nl := IndexOf(text, '\n');
    if nl == |text| then [] else IdOf(text[..nl]) + GpgIds(text[nl + 1..])
  }

  /** `parse_gpg_id_file`, once read. */
  method ParseGpgIds(text: string) returns (ids: seq<string>)
    ensures ids == GpgIds(text)
  {
    hide Trim, GpgIds;
    ids := [];
    var rest := text;
    var nl := IndexOf(rest, '\n');
    while nl < |rest|
      invariant nl == IndexOf(rest, '\n')
      invariant GpgIds(text) == ids + GpgIds(rest)
      decreases |rest|
    {
      GpgIdsStep(ids, rest);
      var id := Trim(rest[..IndexOf(rest[..nl], '#')]);
      assert rest[..nl][..IndexOf(rest[..nl], '#')] == rest[..IndexOf(rest[..nl], '#')];
      if id != "" {
        ids := ids + [id];
      } else {
        assert ids + [] == ids;
      }
      rest := rest[nl + 1..];
      nl := IndexOf(rest, '\n');
    }
    GpgIdsStep(ids, rest);
  }

  lemma GpgIdsStep(ids: seq<string>, text: string)
    ensures var nl := IndexOf(text, '\n');
      && (nl == |text| ==> ids + GpgIds(text) == ids)
      && (nl < |text| ==> ids + GpgIds(text) == ids + IdOf(text[..nl]) + GpgIds(text[nl + 1..]))
  {
    hide IdOf, IndexOf;
  }

  /** Exactly the terminated lines are read, each by itself. */
  lemma {:induction false} GpgIdsLines(line: string, rest: string)
    requires '\n' !in line
    ensures GpgIds(line + "\n" + rest) == IdOf(line) + GpgIds(rest)
    ensures GpgIds(line) == []
  {
    hide Trim, IdOf;
    IndexOfNone(line, '\n');
    var s := line + "\n" + rest;
    IndexOfAt(s, '\n', |line|);
    assert s[..|line|] == line && s[|line| + 1..] == rest;
  }

  /** `.age-recipients` as age reads `-R` files. */
  function AgeRecipients(lines: seq<string>): seq<string> {
    if lines == [] then []
    else
      var line := Trim(lines[0]);
      (if line == "" || line[0] == '#' then [] else [line]) + AgeRecipients(lines[1..])
  }

  function AgeFirst(lines: seq<string>): seq<string>
    requires lines != []
  {
    if Trim(lines[0]) == "" || Trim(lines[0])[0] == '#' then [] else [Trim(lines[0])]
  }

  lemma AgeStep(lines: seq<string>)
    requires lines != []
    ensures AgeRecipients(lines) == AgeFirst(lines) + AgeRecipients(lines[1..])
  {
    hide Trim;
  }

  lemma NoRecipients()
    ensures AgeRecipients([]) == []
  {
  }

  lemma SameFirst(a: seq<string>, b: seq<string>)
    requires a != []
    ensures AgeFirst(a + b) == AgeFirst(a)
  {
    assert (a + b)[0] == a[0];
  }

  lemma {:induction false} AgeConcat(a: seq<string>, b: seq<string>)
    ensures AgeRecipients(a + b) == AgeRecipients(a) + AgeRecipients(b)
  {
    hide Trim, AgeRecipients, AgeFirst;
    if a == [] {
      assert a + b == b && AgeRecipients([]) == [] by { NoRecipients(); }
    } else {
      var pre := AgeFirst(a);
      AgeConcat(a[1..], b);
      assert (a + b)[1..] == a[1..] + b && AgeFirst(a + b) == pre by { SameFirst(a, b); }
      AgeStep(a);
      AgeStep(a + b);
      assert (pre + AgeRecipients(a[1..])) + AgeRecipients(b) == pre + (AgeRecipients(a[1..]) + AgeRecipients(b));
    }
  }

  // --- files that list recipients ----------------------------------------------------

  /** The part of a line that counts: for pass what stands before its comment. */
  ghost predicate Says(f: Format, line: string, r: string) {
    match f
    case Passage => Trim(line) == r
    case Pass => exists a, c :: Cut(line, a, c) && Trim(a) == r
  }

  /** `a` is the line, or the line up to its comment `c`. */
  ghost predicate Cut(line: string, a: string, c: string) {
    '#' !in a && (line == a || line == a + "#" + c)
  }

  /** An empty line or a comment. */
  ghost predicate Idle(f: Format, line: string) {
    Says(f, line, "") || (f == Passage && Trim(line) != "" && Trim(line)[0] == '#')
  }

  ghost predicate Recipient(f: Format, r: string) {
    r != "" && (f == Passage ==> r[0] != '#')
  }

  /** Lines with idle ones before, between and after them. */
  function Spread(gaps: seq<seq<string>>, lines: seq<string>): seq<string>
    requires |gaps| == |lines| + 1
  {
    if lines == [] then gaps[0] else gaps[0] + [lines[0]] + Spread(gaps[1..], lines[1..])
  }

  /** `lines` name `rs` in order, one a line, among idle lines. */
  ghost predicate Lists(f: Format, gaps: seq<seq<string>>, lines: seq<string>, rs: seq<string>) {
    && |gaps| == |lines| + 1 && |lines| == |rs|
    && (forall i :: 0 <= i < |rs| ==> Says(f, lines[i], rs[i]) && Recipient(f, rs[i]))
    && forall i, j :: 0 <= i < |gaps| && 0 <= j < |gaps[i]| ==> Idle(f, gaps[i][j])
  }

  /** The text of those lines. A last line without its newline is read by age and not by
      pass. */
  ghost predicate Writes(f: Format, text: string, lines: seq<string>) {
    && Lacks(lines, '\n') && IsUtf8(text)
    && match f
       case Passage => text == Before(lines, '\n') || (lines != [] && text == Join(lines, '\n'))
       case Pass => Before(lines, '\n') <= text && '\n' !in text[|Before(lines, '\n')|..]
  }

  /** What the lines of a recipients file name. */
  function Named(f: Format, lines: seq<string>): seq<string> {
    if f == Passage then AgeRecipients(lines) else AllIds(lines)
  }

  function AllIds(lines: seq<string>): seq<string> {
    if lines == [] then [] else IdOf(lines[0]) + AllIds(lines[1..])
  }

  lemma {:induction false} NamedConcat(f: Format, a: seq<string>, b: seq<string>)
    ensures Named(f, a + b) == Named(f, a) + Named(f, b)
  {
    hide IdOf;
    if f == Passage {
      AgeConcat(a, b);
    } else if a == [] {
      assert a + b == b;
    } else {
      NamedConcat(f, a[1..], b);
      assert (a + b)[1..] == a[1..] + b;
    }
  }

  lemma IdSaid(line: string, r: string)
    requires Says(Pass, line, r)
    ensures IdOf(line) == if r == "" then [] else [r]
  {
    hide Trim;
    var a, c :| Cut(line, a, c) && Trim(a) == r;
    if line == a {
      IndexOfNone(a, '#');
      assert line[..|a|] == a;
    } else {
      IndexOfAt(line, '#', |a|);
      assert line[..|a|] == a;
    }
  }

  lemma NamedOne(f: Format, line: string, r: string)
    requires Says(f, line, r) && Recipient(f, r)
    ensures Named(f, [line]) == [r]
  {
    hide Trim, IdOf;
    assert [line][1..] == [];
    if f == Pass {
      IdSaid(line, r);
      assert AllIds([line]) == [r] + AllIds([]);
    } else {
      assert AgeRecipients([line]) == [r] + AgeRecipients([]);
    }
  }

  lemma {:induction false} NamedIdle(f: Format, lines: seq<string>)
    requires forall j :: 0 <= j < |lines| ==> Idle(f, lines[j])
    ensures Named(f, lines) == []
  {
    hide Trim, IdOf;
    if lines != [] {
      NamedIdle(f, lines[1..]);
      assert Idle(f, lines[0]);
      if f == Pass { IdSaid(lines[0], ""); }
    }
  }

  lemma {:induction false} NamedSpread(f: Format, gaps: seq<seq<string>>, lines: seq<string>, rs: seq<string>)
    requires Lists(f, gaps, lines, rs)
    ensures Named(f, Spread(gaps, lines)) == rs
    decreases |lines|
  {
    hide Named, Idle, Says;
    NamedIdle(f, gaps[0]);
    if lines != [] {
      NamedSpread(f, gaps[1..], lines[1..], rs[1..]);
      NamedOne(f, lines[0], rs[0]);
      NamedConcat(f, gaps[0], [lines[0]]);
      NamedConcat(f, gaps[0] + [lines[0]], Spread(gaps[1..], lines[1..]));
      assert rs == [] + [rs[0]] + rs[1..];
    }
  }

  /** A `\r` before the newline does not count. */
  lemma {:induction false} AgeStripped(lines: seq<string>)
    ensures AgeRecipients(Stripped(lines)) == AgeRecipients(lines)
  {
    hide Trim, StripCr;
    if lines != [] {
      AgeStripped(lines[1..]);
      TrimStripCr(lines[0]);
      assert Stripped(lines)[1..] == Stripped(lines[1..]);
    }
  }

  lemma AgeFile(text: string, lines: seq<string>)
    requires Writes(Passage, text, lines)
    ensures AgeRecipients(StrLines(text)) == AgeRecipients(lines)
  {
    hide StrLines, IsUtf8, AgeRecipients, Join;
    if text == Before(lines, '\n') {
      StrLinesWritten(lines);
      AgeStripped(lines);
    } else {
      var init, last := lines[..|lines| - 1], lines[|lines| - 1];
      assert lines == init + [last];
      JoinSnoc(init, last, '\n');
      AgeStripped(init);
      AgeConcat(init, [last]);
      if last == "" {
        StrLinesWritten(init);
        assert text == Before(init, '\n');
        assert AgeRecipients([""]) == [] by { NothingSaid(); }
      } else {
        StrLinesOpen(init, last);
        AgeConcat(Stripped(init), [last]);
      }
    }
  }

  lemma NothingSaid()
    ensures AgeRecipients([""]) == []
  {
    assert TrimStart("") == "" && TrimEnd("") == "";
    assert [""][1..] == [];
  }

  lemma {:induction false} GpgFile(text: string, lines: seq<string>)
    requires Writes(Pass, text, lines)
    ensures GpgIds(text) == AllIds(lines)
    decreases |lines|
  {
    hide IdOf, IsUtf8, IndexOf, GpgIds;
    var b := Before(lines, '\n');
    if lines == [] {
      assert text == text[|b|..];
      GpgIdsLines(text, "");
    } else {
      var rest := Before(lines[1..], '\n') + text[|b|..];
      assert text == lines[0] + "\n" + rest;
      GpgIdsLines(lines[0], rest);
      assert rest[|Before(lines[1..], '\n')|..] == text[|b|..];
      UnusedUtf8(lines[0], rest);
      GpgFile(rest, lines[1..]);
    }
  }

  lemma UnusedUtf8(a: string, rest: string)
    requires IsUtf8(a + "\n" + rest)
    ensures IsUtf8(rest)
  {
    hide IsUtf8;
    AsciiBoundary(a, '\n', rest);
  }

  // --- the walk --------------------------------------------------------------------

  function ReadText(files: Files, p: Path): Result<string, StoreError> {
    if p in files && files[p].Plain? && IsUtf8(files[p].text) then Ok(files[p].text) else Err(Io)
  }

  function Found(f: Format, files: Files, p: Path): Result<Source, StoreError> {
    match f
    case Passage => Ok(RecipientsFile(p))
    case Pass => match ReadText(files, p) case Err(e) => Err(e) case Ok(text) => Ok(Ids(GpgIds(text)))
  }

  function Missing(f: Format): Source {
    match f case Passage => IdentitiesFallback case Pass => Uninitialized
  }

  function NearestFrom(f: Format, files: Files, dir: Path): Result<Source, StoreError> {
    var candidate := dir + [RecipientsName(f)];
    if candidate in files then Found(f, files, candidate)
    else if dir == [] then Ok(Missing(f))
    else NearestFrom(f, files, dir[..|dir| - 1])
  }

  function Resolve(f: Format, files: Files, name: string): Result<Source, StoreError> {
    if IsSneaky(name) then Err(SneakyPath) else NearestFrom(f, files, DirOf(name))
  }

  /** `resolve_recipients`. */
  method ResolveRecipients(f: Format, files: Files, name: string) returns (r: Result<Source, StoreError>)
    ensures r == Resolve(f, files, name)
  {
    hide IsSneaky, DirOf, GpgIds;
    if IsSneaky(name) {
      return Err(SneakyPath);
    }
    var current := DirOf(name);
    while true
      invariant NearestFrom(f, files, current) == NearestFrom(f, files, DirOf(name))
      decreases |current|
    {
      var candidate := current + [RecipientsName(f)];
      if candidate in files {
        if f == Passage {
          return Ok(RecipientsFile(candidate));
        }
        var text := ReadText(files, candidate);
        if text.Err? {
          return Err(text.error);
        }
        var ids := ParseGpgIds(text.value);
        return Ok(Ids(ids));
      }
      if current == [] {
        break;
      }
      current := current[..|current| - 1];
    }
    return Ok(Missing(f));
  }

  /** The recipient strings; Ok(None) when encryption is impossible. */
  function EncryptionRecipients(files: Files, s: Source): Result<Option<seq<string>>, StoreError> {
    match s
    case Ids(ids) => Ok(Some(ids))
    case RecipientsFile(p) =>
      (match ReadText(files, p) case Err(e) => Err(e) case Ok(text) => Ok(Some(AgeRecipients(StrLines(text)))))
    case IdentitiesFallback => Ok(Some([]))
    case Uninitialized => Ok(None)
  }

  /** The list an entry's ciphertext must be for. */
  function ResolvedFor(f: Format, files: Files, name: string): Result<seq<string>, StoreError> {
    match Resolve(f, files, name)
    case Err(e) => Err(e)
    case Ok(s) =>
      match EncryptionRecipients(files, s)
      case Err(e) => Err(e)
      case Ok(None) => Err(Crypto(NoUsableKey))
      case Ok(Some(rs)) => Ok(rs)
  }

  method RecipientsFor(f: Format, files: Files, name: string) returns (r: Result<seq<string>, StoreError>)
    ensures r == ResolvedFor(f, files, name)
  {
    hide Resolve, EncryptionRecipients;
    var source := ResolveRecipients(f, files, name);
    if source.Err? {
      return Err(source.error);
    }
    var rs := EncryptionRecipients(files, source.value);
    match rs
    case Err(e) => return Err(e);
    case Ok(None) => return Err(Crypto(NoUsableKey));
    case Ok(Some(list)) => return Ok(list);
  }

  /** The walk stops at the nearest ancestor with a recipients file, and only there. */
  lemma {:induction false} NearestAncestor(f: Format, files: Files, dir: Path, k: nat)
    requires k <= |dir| && dir[..k] + [RecipientsName(f)] in files
    requires forall j :: k < j <= |dir| ==> dir[..j] + [RecipientsName(f)] !in files
    ensures NearestFrom(f, files, dir) == Found(f, files, dir[..k] + [RecipientsName(f)])
    decreases |dir|
  {
    hide RecipientsName;
    assert dir[..|dir|] == dir;
    if k < |dir| {
      var up := dir[..|dir| - 1];
      assert up[..k] == dir[..k];
      forall j | k < j <= |up|
        ensures up[..j] + [RecipientsName(f)] !in files
      {
        assert up[..j] == dir[..j];
      }
      NearestAncestor(f, files, up, k);
    }
  }

  lemma {:induction false} NoAncestor(f: Format, files: Files, dir: Path)
    requires forall j :: 0 <= j <= |dir| ==> dir[..j] + [RecipientsName(f)] !in files
    ensures NearestFrom(f, files, dir) == Ok(Missing(f))
    decreases |dir|
  {
    hide RecipientsName;
    assert dir[..|dir|] == dir;
    if dir != [] {
      var up := dir[..|dir| - 1];
      forall j | 0 <= j <= |up|
        ensures up[..j] + [RecipientsName(f)] !in files
      {
        assert up[..j] == dir[..j];
      }
      NoAncestor(f, files, up);
    }
  }

  /** Where there is no recipients file up to the root: passage falls back to its own identities,
      pass has no key. A sneaky name and a file that cannot be read are errors. */
  lemma ResolvedErrors(f: Format, files: Files, name: string)
    ensures ".." in Split(name, '/') ==> ResolvedFor(f, files, name) == Err(SneakyPath)
    ensures ".." !in Split(name, '/')
        && (forall j :: 0 <= j <= |DirOf(name)| ==> DirOf(name)[..j] + [RecipientsName(f)] !in files)
      ==> ResolvedFor(f, files, name) == match f case Passage => Ok([]) case Pass => Err(Crypto(NoUsableKey))
  {
    hide IsSneaky, DirOf, RecipientsName, NearestFrom;
    SneakyIsDotDot(name);
    if forall j :: 0 <= j <= |DirOf(name)| ==> DirOf(name)[..j] + [RecipientsName(f)] !in files {
      NoAncestor(f, files, DirOf(name));
    }
  }

  lemma UnreadableFile(f: Format, files: Files, name: string, k: nat)
    requires ".." !in Split(name, '/') && k <= |DirOf(name)|
    requires DirOf(name)[..k] + [RecipientsName(f)] in files
    requires forall j :: k < j <= |DirOf(name)| ==> DirOf(name)[..j] + [RecipientsName(f)] !in files
    requires var c := files[DirOf(name)[..k] + [RecipientsName(f)]]; c.Enc? || !IsUtf8(c.text)
    ensures ResolvedFor(f, files, name) == Err(Io)
  {
    hide IsSneaky, DirOf, RecipientsName, NearestFrom, IsUtf8, GpgIds, AgeRecipients, StrLines;
    SneakyIsDotDot(name);
    NearestAncestor(f, files, DirOf(name), k);
  }

  /** The nearest recipients file, and whom it lists. */
  lemma ResolvedListed(
    f: Format, files: Files, name: string, k: nat, text: string,
    gaps: seq<seq<string>>, lines: seq<string>, rs: seq<string>)
    requires ".." !in Split(name, '/') && k <= |DirOf(name)|
    requires var file := match f case Pass => ".gpg-id" case Passage => ".age-recipients";
      && DirOf(name)[..k] + [file] in files && files[DirOf(name)[..k] + [file]] == Plain(text)
      && forall j :: k < j <= |DirOf(name)| ==> DirOf(name)[..j] + [file] !in files
    requires Lists(f, gaps, lines, rs)
    requires Writes(f, text, Spread(gaps, lines))
    ensures ResolvedFor(f, files, name) == Ok(rs)
  {
    hide IsSneaky, DirOf, NearestFrom, IsUtf8, GpgIds, AgeRecipients, StrLines, Says, Idle, Spread;
    SneakyIsDotDot(name);
    NearestAncestor(f, files, DirOf(name), k);
    NamedSpread(f, gaps, lines, rs);
    if f == Passage {
      AgeFile(text, Spread(gaps, lines));
    } else {
      GpgFile(text, Spread(gaps, lines));
    }
  }

  // --- what resolution depends on ------------------------------------------------------

  /** The same recipients files, with the same text. */
  ghost predicate SameRecipients(f: Format, a: Files, b: Files) {
    forall dir: Path :: SameAt(a, b, dir + [RecipientsName(f)])
  }

  ghost predicate SameAt(a: Files, b: Files, p: Path) {
    (p in a <==> p in b) && (p in a ==> a[p] == b[p])
  }

  /** Resolution reads the recipients files and nothing else. */
  lemma {:induction false} SameNearest(f: Format, a: Files, b: Files, dir: Path)
    requires SameRecipients(f, a, b)
    ensures NearestFrom(f, a, dir) == NearestFrom(f, b, dir)
    ensures NearestFrom(f, a, dir).Ok? ==>
      EncryptionRecipients(a, NearestFrom(f, a, dir).value) == EncryptionRecipients(b, NearestFrom(f, a, dir).value)
    decreases |dir|
  {
    hide RecipientsName, IsUtf8, GpgIds, AgeRecipients;
    assert SameAt(a, b, dir + [RecipientsName(f)]);
    if dir + [RecipientsName(f)] !in a && dir != [] {
      SameNearest(f, a, b, dir[..|dir| - 1]);
    }
  }

  lemma SameResolved(f: Format, a: Files, b: Files, name: string)
    requires SameRecipients(f, a, b)
    ensures Resolve(f, a, name) == Resolve(f, b, name)
    ensures ResolvedFor(f, a, name) == ResolvedFor(f, b, name)
  {
    hide IsSneaky, NearestFrom, EncryptionRecipients, DirOf;
    SameNearest(f, a, b, DirOf(name));
  }

  /** Writing or deleting an entry's file changes no resolution. */
  lemma EntryKeepsRecipients(f: Format, files: Files, name: string, c: Content)
    ensures SameRecipients(f, files, files[FileOf(f, name) := c])
    ensures SameRecipients(f, files, files - {FileOf(f, name)})
  {
    hide FileOf, RecipientsName;
    forall dir: Path
      ensures dir + [RecipientsName(f)] != FileOf(f, name)
    {
      EntryIsNoRecipients(f, name, dir);
    }
  }
}
