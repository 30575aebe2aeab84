/** The OpenSSH known-hosts text as a database (ssh.rs): edits of text that behave like
    a map from host and key type to key. `digest` stands for SHA-256. */
module KnownHosts {
  import opened Text
  import opened Utf8
  import opened Bits
  import Base64

  datatype HostKey = HostKey(keyType: string, keyBase64: string, fingerprint: string)

  datatype KnownHost = KnownHost(host: string, key: HostKey)

  datatype HostCheck = Trusted | Unknown | Changed(pinnedFingerprint: string)

  type Digest = seq<u8> -> seq<u8>

  // --- keys --------------------------------------------------------------------

  function Fingerprint(digest: Digest, blob: seq<u8>): string {
    "SHA256:" + Base64.Encode(digest(blob), false)
  }

  /** The key type is the blob's first length-prefixed field. */
  function FromBlob(digest: Digest, blob: seq<u8>): Option<HostKey> {
    if |blob| < 4 then None
    else
      var len := BigEndian(blob[..4]);
      if 4 + len > |blob| then None
      else
        var keyType := AsText(blob[4..4 + len]);
        if !IsUtf8(keyType) || keyType == "" then None
        else Some(HostKey(keyType, Base64.Encode(blob, true), Fingerprint(digest, blob)))
  }

  /** A 32-bit length as section 5 of RFC 4251 writes it. */
  function U32(n: nat): seq<u8> {
    [n / 0x100_0000 % 0x100, n / 0x1_0000 % 0x100, n / 0x100 % 0x100, n % 0x100]
  }

  lemma U32Reads(n: nat)
    requires n < TWO_32
    ensures BigEndian(U32(n)) == n
  {
    BigEndianFour(n / 0x100_0000 % 0x100, n / 0x1_0000 % 0x100, n / 0x100 % 0x100, n % 0x100);
  }

  lemma BigEndianFour(a: u8, b: u8, c: u8, d: u8)
    ensures BigEndian([a, b, c, d]) == a * 0x100_0000 + b * 0x1_0000 + c * 0x100 + d
  {
    hide BigEndian;
    BigEndianSnoc([], a);
    BigEndianSnoc([a], b);
    BigEndianSnoc([a, b], c);
    BigEndianSnoc([a, b, c], d);
    assert [] + [a] == [a] && [a] + [b] == [a, b] && [a, b] + [c] == [a, b, c] && [a, b, c] + [d] == [a, b, c, d];
  }

  lemma U32Of(bytes: seq<u8>)
    requires |bytes| == 4
    ensures BigEndian(bytes) < TWO_32 && U32(BigEndian(bytes)) == bytes
  {
    hide BigEndian;
    var a, b, c, d := bytes[0], bytes[1], bytes[2], bytes[3];
    assert bytes == [a, b, c, d];
    BigEndianFour(a, b, c, d);
    FourBytes(a, b, c, d);
  }

  /** A blob that starts with the name `t`. */
  ghost predicate Starts(blob: seq<u8>, t: seq<u8>) {
    && t != [] && |t| < TWO_32 && IsUtf8(AsText(t))
    && U32(|t|) + t <= blob
  }

  /** A blob is a key exactly when it starts with a name that is text, and is not empty. */
  lemma BlobIs(digest: Digest, blob: seq<u8>)
    ensures FromBlob(digest, blob).Some? <==> exists t :: Starts(blob, t)
  {
    hide IsUtf8, U32, BigEndian;
    if FromBlob(digest, blob).Some? {
      var len := BigEndian(blob[..4]);
      var t := blob[4..4 + len];
      U32Of(blob[..4]);
      assert U32(|t|) + t == blob[..4 + len];
      assert Starts(blob, t);
    }
    if t :| Starts(blob, t) {
      KeyOfBlob(digest, blob, t);
    }
  }

  /** The key it is: that name, the blob in base64, and the unpadded base64 of its digest. */
  lemma KeyOfBlob(digest: Digest, blob: seq<u8>, t: seq<u8>)
    requires Starts(blob, t)
    ensures FromBlob(digest, blob).Some?
    ensures var key := FromBlob(digest, blob).value;
      && key.keyType == AsText(t)
      && Base64.DecodeStrict(key.keyBase64) == Some(blob) && |key.keyBase64| % 4 == 0
      && "SHA256:" <= key.fingerprint && '=' !in key.fingerprint[7..]
      && Base64.DecodeTolerant(key.fingerprint[7..]) == Some(digest(blob))
  {
    hide IsUtf8, U32, BigEndian, Base64.Encode, Base64.DecodeStrict, Base64.DecodeTolerant;
    U32Reads(|t|);
    assert |U32(|t|)| == 4 by { U32Size(|t|); }
    assert blob[..4] == U32(|t|) && blob[4..4 + |t|] == t;
    Base64.RoundTrip(blob, true);
    Base64.EncodeLength(blob, true);
    var f := Base64.Encode(digest(blob), false);
    Base64.RoundTrip(digest(blob), false);
    Base64.EncodeLength(digest(blob), false);
    assert ("SHA256:" + f)[7..] == f;
  }

  lemma U32Size(n: nat)
    ensures |U32(n)| == 4
  {
  }

  function FromLineFields(digest: Digest, keyType: string, b64: string): Option<HostKey> {
    match Base64.DecodeStrict(b64)
    case None => None
    case Some(blob) =>
      match FromBlob(digest, blob)
      case None => None
      case Some(key) => if key.keyType == keyType then Some(key) else None
  }

  lemma FieldsReadBack(digest: Digest, blob: seq<u8>)
    requires FromBlob(digest, blob).Some?
    ensures var key := FromBlob(digest, blob).value;
      && FromLineFields(digest, key.keyType, key.keyBase64) == Some(key)
      && key.keyBase64 != ""
  {
    Base64.RoundTrip(blob, true);
    Base64.EncodeShape(blob, true);
  }

  // --- reading the file ----------------------------------------------------------

  function Named(hosts: seq<string>, key: HostKey): seq<KnownHost> {
    if hosts == [] then []
    else (if hosts[0] == "" || hosts[0][0] == '|' then [] else [KnownHost(Lower(hosts[0]), key)]) + Named(hosts[1..], key)
  }

  /** Comments, markers, hashed hosts and malformed lines give nothing. */
  function LineHosts(digest: Digest, line: string): seq<KnownHost> {
    var t := Trim(line);
    var fields := Words(t);
    if t == "" || t[0] == '#' || t[0] == '@' || |fields| < 3 then []
    else match FromLineFields(digest, fields[1], fields[2])
      case None => []
      case Some(key) => Named(Split(fields[0], ','), key)
  }

  function Hosts(digest: Digest, lines: seq<string>): seq<KnownHost> {
    if lines == [] then [] else LineHosts(digest, lines[0]) + Hosts(digest, lines[1..])
  }

  function List(digest: Digest, text: string): seq<KnownHost> {
    Hosts(digest, StrLines(text))
  }

  /** `known_hosts_list`. */
  method KnownHostsList(digest: Digest, text: string) returns (out: seq<KnownHost>)
    ensures out == List(digest, text)
  {
    hide Words, Trim, FromLineFields, Split, Named, Hosts, StrLines;
    out := [];
    var rest := StrLines(text);
    while rest != []
      invariant List(digest, text) == out + Hosts(digest, rest)
      decreases |rest|
    {
      hide List;
      var t := Trim(rest[0]);
      var fields := Words(t);
      ghost var before := out;
      if t != "" && t[0] != '#' && t[0] != '@' && |fields| >= 3 {
        var key := FromLineFields(digest, fields[1], fields[2]);
        if key.Some? {
          out := PushNames(out, Split(fields[0], ','), key.value);
        }
      }
      assert out == before + LineHosts(digest, rest[0]);
      HostsStep(digest, before, rest);
      rest := rest[1..];
    }
    assert Hosts(digest, []) == [] by { NoHosts(digest); }
  }

  lemma NoHosts(digest: Digest)
    ensures Hosts(digest, []) == []
  {
  }

  lemma HostsStep(digest: Digest, out: seq<KnownHost>, lines: seq<string>)
    requires lines != []
    ensures out + Hosts(digest, lines) == out + LineHosts(digest, lines[0]) + Hosts(digest, lines[1..])
  {
    hide LineHosts;
  }

  method PushNames(out: seq<KnownHost>, hosts: seq<string>, key: HostKey) returns (r: seq<KnownHost>)
    ensures r == out + Named(hosts, key)
  {
    hide Lower;
    r := out;
    var names := hosts;
    while names != []
      invariant out + Named(hosts, key) == r + Named(names, key)
      decreases |names|
    {
      if names[0] != "" && names[0][0] != '|' {
        r := r + [KnownHost(Lower(names[0]), key)];
      }
      names := names[1..];
    }
  }

  predicate Pinned(k: KnownHost, host: string, keyType: string) {
    k.host == host && k.key.keyType == keyType
  }

  function PinnedOf(ks: seq<KnownHost>, host: string, keyType: string): seq<KnownHost> {
    if ks == [] then []
    else (if Pinned(ks[0], host, keyType) then [ks[0]] else []) + PinnedOf(ks[1..], host, keyType)
  }

  /** `known_hosts_check`. */
  function Check(digest: Digest, text: string, hostName: string, presented: HostKey): HostCheck {
    var pinned := PinnedOf(List(digest, text), Lower(hostName), presented.keyType);
    if pinned == [] then Unknown
    else if exists i :: 0 <= i < |pinned| && pinned[i].key.keyBase64 == presented.keyBase64 then Trusted
    else Changed(pinned[0].key.fingerprint)
  }

  // --- editing the file ----------------------------------------------------------

  function Kept(names: seq<string>, keyType: string, drop: (string, string) -> bool): seq<string> {
    if names == [] then []
    else (if drop(Lower(names[0]), keyType) then [] else [names[0]]) + Kept(names[1..], keyType, drop)
  }

  /** What one line becomes: gone, kept as it is, or without the dropped names. */
  function LineKept(line: string, drop: (string, string) -> bool): string {
    var t := Trim(line);
    var fields := Words(t);
    if (t != "" && (t[0] == '#' || t[0] == '@')) || |fields| < 2 then
      if line == "" then "" else line + "\n"
    else
      var names := Split(fields[0], ',');
      var kept := Kept(names, fields[1], drop);
      if |kept| == |names| then line + "\n"
      else if kept == [] then ""
      else Join(kept, ',') + " " + Join(fields[1..], ' ') + "\n"
  }

  function LinesKept(lines: seq<string>, drop: (string, string) -> bool): string {
    if lines == [] then "" else LineKept(lines[0], drop) + LinesKept(lines[1..], drop)
  }

  function Remove(text: string, drop: (string, string) -> bool): string {
    LinesKept(StrLines(text), drop)
  }

  /** `remove_lines`. */
  method RemoveLines(text: string, drop: (string, string) -> bool) returns (out: string)
    ensures out == Remove(text, drop)
  {
    hide LineKept;
    out := "";
    var rest := StrLines(text);
    while rest != []
      invariant Remove(text, drop) == out + LinesKept(rest, drop)
      decreases |rest|
    {
      var piece := KeepLine(rest[0], drop);
      out := out + piece;
      rest := rest[1..];
    }
  }

  method KeepLine(line: string, drop: (string, string) -> bool) returns (piece: string)
    ensures piece == LineKept(line, drop)
  {
    hide Words, Trim, Split, Kept, Join;
    var t := Trim(line);
    var fields := Words(t);
    if (t != "" && (t[0] == '#' || t[0] == '@')) || |fields| < 2 {
      return if line == "" then "" else line + "\n";
    }
    var names := Split(fields[0], ',');
    var kept := KeepNames(names, fields[1], drop);
    if |kept| == |names| {
      return line + "\n";
    } else if kept != [] {
      return Join(kept, ',') + " " + Join(fields[1..], ' ') + "\n";
    } else {
      return "";
    }
  }

  method KeepNames(names: seq<string>, keyType: string, drop: (string, string) -> bool) returns (kept: seq<string>)
    ensures kept == Kept(names, keyType, drop)
  {
    hide Lower;
    kept := [];
    var rest := names;
    while rest != []
      invariant Kept(names, keyType, drop) == kept + Kept(rest, keyType, drop)
      decreases |rest|
    {
      if !drop(Lower(rest[0]), keyType) {
        kept := kept + [rest[0]];
      }
      rest := rest[1..];
    }
  }

  function KeyLine(host: string, key: HostKey): string {
    host + " " + key.keyType + " " + key.keyBase64
  }

  function AddText(text: string, hostName: string, key: HostKey): string {
    var host := Lower(hostName);
    var out := Remove(text, (h, t) => h == host && t == key.keyType);
    out + (if out != "" && out[|out| - 1] != '\n' then "\n" else "") + KeyLine(host, key) + "\n"
  }

  function ForgetText(text: string, hostName: string): string {
    var host := Lower(hostName);
    Remove(text, (h, t) => h == host)
  }

  method KnownHostsAdd(text: string, hostName: string, key: HostKey) returns (out: string)
    ensures out == AddText(text, hostName, key)
  {
    hide Lower, Remove;
    var host := Lower(hostName);
    out := RemoveLines(text, (h, t) => h == host && t == key.keyType);
    if out != "" && out[|out| - 1] != '\n' {
      out := out + "\n";
    }
    LineIs(out, host, key);
    out := out + host + " " + key.keyType + " " + key.keyBase64 + "\n";
  }

  lemma LineIs(out: string, host: string, key: HostKey)
    ensures out + host + " " + key.keyType + " " + key.keyBase64 + "\n" == out + KeyLine(host, key) + "\n"
  {
  }

  method KnownHostsRemove(text: string, hostName: string) returns (out: string)
    ensures out == ForgetText(text, hostName)
  {
    hide Lower, Remove;
    var host := Lower(hostName);
    out := RemoveLines(text, (h, t) => h == host);
  }

  // --- what an edit does to the list -----------------------------------------------

  function Without(es: seq<KnownHost>, drop: (string, string) -> bool): seq<KnownHost> {
    if es == [] then []
    else (if drop(es[0].host, es[0].key.keyType) then [] else [es[0]]) + Without(es[1..], drop)
  }

  /** A line `remove_lines` looks into: no comment, no marker, two fields at least. */
  predicate Inspected(line: string) {
    var t := Trim(line);
    !(t != "" && (t[0] == '#' || t[0] == '@')) && |Words(t)| >= 2
  }

  function NamesIn(line: string): seq<string>
    requires Inspected(line)
  {
    Split(Words(Trim(line))[0], ',')
  }

  function KeptIn(line: string, drop: (string, string) -> bool): seq<string>
    requires Inspected(line)
  {
    Kept(NamesIn(line), Words(Trim(line))[1], drop)
  }

  /** What follows the names. */
  function TailOf(line: string): seq<string>
    requires Inspected(line)
  {
    Words(Trim(line))[1..]
  }

  /** Some names go and some stay. */
  predicate Narrowed(line: string, drop: (string, string) -> bool) {
    Inspected(line) && KeptIn(line, drop) != [] && |KeptIn(line, drop)| < |NamesIn(line)|
  }

  /** The lines a line becomes: none or one. */
  function KeptLines(line: string, drop: (string, string) -> bool): seq<string> {
    if !Inspected(line) then (if line == "" then [] else [line])
    else if |KeptIn(line, drop)| == |NamesIn(line)| then [line]
    else if KeptIn(line, drop) == [] then []
    else [Join(KeptIn(line, drop), ',') + " " + Join(TailOf(line), ' ')]
  }

  /** The first name left would be read as the start of a comment or a marker: the line is
      understood now and will not be. */
  predicate Hides(digest: Digest, line: string, drop: (string, string) -> bool) {
    && LineHosts(digest, line) != [] && Narrowed(line, drop)
    && KeptIn(line, drop)[0] != "" && (KeptIn(line, drop)[0][0] == '#' || KeptIn(line, drop)[0][0] == '@')
  }

  /** The only name left is empty, and what follows it reads as a pin of its own. */
  predicate Gains(digest: Digest, line: string, drop: (string, string) -> bool) {
    Narrowed(line, drop) && KeptIn(line, drop) == [""] && LineHosts(digest, Join(TailOf(line), ' ')) != []
  }

  lemma LineKeptIs(line: string, drop: (string, string) -> bool)
    ensures LineKept(line, drop) == Before(KeptLines(line, drop), '\n')
  {
    hide Words, Trim, Split, Join, Kept;
    var ls := KeptLines(line, drop);
    if ls != [] {
      BeforeCons(ls[0], [], '\n');
      assert ls == [ls[0]] + [];
    }
  }

  lemma {:induction false} BeforeConcat(a: seq<string>, b: seq<string>, c: char)
    ensures Before(a + b, c) == Before(a, c) + Before(b, c)
  {
    hide Before;
    if a == [] {
      assert a + b == b;
      assert Before([], c) == "" by { NothingBefore(c); }
    } else {
      BeforeConcat(a[1..], b, c);
      BeforeCons(a[0], a[1..], c);
      BeforeCons(a[0], a[1..] + b, c);
      assert [a[0]] + a[1..] == a && [a[0]] + (a[1..] + b) == a + b;
    }
  }

  lemma NothingBefore(c: char)
    ensures Before([], c) == ""
  {
  }

  function AllKept(lines: seq<string>, drop: (string, string) -> bool): seq<string> {
    if lines == [] then [] else KeptLines(lines[0], drop) + AllKept(lines[1..], drop)
  }

  lemma {:induction false} LinesKeptIs(lines: seq<string>, drop: (string, string) -> bool)
    ensures LinesKept(lines, drop) == Before(AllKept(lines, drop), '\n')
  {
    hide LineKept, KeptLines;
    if lines != [] {
      LineKeptIs(lines[0], drop);
      LinesKeptIs(lines[1..], drop);
      BeforeConcat(KeptLines(lines[0], drop), AllKept(lines[1..], drop), '\n');
    }
  }

  lemma {:induction false} StrLinesLack(ls: seq<string>)
    requires Lacks(ls, '\n')
    ensures Lacks(LinesFrom(ls), '\n')
  {
    if |ls| > 1 {
      StrLinesLack(ls[1..]);
    }
  }

  lemma KeptLinesLack(line: string, drop: (string, string) -> bool)
    requires '\n' !in line
    ensures Lacks(KeptLines(line, drop), '\n')
  {
    hide Words, Trim, Split, Join, Kept, Lower;
    if Inspected(line) { KeptAre(NamesIn(line), Words(Trim(line))[1], drop); }
    if Narrowed(line, drop) {
      var fs := Words(Trim(line));
      WordsSolid(Trim(line));
      assert forall k :: 0 <= k < |fs| ==> '\n' !in fs[k] by {
        forall k | 0 <= k < |fs| ensures '\n' !in fs[k] { SolidClean(fs[k]); }
      }
      JoinLacks(KeptIn(line, drop), ',', '\n') by { KeptLacks(line, drop, '\n'); }
      JoinLacks(TailOf(line), ' ', '\n');
    }
  }

  lemma {:induction false} JoinLacks(ls: seq<string>, c: char, x: char)
    requires Lacks(ls, x) && c != x
    ensures x !in Join(ls, c)
  {
    if |ls| > 1 {
      JoinLacks(ls[1..], c, x);
    }
  }

  lemma {:induction false} KeptAre(names: seq<string>, keyType: string, drop: (string, string) -> bool)
    ensures |Kept(names, keyType, drop)| <= |names|
    ensures |Kept(names, keyType, drop)| == |names| ==> Kept(names, keyType, drop) == names
    ensures forall n :: n in Kept(names, keyType, drop) ==> n in names
  {
    hide Lower;
    if names != [] {
      KeptAre(names[1..], keyType, drop);
      assert names == [names[0]] + names[1..];
    }
  }

  /** Characters of a name are characters of the first field. */
  lemma KeptLacks(line: string, drop: (string, string) -> bool, x: char)
    requires Inspected(line) && x !in Words(Trim(line))[0]
    ensures Lacks(KeptIn(line, drop), x)
  {
    hide Words, Trim, Kept, Lower;
    KeptAre(NamesIn(line), Words(Trim(line))[1], drop);
    SplitPieces(Words(Trim(line))[0], ',', x);
    var kept := KeptIn(line, drop);
    forall k | 0 <= k < |kept|
      ensures x !in kept[k]
    {
      assert kept[k] in NamesIn(line);
    }
  }

  lemma {:induction false} SplitPieces(s: string, c: char, x: char)
    requires x !in s
    ensures Lacks(Split(s, c), x)
    decreases |s|
  {
    var i := IndexOf(s, c);
    if i < |s| {
      SplitPieces(s[i + 1..], c, x);
    }
  }

  /** Names cut out of a word and joined by commas again make a word. */
  lemma {:induction false} PiecesSolid(s: string)
    requires forall i :: 0 <= i < |s| ==> SpaceAt(s[i..]) == 0
    ensures forall n :: n in Split(s, ',') ==> forall i :: 0 <= i < |n| ==> SpaceAt(n[i..]) == 0
    decreases |s|
  {
    hide SpaceAt;
    var i := IndexOf(s, ',');
    if i < |s| {
      var b := s[i + 1..];
      forall k | 0 <= k < |b|
        ensures SpaceAt(b[k..]) == 0
      {
        assert b[k..] == s[i + 1 + k..];
      }
      PiecesSolid(b);
      forall k | 0 <= k < i
        ensures SpaceAt(s[..i][k..]) == 0
      {
        assert s[k..] == s[..i][k..] + s[i..];
        PrefixSpace(s[..i][k..], s[i..]);
      }
      SplitStep(s, ',', i);
    } else {
      SplitStep(s, ',', i);
    }
  }

  lemma {:induction false} CommaJoined(ns: seq<string>)
    requires forall k :: 0 <= k < |ns| ==> forall i :: 0 <= i < |ns[k]| ==> SpaceAt(ns[k][i..]) == 0
    ensures forall i :: 0 <= i < |Join(ns, ',')| ==> SpaceAt(Join(ns, ',')[i..]) == 0
  {
    hide SpaceAt;
    if |ns| > 1 {
      var a, b := ns[0], Join(ns[1..], ',');
      CommaJoined(ns[1..]);
      var s := Join(ns, ',');
      assert s == a + [','] + b;
      forall i | 0 <= i < |s|
        ensures SpaceAt(s[i..]) == 0
      {
        if i < |a| {
          assert s[i..] == a[i..] + ([','] + b);
          CommaAfter(a[i..], b);
        } else if i == |a| {
          assert s[i..] == "" + ([','] + b);
          CommaAfter("", b);
        } else {
          assert s[i..] == b[i - |a| - 1..];
        }
      }
    }
  }

  lemma CommaAfter(a: string, b: string)
    requires SpaceAt(a) == 0
    ensures SpaceAt(a + ([','] + b)) == 0
  {
  }

  /** The fields of a narrowed line: its names joined again, then what followed them. */
  lemma NarrowedReads(line: string, drop: (string, string) -> bool)
    requires Narrowed(line, drop) && Join(KeptIn(line, drop), ',') != ""
    ensures var x := Join(KeptIn(line, drop), ',') + " " + Join(TailOf(line), ' ');
      && Trim(x) == x && x != "" && x[0] == Join(KeptIn(line, drop), ',')[0]
      && Words(x) == [Join(KeptIn(line, drop), ',')] + TailOf(line)
      && Split(Join(KeptIn(line, drop), ','), ',') == KeptIn(line, drop)
  {
    hide Words, Trim, Split, Kept, Lower, SpaceAt, SpaceEnd;
    var fs, kept := Words(Trim(line)), KeptIn(line, drop);
    WordsSolid(Trim(line));
    PiecesSolid(fs[0]);
    KeptAre(NamesIn(line), fs[1], drop);
    SplitLacks(fs[0], ',');
    forall k | 0 <= k < |kept|
      ensures ',' !in kept[k] && forall i :: 0 <= i < |kept[k]| ==> SpaceAt(kept[k][i..]) == 0
    {
      assert kept[k] in NamesIn(line);
    }
    CommaJoined(kept);
    SplitJoin(kept, ',');
    var ws := [Join(kept, ',')] + TailOf(line);
    JoinedWords(ws);
    JoinCons(Join(kept, ','), TailOf(line), ' ');
    TrimmedStays(Join(ws, ' '));
  }

  /** The tail of a line is trimmed; a space before it is not read. */
  lemma TailReads(digest: Digest, line: string)
    requires Inspected(line)
    ensures LineHosts(digest, "" + " " + Join(TailOf(line), ' ')) == LineHosts(digest, Join(TailOf(line), ' '))
  {
    hide Words, FromLineFields, Named, Split;
    var t := Join(TailOf(line), ' ');
    WordsSolid(Trim(line));
    JoinedWords(TailOf(line));
    SpaceBefore(t);
    assert "" + " " + t == " " + t;
  }

  lemma SpaceBefore(t: string)
    ensures Trim(" " + t) == Trim(t)
  {
    hide TrimEnd;
    assert (" " + t)[1..] == t;
  }

  // --- names and pins ------------------------------------------------------------------

  lemma {:induction false} NamedWithout(names: seq<string>, key: HostKey, drop: (string, string) -> bool)
    ensures Without(Named(names, key), drop) == Named(Kept(names, key.keyType, drop), key)
  {
    hide Lower, Named, Kept, Without;
    if names == [] {
      NothingNamed(key);
      NoneKept(key.keyType, drop);
    } else {
      var n, rest := names[0], names[1..];
      NamedWithout(rest, key, drop);
      assert names == [n] + rest;
      NamedCons(n, rest, key);
      KeptCons(n, rest, key.keyType, drop);
      NamedCons(n, Kept(rest, key.keyType, drop), key);
      WithoutCons(KnownHost(Lower(n), key), Named(rest, key), drop);
    }
  }

  lemma NoneKept(keyType: string, drop: (string, string) -> bool)
    ensures Kept([], keyType, drop) == [] && Without([], drop) == []
  {
  }

  lemma NamedCons(n: string, rest: seq<string>, key: HostKey)
    ensures Named([n] + rest, key) ==
            if n == "" || n[0] == '|' then Named(rest, key) else [KnownHost(Lower(n), key)] + Named(rest, key)
  {
    hide Lower;
    assert ([n] + rest)[1..] == rest;
  }

  lemma KeptCons(n: string, rest: seq<string>, keyType: string, drop: (string, string) -> bool)
    ensures Kept([n] + rest, keyType, drop) ==
            if drop(Lower(n), keyType) then Kept(rest, keyType, drop) else [n] + Kept(rest, keyType, drop)
  {
    hide Lower;
    assert ([n] + rest)[1..] == rest;
  }

  lemma WithoutCons(e: KnownHost, rest: seq<KnownHost>, drop: (string, string) -> bool)
    ensures Without([e] + rest, drop) ==
            if drop(e.host, e.key.keyType) then Without(rest, drop) else [e] + Without(rest, drop)
  {
    assert ([e] + rest)[1..] == rest;
  }

  /** A line as it is understood: its key, or nothing. */
  lemma Understood(digest: Digest, line: string)
    ensures LineHosts(digest, line) != [] ==> Inspected(line) && |Words(Trim(line))| >= 3
    ensures Inspected(line) && |Words(Trim(line))| >= 3 ==>
      var fs := Words(Trim(line)); var key := FromLineFields(digest, fs[1], fs[2]);
      && LineHosts(digest, line) == (if key.None? then [] else Named(NamesIn(line), key.value))
      && (key.Some? ==> key.value.keyType == fs[1])
  {
    hide Words, Trim, Named, Split, FromBlob, Base64.DecodeStrict;
    assert Words("") == [] by { NoWords(); }
  }

  /** What an edited line lists is what dropping its pins leaves: short of it where it hides,
      beyond it where it gains. */
  ghost predicate EditReads(digest: Digest, line: string, drop: (string, string) -> bool) {
    var after, wanted := Hosts(digest, KeptLines(line, drop)), Without(LineHosts(digest, line), drop);
    && (after == wanted <==> !Hides(digest, line, drop) && !Gains(digest, line, drop))
    && (Hides(digest, line, drop) ==> after == [] != wanted)
    && (Gains(digest, line, drop) ==> after != [] == wanted)
  }

  /** Any line's edit does to the list what dropping its pins does exactly when it neither hides
      nor gains. */
  lemma LineEdit(digest: Digest, line: string, drop: (string, string) -> bool)
    ensures EditReads(digest, line, drop)
  {
    hide Words, Trim, Named, Split, Kept, FromLineFields, Lower, LineHosts, Join;
    NoHosts(digest);
    assert Without([], drop) == [];
    Understood(digest, line);
    if !Inspected(line) {
      if line != "" { OneLine(digest, line); }
    } else {
      var fs, names, kept := Words(Trim(line)), NamesIn(line), KeptIn(line, drop);
      KeptAre(names, fs[1], drop);
      if |fs| >= 3 && FromLineFields(digest, fs[1], fs[2]).Some? {
        NamedWithout(names, FromLineFields(digest, fs[1], fs[2]).value, drop);
      }
      if |kept| == |names| {
        OneLine(digest, line);
      } else if kept == [] {
        assert LineHosts(digest, line) == [] || Without(LineHosts(digest, line), drop) == [] by {
          if |fs| >= 3 && FromLineFields(digest, fs[1], fs[2]).Some? { NothingNamed(FromLineFields(digest, fs[1], fs[2]).value); }
        }
      } else {
        NarrowedEdit(digest, line, drop);
      }
    }
  }

  lemma NothingNamed(key: HostKey)
    ensures Named([], key) == []
  {
  }

  lemma OneLine(digest: Digest, line: string)
    ensures Hosts(digest, [line]) == LineHosts(digest, line)
  {
    hide LineHosts;
    assert [line][1..] == [];
    assert LineHosts(digest, line) + [] == LineHosts(digest, line);
  }

  lemma NarrowedEdit(digest: Digest, line: string, drop: (string, string) -> bool)
    requires Narrowed(line, drop)
    ensures EditReads(digest, line, drop)
  {
    hide Words, Trim, Named, Split, Kept, FromLineFields, Lower, LineHosts, Join;
    var fs, kept := Words(Trim(line)), KeptIn(line, drop);
    var x := Join(kept, ',') + " " + Join(TailOf(line), ' ');
    OneLine(digest, x);
    assert KeptLines(line, drop) == [x];
    Understood(digest, line);
    assert Without([], drop) == [];
    if |fs| >= 3 && FromLineFields(digest, fs[1], fs[2]).Some? {
      NamedWithout(NamesIn(line), FromLineFields(digest, fs[1], fs[2]).value, drop);
    }
    if kept == [""] {
      assert Join(kept, ',') == "" by { JoinOne(kept); }
      TailReads(digest, line);
      if |fs| >= 3 && FromLineFields(digest, fs[1], fs[2]).Some? {
        EmptyNamed(FromLineFields(digest, fs[1], fs[2]).value);
      }
    } else {
      JoinStart(kept);
      NarrowedReads(line, drop);
      NarrowedHosts(digest, line, drop);
      if Hides(digest, line, drop) {
        FirstNamed(kept, FromLineFields(digest, fs[1], fs[2]).value);
      }
    }
  }

  lemma JoinOne(ls: seq<string>)
    requires |ls| == 1
    ensures Join(ls, ',') == ls[0]
  {
  }

  lemma EmptyNamed(key: HostKey)
    ensures Named([""], key) == []
  {
    assert [""][1..] == [];
  }

  lemma FirstNamed(names: seq<string>, key: HostKey)
    requires names != [] && names[0] != "" && names[0][0] != '|'
    ensures Named(names, key) != []
  {
    hide Lower;
  }

  lemma JoinStart(ls: seq<string>)
    requires ls != [] && ls != [""]
    ensures Join(ls, ',') != "" && Join(ls, ',')[0] == if ls[0] == "" then ',' else ls[0][0]
  {
    if |ls| == 1 {
      assert ls == [ls[0]];
    }
  }

  /** What the narrowed line lists. */
  lemma NarrowedHosts(digest: Digest, line: string, drop: (string, string) -> bool)
    requires Narrowed(line, drop) && KeptIn(line, drop) != [""]
    ensures var fs, kept := Words(Trim(line)), KeptIn(line, drop);
      var x := Join(kept, ',') + " " + Join(TailOf(line), ' ');
      LineHosts(digest, x) ==
        if |fs| < 3 || FromLineFields(digest, fs[1], fs[2]).None? then []
        else if kept[0] != "" && (kept[0][0] == '#' || kept[0][0] == '@') then []
        else Named(kept, FromLineFields(digest, fs[1], fs[2]).value)
  {
    hide Words, Trim, Named, Split, Kept, FromLineFields, Lower, Join;
    JoinStart(KeptIn(line, drop));
    NarrowedReads(line, drop);
  }

  // --- a whole file --------------------------------------------------------------------

  lemma {:induction false} HostsConcat(digest: Digest, a: seq<string>, b: seq<string>)
    ensures Hosts(digest, a + b) == Hosts(digest, a) + Hosts(digest, b)
  {
    hide LineHosts, Hosts;
    if a == [] {
      assert a + b == b;
      NoHosts(digest);
    } else {
      HostsConcat(digest, a[1..], b);
      HostsCons(digest, a[0], a[1..]);
      HostsCons(digest, a[0], a[1..] + b);
      assert [a[0]] + a[1..] == a && [a[0]] + (a[1..] + b) == a + b;
    }
  }

  lemma HostsCons(digest: Digest, line: string, rest: seq<string>)
    ensures Hosts(digest, [line] + rest) == LineHosts(digest, line) + Hosts(digest, rest)
  {
    hide LineHosts;
    assert ([line] + rest)[1..] == rest;
  }

  lemma {:induction false} WithoutConcat(a: seq<KnownHost>, b: seq<KnownHost>, drop: (string, string) -> bool)
    ensures Without(a + b, drop) == Without(a, drop) + Without(b, drop)
  {
    hide Without;
    if a == [] {
      assert a + b == b;
      NoneKept("", drop);
    } else {
      WithoutConcat(a[1..], b, drop);
      WithoutCons(a[0], a[1..], drop);
      WithoutCons(a[0], a[1..] + b, drop);
      assert [a[0]] + a[1..] == a && [a[0]] + (a[1..] + b) == a + b;
    }
  }

  /** A `\r` before the newline makes no difference to what a line lists. */
  lemma {:induction false} StrippedHosts(digest: Digest, ls: seq<string>)
    ensures Hosts(digest, Stripped(ls)) == Hosts(digest, ls)
  {
    hide Trim, Words, StripCr;
    if ls != [] {
      StrippedHosts(digest, ls[1..]);
      TrimStripCr(ls[0]);
      assert Stripped(ls) == [StripCr(ls[0])] + Stripped(ls[1..]);
      assert ([StripCr(ls[0])] + Stripped(ls[1..]))[1..] == Stripped(ls[1..]);
      SameTrim(digest, StripCr(ls[0]), ls[0]);
    }
  }

  lemma SameTrim(digest: Digest, a: string, b: string)
    requires Trim(a) == Trim(b)
    ensures LineHosts(digest, a) == LineHosts(digest, b)
  {
    hide Trim, Words;
  }

  lemma {:induction false} AllKeptLack(lines: seq<string>, drop: (string, string) -> bool)
    requires Lacks(lines, '\n')
    ensures Lacks(AllKept(lines, drop), '\n')
  {
    hide KeptLines;
    if lines != [] {
      KeptLinesLack(lines[0], drop);
      AllKeptLack(lines[1..], drop);
    }
  }

  /** The lines of an edited file, as they are read again. */
  lemma RemoveLinesAre(digest: Digest, text: string, drop: (string, string) -> bool)
    ensures Lacks(AllKept(StrLines(text), drop), '\n')
    ensures Remove(text, drop) == Before(AllKept(StrLines(text), drop), '\n')
    ensures StrLines(Remove(text, drop)) == Stripped(AllKept(StrLines(text), drop))
    ensures List(digest, Remove(text, drop)) == Hosts(digest, AllKept(StrLines(text), drop))
  {
    hide LineHosts, KeptLines, LineKept, LinesFrom, Split;
    SplitLacks(text, '\n');
    StrLinesLack(Split(text, '\n'));
    AllKeptLack(StrLines(text), drop);
    LinesKeptIs(StrLines(text), drop);
    StrLinesWritten(AllKept(StrLines(text), drop));
    StrippedHosts(digest, AllKept(StrLines(text), drop));
  }

  ghost predicate NoneGains(digest: Digest, lines: seq<string>, drop: (string, string) -> bool) {
    forall i :: 0 <= i < |lines| ==> !Gains(digest, lines[i], drop)
  }

  ghost predicate NoneHides(digest: Digest, lines: seq<string>, drop: (string, string) -> bool) {
    forall i :: 0 <= i < |lines| ==> !Hides(digest, lines[i], drop)
  }

  /** Where no line gains, hiding shortens the list; where none hides, gaining lengthens it. */
  lemma {:induction false} LinesEdit(digest: Digest, lines: seq<string>, drop: (string, string) -> bool)
    ensures var a, b := Hosts(digest, AllKept(lines, drop)), Without(Hosts(digest, lines), drop);
      var gains, hides := !NoneGains(digest, lines, drop), !NoneHides(digest, lines, drop);
      && (!gains && !hides ==> a == b)
      && (!gains && hides ==> |a| < |b|)
      && (gains && !hides ==> |a| > |b|)
  {
    hide LineHosts, KeptLines, Hides, Gains;
    if lines == [] {
      NoHosts(digest);
    } else {
      var line, rest := lines[0], lines[1..];
      LineEdit(digest, line, drop);
      LinesEdit(digest, rest, drop);
      HostsConcat(digest, KeptLines(line, drop), AllKept(rest, drop));
      WithoutConcat(LineHosts(digest, line), Hosts(digest, rest), drop);
      NoneCons(digest, lines, drop);
    }
  }

  lemma NoneCons(digest: Digest, lines: seq<string>, drop: (string, string) -> bool)
    requires lines != []
    ensures NoneHides(digest, lines, drop) <==> !Hides(digest, lines[0], drop) && NoneHides(digest, lines[1..], drop)
    ensures NoneGains(digest, lines, drop) <==> !Gains(digest, lines[0], drop) && NoneGains(digest, lines[1..], drop)
  {
    hide Hides, Gains;
    assert forall i :: 1 <= i < |lines| ==> lines[i] == lines[1..][i - 1];
  }

  /** On any file whatever, removing drops exactly the wanted pins, in place and in order, where
      no line hides or gains one. Either alone breaks it: lines that hide leave too few pins,
      lines that gain too many. */
  lemma RemoveReads(digest: Digest, text: string, drop: (string, string) -> bool)
    ensures var after, wanted := List(digest, Remove(text, drop)), Without(List(digest, text), drop);
      var hides, gains := !NoneHides(digest, StrLines(text), drop), !NoneGains(digest, StrLines(text), drop);
      && (!gains ==> (after == wanted <==> !hides))
      && (!hides ==> (after == wanted <==> !gains))
      && (hides && !gains ==> |after| < |wanted|)
      && (gains && !hides ==> |after| > |wanted|)
  {
    hide LineHosts, StrLines, NoneHides, NoneGains, AllKept, Remove, Hosts;
    RemoveLinesAre(digest, text, drop);
    LinesEdit(digest, StrLines(text), drop);
  }

  // --- keys and hosts as a transport presents them --------------------------------------

  /** A host name as a transport presents it. */
  ghost predicate GoodHost(h: string) {
    && Solid(h) && ',' !in h && h[0] != '#' && h[0] != '@' && h[0] != '|'
  }

  /** A key as the transport presents it, its type a single word. */
  ghost predicate GoodKey(digest: Digest, key: HostKey) {
    Solid(key.keyType) && exists blob: seq<u8> :: FromBlob(digest, blob) == Some(key)
  }

  lemma KeyFacts(digest: Digest, key: HostKey)
    requires GoodKey(digest, key)
    ensures Solid(key.keyBase64) && FromLineFields(digest, key.keyType, key.keyBase64) == Some(key)
  {
    hide FromLineFields, Base64.Encode, Base64.DecodeStrict;
    var blob: seq<u8> :| FromBlob(digest, blob) == Some(key);
    FieldsReadBack(digest, blob);
    Base64.EncodeShape(blob, true);
    PlainSolid(key.keyBase64);
  }

  lemma PlainSolid(s: string)
    requires s != "" && forall k :: 0 <= k < |s| ==> '+' <= s[k] <= 'z'
    ensures Solid(s)
  {
    forall i | 0 <= i < |s|
      ensures SpaceAt(s[i..]) == 0
    {
      assert s[i..][0] == s[i];
    }
  }

  /** A line of names and a key, its fields words. */
  lemma WrittenLine(digest: Digest, names: string, key: HostKey)
    requires Solid(names) && GoodKey(digest, key)
    ensures var x := KeyLine(names, key);
      && '\n' !in x && '\r' !in x && x != "" && x[0] == names[0]
      && Trim(x) == x && Words(x) == [names, key.keyType, key.keyBase64]
  {
    hide Words, Trim, SpaceAt, SpaceEnd, FromLineFields;
    KeyFacts(digest, key);
    var ws := [names, key.keyType, key.keyBase64];
    JoinedWords(ws);
    JoinThree(names, key.keyType, key.keyBase64);
    TrimmedStays(Join(ws, ' '));
    SolidClean(names);
    SolidClean(key.keyType);
    SolidClean(key.keyBase64);
  }

  lemma JoinThree(a: string, b: string, c: string)
    ensures Join([a, b, c], ' ') == a + " " + b + " " + c
  {
    JoinCons(a, [b, c], ' ');
    JoinCons(b, [c], ' ');
    assert [a] + [b, c] == [a, b, c] && [b] + [c] == [b, c];
    assert a + " " + (b + " " + c) == a + " " + b + " " + c;
  }

  /** A written line lists exactly its entry. */
  lemma LineLists(digest: Digest, host: string, key: HostKey)
    requires GoodHost(host) && GoodKey(digest, key)
    ensures LineHosts(digest, KeyLine(host, key)) == [KnownHost(Lower(host), key)]
  {
    hide Words, Trim, Lower, FromLineFields, Named, KeyLine;
    WrittenLine(digest, host, key);
    KeyFacts(digest, key);
    SplitNone(host, ',');
    NamedOne(host, key);
  }

  lemma NamedOne(host: string, key: HostKey)
    requires host != "" && host[0] != '|'
    ensures Named([host], key) == [KnownHost(Lower(host), key)]
  {
    hide Lower;
    assert [host][1..] == [];
  }

  lemma {:induction false} LowerLower(h: string)
    ensures Lower(Lower(h)) == Lower(h)
  {
  }

  lemma LowerGood(h: string)
    requires GoodHost(h)
    ensures GoodHost(Lower(h))
  {
    var l := Lower(h);
    forall i | 0 <= i < |l|
      ensures SpaceAt(l[i..]) == 0
    {
      assert SpaceAt(h[i..]) == 0;
      assert l[i..][0] == ToLower(h[i..][0]);
      assert |l[i..]| > 1 ==> l[i..][1] == ToLower(h[i..][1]);
      assert |l[i..]| > 2 ==> l[i..][2] == ToLower(h[i..][2]);
    }
  }

  function DropOf(hostName: string, keyType: string): (string, string) -> bool {
    var host := Lower(hostName);
    (h, t) => h == host && t == keyType
  }

  lemma RemoveEnds(text: string, drop: (string, string) -> bool)
    ensures var out := Remove(text, drop); out == "" || out[|out| - 1] == '\n'
  {
    hide KeptLines;
    LinesKeptIs(StrLines(text), drop);
    BeforeEnds(AllKept(StrLines(text), drop));
  }

  lemma {:induction false} BeforeEnds(ls: seq<string>)
    ensures Before(ls, '\n') == "" || Before(ls, '\n')[|Before(ls, '\n')| - 1] == '\n'
  {
    if ls != [] {
      BeforeEnds(ls[1..]);
    }
  }

  /** Pinning on any file: what removing leaves, then the new pin. */
  lemma AddReads(digest: Digest, text: string, hostName: string, key: HostKey)
    requires GoodHost(hostName) && GoodKey(digest, key)
    ensures var drop := DropOf(hostName, key.keyType);
      && StrLines(AddText(text, hostName, key)) == StrLines(Remove(text, drop)) + [KeyLine(Lower(hostName), key)]
      && List(digest, AddText(text, hostName, key)) == List(digest, Remove(text, drop)) + [KnownHost(Lower(hostName), key)]
  {
    hide Lower, LineHosts, KeptLines, Hosts, StrLines, AllKept, KeyLine, GoodKey, Remove, AddText, Before, DropOf;
    var host, drop := Lower(hostName), DropOf(hostName, key.keyType);
    var line, ls := KeyLine(host, key), AllKept(StrLines(text), drop);
    LowerGood(hostName);
    LowerLower(hostName);
    WrittenLine(digest, host, key);
    LineLists(digest, host, key);
    RemoveLinesAre(digest, text, drop);
    RemoveEnds(text, drop);
    BeforeSnoc(ls, '\n', line);
    AddIsText(text, hostName, key);
    assert Remove(text, drop) + "" == Remove(text, drop);
    assert AddText(text, hostName, key) == Before(ls + [line], '\n');
    StrLinesWritten(ls + [line]);
    StrippedSnoc(ls, line);
    HostsConcat(digest, StrLines(Remove(text, drop)), [line]);
    OneLine(digest, line);
  }

  lemma AddIsText(text: string, hostName: string, key: HostKey)
    ensures var out := Remove(text, DropOf(hostName, key.keyType));
      AddText(text, hostName, key) ==
      out + (if out != "" && out[|out| - 1] != '\n' then "\n" else "") + KeyLine(Lower(hostName), key) + "\n"
  {
    hide Remove, Lower;
    var host := Lower(hostName);
    SameDrop(text, (h, t) => h == host && t == key.keyType, DropOf(hostName, key.keyType));
  }

  lemma SameDrop(text: string, a: (string, string) -> bool, b: (string, string) -> bool)
    requires forall h, t :: a(h, t) == b(h, t)
    ensures Remove(text, a) == Remove(text, b)
  {
    hide StrLines, LineKept;
    SameDropLines(StrLines(text), a, b);
  }

  lemma {:induction false} SameDropLines(lines: seq<string>, a: (string, string) -> bool, b: (string, string) -> bool)
    requires forall h, t :: a(h, t) == b(h, t)
    ensures LinesKept(lines, a) == LinesKept(lines, b)
  {
    hide Words, Trim, Split, Join, Kept;
    if lines != [] {
      SameDropLines(lines[1..], a, b);
      var fs := Words(Trim(lines[0]));
      if |fs| >= 2 {
        SameKept(Split(fs[0], ','), fs[1], a, b);
      }
    }
  }

  lemma {:induction false} SameKept(names: seq<string>, keyType: string, a: (string, string) -> bool, b: (string, string) -> bool)
    requires forall h, t :: a(h, t) == b(h, t)
    ensures Kept(names, keyType, a) == Kept(names, keyType, b)
  {
    hide Lower;
    if names != [] {
      SameKept(names[1..], keyType, a, b);
    }
  }

  lemma {:induction false} StrippedSnoc(ls: seq<string>, line: string)
    requires '\r' !in line
    ensures Stripped(ls + [line]) == Stripped(ls) + [line]
  {
    if ls == [] {
      assert (ls + [line])[1..] == [];
      assert StripCr(line) == line;
    } else {
      StrippedSnoc(ls[1..], line);
      assert (ls + [line])[1..] == ls[1..] + [line];
    }
  }

  // --- plain files -----------------------------------------------------------------------

  /** A name that stays a name wherever it stands. */
  predicate PlainName(n: string) {
    n != "" && n[0] != '#' && n[0] != '@'
  }

  ghost predicate PlainLine(line: string) {
    Inspected(line) ==> forall k :: 0 <= k < |NamesIn(line)| ==> PlainName(NamesIn(line)[k])
  }

  /** A file in which every name of an inspected line is such a name. */
  ghost predicate PlainFile(text: string) {
    PlainLines(StrLines(text))
  }

  ghost predicate PlainLines(lines: seq<string>) {
    forall i :: 0 <= i < |lines| ==> PlainLine(lines[i])
  }

  lemma PlainEdit(digest: Digest, line: string, drop: (string, string) -> bool)
    requires PlainLine(line)
    ensures !Hides(digest, line, drop) && !Gains(digest, line, drop)
    ensures PlainLines(KeptLines(line, drop))
  {
    hide Words, Trim, Split, Kept, Join, LineHosts;
    if Inspected(line) {
      KeptAre(NamesIn(line), Words(Trim(line))[1], drop);
      var kept := KeptIn(line, drop);
      forall k | 0 <= k < |kept|
        ensures PlainName(kept[k])
      {
        assert kept[k] in NamesIn(line);
      }
      if Narrowed(line, drop) {
        assert PlainName(kept[0]);
        JoinStart(kept);
        NarrowedReads(line, drop);
      }
    }
  }

  lemma {:induction false} PlainLinesKept(lines: seq<string>, drop: (string, string) -> bool)
    requires PlainLines(lines)
    ensures PlainLines(AllKept(lines, drop))
  {
    hide PlainLine, KeptLines;
    if lines != [] {
      PlainEdit(blob => [], lines[0], drop);
      PlainLinesKept(lines[1..], drop);
    }
  }

  lemma {:induction false} PlainStripped(ls: seq<string>)
    requires PlainLines(ls)
    ensures PlainLines(Stripped(ls))
  {
    hide PlainLine, StripCr, Trim;
    if ls != [] {
      PlainStripped(ls[1..]);
      TrimStripCr(ls[0]);
      SamePlain(StripCr(ls[0]), ls[0]);
    }
  }

  lemma SamePlain(a: string, b: string)
    requires Trim(a) == Trim(b)
    ensures PlainLine(a) <==> PlainLine(b)
  {
    hide Trim, Words, Split;
    assert Inspected(a) <==> Inspected(b);
    assert Inspected(a) ==> NamesIn(a) == NamesIn(b);
  }

  lemma PlainRemoves(digest: Digest, text: string, drop: (string, string) -> bool)
    requires PlainFile(text)
    ensures List(digest, Remove(text, drop)) == Without(List(digest, text), drop) && PlainFile(Remove(text, drop))
  {
    hide PlainLine, Hides, Gains, List, Remove, StrLines, AllKept;
    forall i | 0 <= i < |StrLines(text)|
      ensures !Hides(digest, StrLines(text)[i], drop) && !Gains(digest, StrLines(text)[i], drop)
    {
      PlainEdit(digest, StrLines(text)[i], drop);
    }
    RemoveReads(digest, text, drop);
    RemoveLinesAre(digest, text, drop);
    PlainLinesKept(StrLines(text), drop);
    PlainStripped(AllKept(StrLines(text), drop));
  }

  lemma PlainWritten(digest: Digest, host: string, key: HostKey)
    requires GoodHost(host) && GoodKey(digest, key)
    ensures PlainLine(KeyLine(host, key))
  {
    hide Words, Trim, KeyLine;
    WrittenLine(digest, host, key);
    SplitNone(host, ',');
  }

  /** Pinning on a plain file replaces the host's key of that type, wherever it stood, and
      appends the new one. */
  lemma PlainAdds(digest: Digest, text: string, hostName: string, key: HostKey)
    requires PlainFile(text) && GoodHost(hostName) && GoodKey(digest, key)
    ensures List(digest, AddText(text, hostName, key)) ==
            Without(List(digest, text), DropOf(hostName, key.keyType)) + [KnownHost(Lower(hostName), key)]
    ensures PlainFile(AddText(text, hostName, key))
  {
    hide Lower, PlainLine, List, Remove, StrLines, KeyLine, AddText, GoodKey, DropOf;
    var drop := DropOf(hostName, key.keyType);
    LowerGood(hostName);
    PlainRemoves(digest, text, drop);
    AddReads(digest, text, hostName, key);
    PlainWritten(digest, Lower(hostName), key);
  }

  // --- runs against the map -------------------------------------------------------

  datatype Op = Add(host: string, key: HostKey) | Forget(host: string)

  ghost predicate GoodOp(digest: Digest, op: Op) {
    op.Add? ==> GoodHost(op.host) && GoodKey(digest, op.key)
  }

  function Step(text: string, op: Op): string {
    match op case Add(h, k) => AddText(text, h, k) case Forget(h) => ForgetText(text, h)
  }

  function Run(text: string, ops: seq<Op>): string
    decreases |ops|
  {
    if ops == [] then text else Run(Step(text, ops[0]), ops[1..])
  }

  /** The same run on the list of pins. */
  function StepList(es: seq<KnownHost>, op: Op): seq<KnownHost> {
    match op
    case Add(h, k) => Without(es, DropOf(h, k.keyType)) + [KnownHost(Lower(h), k)]
    case Forget(h) => Without(es, (x, t) => x == Lower(h))
  }

  function RunList(es: seq<KnownHost>, ops: seq<Op>): seq<KnownHost>
    decreases |ops|
  {
    if ops == [] then es else RunList(StepList(es, ops[0]), ops[1..])
  }

  lemma StepReads(digest: Digest, text: string, op: Op)
    requires PlainFile(text) && GoodOp(digest, op)
    ensures List(digest, Step(text, op)) == StepList(List(digest, text), op) && PlainFile(Step(text, op))
  {
    hide Lower, PlainFile, List, AddText, DropOf, Without, Remove;
    match op
    case Add(h, k) => PlainAdds(digest, text, h, k);
    case Forget(h) =>
      var host := Lower(h);
      PlainRemoves(digest, text, (x, t) => x == host);
      SameWithout(List(digest, text), (x, t) => x == host, (x, t) => x == Lower(h));
  }

  lemma {:induction false} SameWithout(es: seq<KnownHost>, a: (string, string) -> bool, b: (string, string) -> bool)
    requires forall h, t :: a(h, t) == b(h, t)
    ensures Without(es, a) == Without(es, b)
  {
    if es != [] {
      SameWithout(es[1..], a, b);
    }
  }

  /** From any plain file, written by whom it may be, every run does to the pins what it does
      to a list. */
  lemma {:induction false} RunReads(digest: Digest, text: string, ops: seq<Op>)
    requires PlainFile(text) && forall i :: 0 <= i < |ops| ==> GoodOp(digest, ops[i])
    ensures List(digest, Run(text, ops)) == RunList(List(digest, text), ops) && PlainFile(Run(text, ops))
    decreases |ops|
  {
    hide PlainFile, List, Step, StepList, GoodOp;
    if ops != [] {
      StepReads(digest, text, ops[0]);
      RunReads(digest, Step(text, ops[0]), ops[1..]);
    }
  }

  /** The reference: a map from lower-case host and key type to key. */
  type Pins = map<(string, string), HostKey>

  function StepMap(m: Pins, op: Op): Pins {
    match op
    case Add(h, k) => m[(Lower(h), k.keyType) := k]
    case Forget(h) => map p | p in m && p.0 != Lower(h) :: m[p]
  }

  function RunMap(m: Pins, ops: seq<Op>): Pins
    decreases |ops|
  {
    if ops == [] then m else RunMap(StepMap(m, ops[0]), ops[1..])
  }

  /** The entries are the map: every pin listed once, nothing else listed. */
  ghost predicate Represents(es: seq<KnownHost>, m: Pins) {
    && (forall i :: 0 <= i < |es| ==> PinOf(es[i]) in m && m[PinOf(es[i])] == es[i].key)
    && (forall p :: p in m ==> exists i :: 0 <= i < |es| && PinOf(es[i]) == p)
    && (forall i, j :: 0 <= i < j < |es| ==> PinOf(es[i]) != PinOf(es[j]))
  }

  function PinOf(e: KnownHost): (string, string) {
    (e.host, e.key.keyType)
  }

  /** Filtering keeps exactly the entries not dropped. */
  lemma {:induction false} RepresentsWithout(es: seq<KnownHost>, m: Pins, drop: (string, string) -> bool)
    requires Represents(es, m)
    ensures Represents(Without(es, drop), map p | p in m && !drop(p.0, p.1) :: m[p])
  {
    hide Represents;
    var left := map p | p in m && !drop(p.0, p.1) :: m[p];
    if es == [] {
      NothingPinned(m);
      assert left == map[];
    } else {
      var e, p := es[0], PinOf(es[0]);
      RepresentsTail(es, m);
      RepresentsWithout(es[1..], m - {p}, drop);
      var rest := map q | q in m - {p} && !drop(q.0, q.1) :: (m - {p})[q];
      if drop(p.0, p.1) {
        assert rest == left;
        assert [] + Without(es[1..], drop) == Without(es[1..], drop);
      } else {
        assert left == rest[p := e.key];
        RepresentsCons(e, Without(es[1..], drop), rest);
      }
    }
  }

  lemma NothingPinned(m: Pins)
    requires Represents([], m)
    ensures m == map[] && Represents([], map[])
  {
    assert forall p :: p !in m;
  }

  lemma RepresentsTail(es: seq<KnownHost>, m: Pins)
    requires es != [] && Represents(es, m)
    ensures PinOf(es[0]) in m && m[PinOf(es[0])] == es[0].key
    ensures Represents(es[1..], m - {PinOf(es[0])})
  {
    var rest, m' := es[1..], m - {PinOf(es[0])};
    forall p | p in m'
      ensures exists i :: 0 <= i < |rest| && PinOf(rest[i]) == p
    {
      var i :| 0 <= i < |es| && PinOf(es[i]) == p;
      assert rest[i - 1] == es[i];
    }
    forall i | 0 <= i < |rest|
      ensures PinOf(rest[i]) in m' && m'[PinOf(rest[i])] == rest[i].key
    {
      assert PinOf(es[0]) != PinOf(es[i + 1]);
    }
  }

  lemma RepresentsCons(e: KnownHost, es: seq<KnownHost>, m: Pins)
    requires Represents(es, m) && PinOf(e) !in m
    ensures Represents([e] + es, m[PinOf(e) := e.key])
  {
    var es', m' := [e] + es, m[PinOf(e) := e.key];
    forall p | p in m'
      ensures exists i :: 0 <= i < |es'| && PinOf(es'[i]) == p
    {
      if p == PinOf(e) {
        assert es'[0] == e;
      } else {
        var i :| 0 <= i < |es| && PinOf(es[i]) == p;
        assert es'[i + 1] == es[i];
      }
    }
  }

  lemma RepresentsAdd(es: seq<KnownHost>, m: Pins, e: KnownHost)
    requires Represents(es, m) && PinOf(e) !in m
    ensures Represents(es + [e], m[PinOf(e) := e.key])
  {
    var es' := es + [e];
    var m' := m[PinOf(e) := e.key];
    forall p | p in m'
      ensures exists i :: 0 <= i < |es'| && PinOf(es'[i]) == p
    {
      if p == PinOf(e) {
        assert es'[|es|] == e;
      } else {
        var i :| 0 <= i < |es| && PinOf(es[i]) == p;
        assert es'[i] == es[i];
      }
    }
  }

  lemma StepIs(es: seq<KnownHost>, m: Pins, op: Op)
    requires Represents(es, m)
    ensures Represents(StepList(es, op), StepMap(m, op))
  {
    hide Lower, Represents, Without;
    var host := Lower(op.host);
    match op
    case Add(h, k) =>
      var drop := DropOf(h, k.keyType);
      var left := map p | p in m && !drop(p.0, p.1) :: m[p];
      RepresentsWithout(es, m, drop);
      RepresentsAdd(Without(es, drop), left, KnownHost(host, k));
      assert left[(host, k.keyType) := k] == m[(host, k.keyType) := k];
    case Forget(h) =>
      var drop := (x: string, t: string) => x == Lower(h);
      RepresentsWithout(es, m, drop);
      assert (map p | p in m && !drop(p.0, p.1) :: m[p]) == StepMap(m, op);
  }

  lemma {:induction false} RunIs(es: seq<KnownHost>, m: Pins, ops: seq<Op>)
    requires Represents(es, m)
    ensures Represents(RunList(es, ops), RunMap(m, ops))
    decreases |ops|
  {
    hide Represents, StepList, StepMap;
    if ops != [] {
      StepIs(es, m, ops[0]);
      RunIs(StepList(es, ops[0]), StepMap(m, ops[0]), ops[1..]);
    }
  }

  /** From any plain file that lists a map's pins once each, after any run, the list is
      exactly the map, each pin once. */
  lemma ListIsMap(digest: Digest, text: string, m: Pins, ops: seq<Op>)
    requires PlainFile(text) && Represents(List(digest, text), m)
    requires forall i :: 0 <= i < |ops| ==> GoodOp(digest, ops[i])
    ensures Represents(List(digest, Run(text, ops)), RunMap(m, ops))
  {
    hide GoodOp, PlainFile, Represents, List;
    RunReads(digest, text, ops);
    RunIs(List(digest, text), m, ops);
  }

  /** Such a file: the empty one, for the empty map. */
  lemma EmptyFile(digest: Digest)
    ensures PlainFile("") && Represents(List(digest, ""), map[])
  {
  }

  lemma {:induction false} PinnedIs(es: seq<KnownHost>, m: Pins, host: string, keyType: string)
    requires Represents(es, m)
    ensures PinnedOf(es, host, keyType) ==
      if (host, keyType) in m then [KnownHost(host, m[(host, keyType)])] else []
  {
    if (host, keyType) in m {
      var k :| 0 <= k < |es| && PinOf(es[k]) == (host, keyType);
      PinnedOne(es, k, host, keyType);
      assert es[k] == KnownHost(host, m[(host, keyType)]);
    } else {
      PinnedNone(es, host, keyType);
    }
  }

  lemma {:induction false} PinnedNone(es: seq<KnownHost>, host: string, keyType: string)
    requires forall i :: 0 <= i < |es| ==> PinOf(es[i]) != (host, keyType)
    ensures PinnedOf(es, host, keyType) == []
  {
    if es != [] {
      assert PinOf(es[0]) != (host, keyType);
      PinnedNone(es[1..], host, keyType);
    }
  }

  lemma {:induction false} PinnedOne(es: seq<KnownHost>, k: nat, host: string, keyType: string)
    requires k < |es| && PinOf(es[k]) == (host, keyType)
    requires forall i :: 0 <= i < |es| && i != k ==> PinOf(es[i]) != (host, keyType)
    ensures PinnedOf(es, host, keyType) == [es[k]]
  {
    if k == 0 {
      PinnedNone(es[1..], host, keyType);
    } else {
      assert PinOf(es[0]) != (host, keyType);
      PinnedOne(es[1..], k - 1, host, keyType);
    }
  }

  /** And after any run, a presented key is Trusted, Changed (with the pinned fingerprint) or
      Unknown exactly as the map says. */
  lemma CheckIsMap(digest: Digest, text: string, start: Pins, ops: seq<Op>, hostName: string, presented: HostKey)
    requires PlainFile(text) && Represents(List(digest, text), start)
    requires forall i :: 0 <= i < |ops| ==> GoodOp(digest, ops[i])
    ensures var m := RunMap(start, ops); var p := (Lower(hostName), presented.keyType);
      Check(digest, Run(text, ops), hostName, presented) ==
      if p !in m then Unknown
      else if m[p].keyBase64 == presented.keyBase64 then Trusted
      else Changed(m[p].fingerprint)
  {
    hide Lower, Run, RunMap, List, Represents, PinnedOf, GoodOp, PlainFile;
    var m := RunMap(start, ops);
    var ks := List(digest, Run(text, ops));
    ListIsMap(digest, text, start, ops);
    PinnedIs(ks, m, Lower(hostName), presented.keyType);
    var pinned := PinnedOf(ks, Lower(hostName), presented.keyType);
    if pinned != [] {
      assert (exists i :: 0 <= i < |pinned| && pinned[i].key.keyBase64 == presented.keyBase64)
        <==> pinned[0].key.keyBase64 == presented.keyBase64;
    }
  }

  // --- where an edit does more than it says ------------------------------------------------

  lemma ForgetDrop(text: string)
    ensures ForgetText(text, "h") == Remove(text, (x, t) => x == "h")
  {
    hide Remove;
    assert Lower("h") == "h";
    var host := Lower("h");
    SameDrop(text, (x, t) => x == host, (x, t) => x == "h");
  }

  /** Forgetting `h` in a line that names `h,#x` unpins `#x` too. */
  lemma HiddenPin(digest: Digest, key: HostKey)
    requires GoodKey(digest, key)
    ensures var text := KeyLine("h,#x", key) + "\n";
      && List(digest, text) == [KnownHost("h", key), KnownHost("#x", key)]
      && List(digest, ForgetText(text, "h")) == []
  {
    hide Words, Trim, Lower, FromLineFields, KeyLine, Remove, List, Named, Hides, Gains, Kept, KeptIn;
    var line := KeyLine("h,#x", key);
    var text := line + "\n";
    var drop: (string, string) -> bool := (x, t) => x == "h";
    TwoNames("h", "#x");
    WrittenLine(digest, "h,#x", key);
    KeyFacts(digest, key);
    OneLineFile(digest, line);
    assert Named(["h", "#x"], key) == [KnownHost("h", key), KnownHost("#x", key)] by { NamedTwo(key); }
    ForgetDrop(text);
    assert Kept(["h", "#x"], key.keyType, drop) == ["#x"] by { KeptTwo(key.keyType); }
    HidesIs(digest, line, key, drop);
    LineEdit(digest, line, drop);
    RemoveLinesAre(digest, text, drop);
    OneKept(line, drop);
  }

  lemma TwoNames(a: string, b: string)
    requires a == "h" && (b == "#x" || b == "")
    ensures Solid(a + "," + b) && Split(a + "," + b, ',') == [a, b]
  {
    var s := a + "," + b;
    assert forall k :: 0 <= k < |s| ==> s[k] == 'h' || s[k] == ',' || s[k] == '#' || s[k] == 'x';
    forall i | 0 <= i < |s|
      ensures SpaceAt(s[i..]) == 0
    {
      assert s[i..][0] == s[i];
    }
    SplitConcat(a, ',', b);
    SplitNone(a, ',');
    SplitNone(b, ',');
  }

  lemma OneLineFile(digest: Digest, line: string)
    requires '\n' !in line && '\r' !in line
    ensures StrLines(line + "\n") == [line] && List(digest, line + "\n") == LineHosts(digest, line)
  {
    hide LineHosts, Split;
    BeforeCons(line, [], '\n');
    assert [line] + [] == [line] && line + "\n" + "" == line + "\n";
    StrLinesWritten([line]);
    assert [line][1..] == [] && StripCr(line) == line;
    OneLine(digest, line);
  }

  lemma NamedTwo(key: HostKey)
    ensures Named(["h", "#x"], key) == [KnownHost("h", key), KnownHost("#x", key)]
  {
    hide Named, Lower;
    NothingNamed(key);
    NamedCons("#x", [], key);
    NamedCons("h", ["#x"], key);
    assert ["#x"] + [] == ["#x"] && ["h"] + ["#x"] == ["h", "#x"];
    assert Lower("h") == "h" && Lower("#x") == "#x" by { LowerNames(); }
  }

  lemma LowerNames()
    ensures Lower("h") == "h" && Lower("#x") == "#x" && Lower("") == ""
  {
  }

  lemma KeptTwo(keyType: string)
    ensures Kept(["h", "#x"], keyType, (x, t) => x == "h") == ["#x"]
    ensures Kept(["h", ""], keyType, (x, t) => x == "h") == [""]
  {
    hide Kept, Lower;
    var drop: (string, string) -> bool := (x, t) => x == "h";
    KeptOne("h", "#x", keyType, drop);
    KeptOne("h", "", keyType, drop);
    LowerNames();
    assert "#x"[0] != "h"[0];
  }

  lemma KeptOne(a: string, b: string, keyType: string, drop: (string, string) -> bool)
    requires drop(Lower(a), keyType) && !drop(Lower(b), keyType)
    ensures Kept([a, b], keyType, drop) == [b]
  {
    hide Lower, Kept;
    KeptCons(b, [], keyType, drop);
    KeptCons(a, [b], keyType, drop);
    assert [a] + [b] == [a, b] && [b] + [] == [b];
    assert Kept([], keyType, drop) == [] by { NoneKept(keyType, drop); }
  }

  lemma HidesIs(digest: Digest, line: string, key: HostKey, drop: (string, string) -> bool)
    requires line == KeyLine("h,#x", key) && GoodKey(digest, key)
    requires Kept(["h", "#x"], key.keyType, drop) == ["#x"]
    ensures Hides(digest, line, drop) && !Gains(digest, line, drop) && LineHosts(digest, line) == Named(["h", "#x"], key)
  {
    hide Words, Trim, Lower, FromLineFields, KeyLine, Kept, Named, Split, Join;
    TwoNames("h", "#x");
    assert "h" + "," + "#x" == "h,#x";
    WrittenLine(digest, "h,#x", key);
    KeyFacts(digest, key);
    FirstNamed(["h", "#x"], key);
    assert NamesIn(line) == ["h", "#x"] && KeptIn(line, drop) == ["#x"];
  }

  lemma OneKept(line: string, drop: (string, string) -> bool)
    ensures AllKept([line], drop) == KeptLines(line, drop)
  {
    hide KeptLines;
    assert [line][1..] == [];
    assert KeptLines(line, drop) + [] == KeptLines(line, drop);
  }

  /** Forgetting `h` in a line that names `h` and an empty name, a word and a key pins the key
      to that word; where the key type is no base64, the line listed nothing before. */
  lemma GainedPin(digest: Digest, key: HostKey)
    requires GoodKey(digest, key)
    ensures var text := "h, junk " + key.keyType + " " + key.keyBase64 + "\n";
      && List(digest, ForgetText(text, "h")) == [KnownHost("junk", key)]
      && ('-' in key.keyType ==> List(digest, text) == [])
  {
    hide List, ForgetText, JunkLine;
    FourLine(key);
    if '-' in key.keyType { JunkIs(digest, key); }
    JunkForgotten(digest, key);
  }

  function JunkLine(key: HostKey): string {
    Join(["h,", "junk", key.keyType, key.keyBase64], ' ')
  }

  lemma JunkReads(digest: Digest, key: HostKey)
    requires GoodKey(digest, key)
    ensures var line := JunkLine(key);
      && Inspected(line) && Words(Trim(line)) == ["h,", "junk", key.keyType, key.keyBase64]
      && NamesIn(line) == ["h", ""] && TailOf(line) == ["junk", key.keyType, key.keyBase64]
      && StrLines(line + "\n") == [line]
  {
    hide Words, Trim, FromLineFields, Split, Join;
    var ws := ["h,", "junk", key.keyType, key.keyBase64];
    KeyFacts(digest, key);
    TwoNames("h", "");
    JunkSolid();
    assert "h" + "," + "" == "h,";
    assert AllSolid(ws);
    JoinedWords(ws);
    TrimmedStays(JunkLine(key));
    assert JunkLine(key)[0] == 'h';
    JunkFile(digest, JunkLine(key), key);
  }

  lemma JunkIs(digest: Digest, key: HostKey)
    requires GoodKey(digest, key) && '-' in key.keyType
    ensures List(digest, JunkLine(key) + "\n") == []
  {
    hide Words, Trim, FromLineFields, Split, Join, List, JunkLine, Named;
    var line := JunkLine(key);
    JunkReads(digest, key);
    Base64.NotStrict(key.keyType, '-');
    NotDecoded(digest, "junk", key.keyType);
    Understood(digest, line);
    assert List(digest, line + "\n") == Hosts(digest, [line]) by { ListOf(digest, line + "\n"); }
    OneLine(digest, line);
  }

  lemma ListOf(digest: Digest, text: string)
    ensures List(digest, text) == Hosts(digest, StrLines(text))
  {
  }

  lemma JunkForgotten(digest: Digest, key: HostKey)
    requires GoodKey(digest, key)
    ensures List(digest, ForgetText(JunkLine(key) + "\n", "h")) == [KnownHost("junk", key)]
  {
    hide Words, Trim, Lower, Remove, List, Kept, KeyLine, JunkLine, LineHosts, Split, Join;
    var line := JunkLine(key);
    var drop: (string, string) -> bool := (x, t) => x == "h";
    JunkReads(digest, key);
    ForgetDrop(line + "\n");
    assert Kept(["h", ""], "junk", drop) == [""] by { KeptTwo("junk"); }
    JoinThree("junk", key.keyType, key.keyBase64);
    KeyLineIs("junk", key);
    RemoveLinesAre(digest, line + "\n", drop);
    OneKept(line, drop);
    assert Join([""], ',') == "" by { JoinOne([""]); }
    OneLine(digest, "" + " " + Join(TailOf(line), ' '));
    TailReads(digest, line);
    JunkSolid();
    LineLists(digest, "junk", key);
    assert Lower("junk") == "junk" by { JunkLower(); }
  }

  lemma NotDecoded(digest: Digest, keyType: string, b64: string)
    requires Base64.DecodeStrict(b64).None?
    ensures FromLineFields(digest, keyType, b64).None?
  {
  }

  lemma JunkLower()
    ensures Lower("junk") == "junk"
  {
  }

  lemma KeyLineIs(host: string, key: HostKey)
    ensures KeyLine(host, key) == host + " " + key.keyType + " " + key.keyBase64
  {
  }

  lemma JunkSolid()
    ensures Solid("junk") && GoodHost("junk")
  {
    PlainSolid("junk");
  }

  lemma FourLine(key: HostKey)
    ensures JunkLine(key) == "h, junk " + key.keyType + " " + key.keyBase64
  {
    var a, b := key.keyType, key.keyBase64;
    assert ["h,", "junk", a, b][1..] == ["junk", a, b];
    JoinThree("junk", a, b);
    assert "h," + " " + ("junk" + " " + a + " " + b) == "h, junk " + a + " " + b;
  }

  lemma JunkFile(digest: Digest, line: string, key: HostKey)
    requires line == JunkLine(key) && GoodKey(digest, key)
    ensures StrLines(line + "\n") == [line] && '\n' !in line && '\r' !in line
  {
    hide JunkLine, StrLines;
    KeyFacts(digest, key);
    FourLine(key);
    SolidClean(key.keyType);
    SolidClean(key.keyBase64);
    OneLineFile(digest, line);
  }

  // --- lines that say nothing -------------------------------------------------------------

  /** Empty lines, comments, markers and lines of fewer than three words list nothing, and nor
      does a key that is not of the type the line names. */
  lemma IdleLine(digest: Digest, line: string)
    requires var t := Trim(line);
      || t == "" || t[0] == '#' || t[0] == '@' || |Words(t)| < 3
      || FromLineFields(digest, Words(t)[1], Words(t)[2]).None?
    ensures LineHosts(digest, line) == []
  {
    hide Words, Trim, FromLineFields;
  }

  /** A key is read from a line exactly when its third word is the base64 of a key of the type the
      second word says. */
  lemma LineFieldsAre(digest: Digest, keyType: string, b64: string)
    ensures FromLineFields(digest, keyType, b64).Some? <==>
      Base64.DecodeStrict(b64).Some? && exists key :: FromBlob(digest, Base64.DecodeStrict(b64).value) == Some(key) && key.keyType == keyType
    ensures FromLineFields(digest, keyType, b64).Some? ==>
      FromLineFields(digest, keyType, b64) == FromBlob(digest, Base64.DecodeStrict(b64).value)
  {
    hide FromBlob, Base64.DecodeStrict;
  }

  lemma InspectedIs(line: string)
    ensures Inspected(line) <==> var t := Trim(line); |Words(t)| >= 2 && t != "" && t[0] != '#' && t[0] != '@'
  {
    hide Words, Trim;
    assert Words("") == [] by { NoWords(); }
  }
}
