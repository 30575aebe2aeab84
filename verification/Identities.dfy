/** age identities files (identities.rs): reading the blocks and the append-only merge. */
module Identities {
  import opened Text
  import opened Utf8

  datatype Block = Block(comments: seq<string>, secret: string)

  datatype Merged = Merged(text: string, added: nat, alreadyPresent: nat)

  const SECRET_PREFIX: string := "AGE-SECRET-KEY-1"

  // --- reading -----------------------------------------------------------------

  predicate IsComment(line: string) {
    line != "" && line[0] == '#'
  }

  predicate IsSecret(line: string) {
    line != "" && line[0] != '#' && SECRET_PREFIX <= Upper(line)
  }

  /** The comments waiting for an identity after one more (trimmed) line. */
  function Waiting(line: string, pending: seq<string>): seq<string> {
    if IsComment(line) then pending + [line] else []
  }

  function Found(line: string, pending: seq<string>): seq<Block> {
    if IsSecret(line) then [Block(pending, line)] else []
  }

  function Pending(lines: seq<string>, pending: seq<string>): seq<string>
    decreases |lines|
  {
    if lines == [] then pending else Pending(lines[1..], Waiting(Trim(lines[0]), pending))
  }

  function Blocks(lines: seq<string>, pending: seq<string>): seq<Block>
    decreases |lines|
  {
    if lines == [] then []
    else Found(Trim(lines[0]), pending) + Blocks(lines[1..], Waiting(Trim(lines[0]), pending))
  }

  function Parse(text: string): seq<Block> {
    Blocks(StrLines(text), [])
  }

  /** `parse_identities`. */
  method ParseIdentities(text: string) returns (blocks: seq<Block>)
    ensures blocks == Parse(text)
  {
    hide Trim, Found, Waiting, Upper, Blocks, StrLines;
    blocks := [];
    var pending, rest := [], StrLines(text);
    NoLines();
    while rest != []
      invariant Parse(text) == blocks + Blocks(rest, pending)
      decreases |rest|
    {
      var line := Trim(rest[0]);
      LineIs(line, pending);
      BlocksStep(blocks, rest, pending);
      ghost var was, before := pending, blocks;
      if line == "" {
        pending := [];
      } else if line[0] == '#' {
        pending := pending + [line];
      } else if SECRET_PREFIX <= Upper(line) {
        blocks := blocks + [Block(pending, line)];
        pending := [];
      } else {
        pending := [];
      }
      assert blocks == before + Found(line, was) && pending == Waiting(line, was);
      rest := rest[1..];
    }
  }

  lemma NoLines()
    ensures forall pending :: Blocks([], pending) == []
  {
  }

  lemma BlocksStep(done: seq<Block>, lines: seq<string>, pending: seq<string>)
    requires lines != []
    ensures done + Blocks(lines, pending) ==
            (done + Found(Trim(lines[0]), pending)) + Blocks(lines[1..], Waiting(Trim(lines[0]), pending))
  {
    hide Trim, Found, Waiting;
  }

  lemma LineIs(line: string, pending: seq<string>)
    ensures Found(line, pending) ==
      if line == "" || line[0] == '#' || !(SECRET_PREFIX <= Upper(line)) then [] else [Block(pending, line)]
    ensures Waiting(line, pending) == if line != "" && line[0] == '#' then pending + [line] else []
  {
    hide Upper;
  }

  /** A line is a comment, a secret or neither: a comment waits for the next secret, a secret takes
      what waits, and anything else drops it. */
  lemma LineKinds(line: string, pending: seq<string>)
    ensures "#" <= line ==> Found(line, pending) == [] && Waiting(line, pending) == pending + [line]
    ensures "AGE-SECRET-KEY-1" <= Upper(line) ==> Found(line, pending) == [Block(pending, line)] && Waiting(line, pending) == []
    ensures !("#" <= line) && !("AGE-SECRET-KEY-1" <= Upper(line)) ==> Found(line, pending) == [] && Waiting(line, pending) == []
  {
    if "AGE-SECRET-KEY-1" <= Upper(line) {
      assert Upper(line)[0] == 'A';
    }
  }

  // --- merging -----------------------------------------------------------------

  function Key(b: Block): string {
    Upper(b.secret)
  }

  /** Two secrets are one key exactly when they differ in case at most. */
  lemma KeyIgnoresCase(a: Block, b: Block)
    ensures Key(a) == Key(b) <==> Lower(a.secret) == Lower(b.secret)
  {
    CaseAgrees(a.secret, b.secret);
  }

  lemma CaseAgrees(s: string, t: string)
    ensures Upper(s) == Upper(t) <==> Lower(s) == Lower(t)
  {
    if |s| == |t| {
      forall k | 0 <= k < |s|
        ensures Upper(s)[k] == Upper(t)[k] <==> Lower(s)[k] == Lower(t)[k]
      {
        CharAgrees(s[k], t[k]);
      }
    }
  }

  lemma CharAgrees(c: char, d: char)
    ensures ToUpper(c) == ToUpper(d) <==> ToLower(c) == ToLower(d)
  {
  }

  function Keys(bs: seq<Block>): set<string> {
    set i | 0 <= i < |bs| :: Key(bs[i])
  }

  /** Blocks whose key is new, each at its first occurrence. */
  function Fresh(bs: seq<Block>, known: set<string>): seq<Block> {
    if bs == [] then []
    else if Key(bs[0]) in known then Fresh(bs[1..], known)
    else [bs[0]] + Fresh(bs[1..], known + {Key(bs[0])})
  }

  function Present(bs: seq<Block>, have: set<string>): nat {
    if bs == [] then 0 else (if Key(bs[0]) in have then 1 else 0) + Present(bs[1..], have)
  }

  /** The blocks whose key is there already. */
  lemma {:induction false} PresentIs(bs: seq<Block>, have: set<string>)
    ensures Present(bs, have) == |set i | 0 <= i < |bs| && Key(bs[i]) in have|
    decreases |bs|
  {
    hide Key;
    var all := set i | 0 <= i < |bs| && Key(bs[i]) in have;
    if bs != [] {
      var n := |bs| - 1;
      var less := set i | 0 <= i < |bs[..n]| && Key(bs[..n][i]) in have;
      PresentIs(bs[..n], have);
      PresentSnoc(bs[..n], bs[n], have);
      assert bs == bs[..n] + [bs[n]];
      assert all == less + (if Key(bs[n]) in have then {n} else {});
    }
  }

  lemma {:induction false} PresentSnoc(bs: seq<Block>, b: Block, have: set<string>)
    ensures Present(bs + [b], have) == Present(bs, have) + if Key(b) in have then 1 else 0
  {
    hide Key;
    if bs == [] {
      assert [] + [b] == [b] && [b][1..] == [];
    } else {
      PresentSnoc(bs[1..], b, have);
      assert (bs + [b])[1..] == bs[1..] + [b];
    }
  }

  /** A merge counts the imported blocks whose key the existing file has; its text is what is
      appended, with a newline at its end unless it is empty. */
  lemma MergeCounts(existing: string, imported: string)
    ensures var m, bs := Merge(existing, imported), Parse(imported);
      && m.alreadyPresent == |set i | 0 <= i < |bs| && Key(bs[i]) in Keys(Parse(existing))|
      && m.added == |Fresh(bs, Keys(Parse(existing)))|
      && (m.text == "" || m.text[|m.text| - 1] == '\n')
      && Appended(existing, Fresh(bs, Keys(Parse(existing)))) <= m.text
  {
    hide Parse, Key, Keys, Fresh, Appended;
    PresentIs(Parse(imported), Keys(Parse(existing)));
    EndsAt(Appended(existing, Fresh(Parse(imported), Keys(Parse(existing)))));
  }

  /** A blank line before a new block, unless there is nothing before it. */
  function Spaced(text: string): string {
    if text == "" || HasSuffix(text, "\n\n") then text
    else if HasSuffix(text, "\n") then text + "\n"
    else text + "\n" + "\n"
  }

  function BlockText(b: Block): string {
    Before(b.comments, '\n') + b.secret + "\n"
  }

  function Appended(text: string, bs: seq<Block>): string
    decreases |bs|
  {
    if bs == [] then text else Appended(Spaced(text) + BlockText(bs[0]), bs[1..])
  }

  function Closed(text: string): string {
    if text != "" && !HasSuffix(text, "\n") then text + "\n" else text
  }

  function Merge(existing: string, imported: string): Merged {
    var have, bs := Keys(Parse(existing)), Parse(imported);
    var extra := Fresh(bs, have);
    Merged(Closed(Appended(existing, extra)), |extra|, Present(bs, have))
  }

  method AppendBlock(text: string, b: Block) returns (out: string)
    ensures out == Spaced(text) + BlockText(b)
  {
    out := text;
    if text != "" {
      if !HasSuffix(out, "\n") {
        out := out + "\n";
      }
      if !HasSuffix(out, "\n\n") {
        out := out + "\n";
      }
    }
    SpacedOnce(text);
    assert out == Spaced(text);
    out := PushLines(out, b.comments);
    out := out + b.secret + "\n";
    assert out == Spaced(text) + (Before(b.comments, '\n') + b.secret + "\n");
  }

  method PushLines(text: string, lines: seq<string>) returns (out: string)
    ensures out == text + Before(lines, '\n')
  {
    out := text;
    var rest := lines;
    while rest != []
      invariant text + Before(lines, '\n') == out + Before(rest, '\n')
      decreases |rest|
    {
      out := out + rest[0] + "\n";
      rest := rest[1..];
    }
  }

  lemma SpacedOnce(text: string)
    ensures text != "" && !HasSuffix(text, "\n") ==> !HasSuffix(text + "\n", "\n\n") && !HasSuffix(text, "\n\n")
  {
    EndsAt(text);
    EndsAt(text + "\n");
  }

  lemma EndsAt(text: string)
    ensures HasSuffix(text, "\n") <==> text != "" && text[|text| - 1] == '\n'
    ensures HasSuffix(text, "\n\n") <==> |text| >= 2 && text[|text| - 2] == '\n' && text[|text| - 1] == '\n'
  {
    if |text| >= 1 {
      assert text[|text| - 1..] == [text[|text| - 1]];
    }
    if |text| >= 2 {
      assert text[|text| - 2..] == [text[|text| - 2], text[|text| - 1]];
    }
  }

  /** `merge_identities`. */
  method MergeIdentities(existing: string, imported: string) returns (m: Merged)
    ensures m == Merge(existing, imported)
  {
    hide Parse, Spaced, BlockText, Key;
    var mine := ParseIdentities(existing);
    var have := Keys(mine);
    var rest := ParseIdentities(imported);
    ghost var all := rest;
    var seen, text, added, present := have, existing, 0, 0;
    while rest != []
      invariant have <= seen
      invariant added + |Fresh(rest, seen)| == |Fresh(all, have)|
      invariant present + Present(rest, have) == Present(all, have)
      invariant Appended(text, Fresh(rest, seen)) == Appended(existing, Fresh(all, have))
      decreases |rest|
    {
      var block, key := rest[0], Key(rest[0]);
      if key in have {
        present := present + 1;
      } else if key !in seen {
        FreshFirst(rest, seen);
        seen := seen + {key};
        text := AppendBlock(text, block);
        added := added + 1;
      }
      rest := rest[1..];
    }
    return Merged(if text != "" && !HasSuffix(text, "\n") then text + "\n" else text, added, present);
  }

  lemma FreshFirst(bs: seq<Block>, known: set<string>)
    requires bs != [] && Key(bs[0]) !in known
    ensures Fresh(bs, known) != [] && Fresh(bs, known)[0] == bs[0]
    ensures Fresh(bs, known)[1..] == Fresh(bs[1..], known + {Key(bs[0])})
  {
  }

  // --- parsing what was written ----------------------------------------------------

  lemma {:induction false} BlocksConcat(a: seq<string>, b: seq<string>, pending: seq<string>)
    ensures Blocks(a + b, pending) == Blocks(a, pending) + Blocks(b, Pending(a, pending))
    ensures Pending(a + b, pending) == Pending(b, Pending(a, pending))
    decreases |a|
  {
    hide Trim, Found, Waiting;
    if a == [] {
      assert a + b == b;
    } else {
      assert (a + b)[1..] == a[1..] + b;
      BlocksConcat(a[1..], b, Waiting(Trim(a[0]), pending));
    }
  }

  lemma BlocksOne(line: string, pending: seq<string>)
    ensures Blocks([line], pending) == Found(Trim(line), pending)
    ensures Pending([line], pending) == Waiting(Trim(line), pending)
  {
    hide Trim, Found, Waiting;
    var line' := Trim(line);
    assert [line][1..] == [];
    assert Blocks([], Waiting(line', pending)) == [];
    assert Pending([], Waiting(line', pending)) == Waiting(line', pending);
  }

  /** A `\r` before the newline, or a last empty piece, makes no difference. */
  lemma {:induction false} PiecesRead(ls: seq<string>, pending: seq<string>)
    ensures Blocks(LinesFrom(ls), pending) == Blocks(ls, pending)
    decreases |ls|
  {
    hide Trim, Found, Waiting;
    if |ls| == 1 {
      BlocksOne(ls[0], pending);
      NothingFound(pending);
    } else if ls != [] {
      var rest := LinesFrom(ls[1..]);
      TrimStripCr(ls[0]);
      PiecesRead(ls[1..], Waiting(Trim(ls[0]), pending));
      assert ([StripCr(ls[0])] + rest)[1..] == rest;
    }
  }

  lemma NothingFound(pending: seq<string>)
    ensures Found(Trim(""), pending) == [] && Waiting(Trim(""), pending) == []
  {
  }

  lemma ParsePieces(text: string)
    ensures Parse(text) == Blocks(Split(text, '\n'), [])
  {
    PiecesRead(Split(text, '\n'), []);
  }

  /** A block as parsing makes it: no comment or secret holds a newline or outer space. */
  ghost predicate GoodBlock(b: Block) {
    && (forall i :: 0 <= i < |b.comments| ==> GoodLine(b.comments[i]) && IsComment(b.comments[i]))
    && GoodLine(b.secret) && IsSecret(b.secret)
  }

  ghost predicate GoodLine(line: string) {
    '\n' !in line && Trim(line) == line
  }

  lemma {:induction false} BlocksGood(lines: seq<string>, pending: seq<string>)
    requires Lacks(lines, '\n')
    requires forall i :: 0 <= i < |pending| ==> GoodLine(pending[i]) && IsComment(pending[i])
    ensures forall i :: 0 <= i < |Blocks(lines, pending)| ==> GoodBlock(Blocks(lines, pending)[i])
    decreases |lines|
  {
    hide Trim, IsComment, IsSecret;
    if lines != [] {
      var line := Trim(lines[0]);
      TrimLacks(lines[0], '\n');
      TrimTwice(lines[0]);
      BlocksGood(lines[1..], Waiting(line, pending));
    }
  }

  lemma TrimTwice(line: string)
    ensures Trim(Trim(line)) == Trim(line)
  {
    hide Trim, Trimmed;
    TrimIsTrimmed(line);
    TrimmedStays(Trim(line));
  }

  lemma TrimLacks(s: string, c: char)
    requires c !in s
    ensures c !in Trim(s)
  {
    TrimStartLacks(s, c);
  }

  lemma {:induction false} TrimStartLacks(s: string, c: char)
    requires c !in s
    ensures c !in TrimStart(s)
    decreases |s|
  {
    if SpaceAt(s) > 0 {
      TrimStartLacks(s[SpaceAt(s)..], c);
    }
  }

  lemma ParseGood(text: string)
    ensures forall i :: 0 <= i < |Parse(text)| ==> GoodBlock(Parse(text)[i])
  {
    ParsePieces(text);
    SplitLacks(text, '\n');
    BlocksGood(Split(text, '\n'), []);
  }

  lemma {:induction false} CommentsRead(cs: seq<string>, pending: seq<string>)
    requires forall i :: 0 <= i < |cs| ==> GoodLine(cs[i]) && IsComment(cs[i])
    ensures Blocks(cs, pending) == [] && Pending(cs, pending) == pending + cs
    decreases |cs|
  {
    hide Trim, Blocks, Pending, Found, Waiting, Upper;
    NoLines();
    if cs == [] {
      assert pending + cs == pending;
      NonePending(pending);
    } else {
      CommentsRead(cs[1..], pending + [cs[0]]);
      assert pending + [cs[0]] + cs[1..] == pending + cs;
      OneComment(cs[0], pending);
      BlocksStep([], cs, pending);
      PendingStep(cs, pending);
    }
  }

  lemma NonePending(pending: seq<string>)
    ensures Pending([], pending) == pending
  {
  }

  lemma PendingStep(lines: seq<string>, pending: seq<string>)
    requires lines != []
    ensures Pending(lines, pending) == Pending(lines[1..], Waiting(Trim(lines[0]), pending))
  {
  }

  lemma OneComment(line: string, pending: seq<string>)
    requires GoodLine(line) && IsComment(line)
    ensures Found(Trim(line), pending) == [] && Waiting(Trim(line), pending) == pending + [line]
  {
    hide Trim, Upper;
  }

  lemma BlockReads(b: Block)
    requires GoodBlock(b)
    ensures Blocks(Split(BlockText(b), '\n'), []) == [b]
  {
    hide Trim, Split, IsSecret, IsComment;
    var ls := b.comments + [b.secret];
    BeforeSnoc(b.comments, '\n', b.secret);
    BeforeIsJoin(ls, '\n');
    SplitJoin(ls + [""], '\n');
    CommentsRead(b.comments, []);
    assert [] + b.comments == b.comments;
    BlocksOne(b.secret, b.comments);
    BlocksConcat(b.comments, [b.secret], []);
    BlocksOne("", Pending(ls, []));
    NothingFound(Pending(ls, []));
    BlocksConcat(ls, [""], []);
  }

  /** Past a blank line, what follows is read by itself. */
  lemma AfterBlank(u: string, t: string)
    ensures Parse(u + "\n\n" + t) == Parse(u) + Blocks(Split(t, '\n'), [])
    ensures Parse(u + "\n") == Parse(u) == Parse(u + "\n\n")
  {
    hide Split, Trim, Blocks, Pending, Found, Waiting;
    var ls, p := Split(u, '\n'), Pending(Split(u, '\n'), []);
    ParsePieces(u);
    ParsePieces(u + "\n");
    ParsePieces(u + "\n\n");
    ParsePieces(u + "\n\n" + t);
    BlocksOne("", p);
    BlocksOne("", []);
    NothingFound(p);
    NothingFound([]);
    BlocksConcat(ls, [""], []);
    SplitConcat(u, '\n', "");
    assert u + "\n" + "" == u + "\n" && u + "\n" + "\n" == u + "\n\n";
    SplitNone("", '\n');
    SplitConcat(u + "\n", '\n', "");
    assert u + "\n" + "\n" + "" == u + "\n\n";
    BlocksConcat(ls + [""], [""], []);
    SplitConcat(u + "\n", '\n', t);
    assert u + "\n" + "\n" + t == u + "\n\n" + t;
    BlocksConcat(ls + [""], Split(t, '\n'), []);
  }

  lemma SpacedIs(text: string) returns (u: string)
    requires text != ""
    ensures Spaced(text) == u + "\n\n" && Parse(u) == Parse(text) == Parse(Spaced(text))
  {
    hide Parse;
    if HasSuffix(text, "\n\n") {
      u := text[..|text| - 2];
    } else if HasSuffix(text, "\n") {
      u := text[..|text| - 1];
      assert text == u + "\n" && text + "\n" == u + "\n\n";
    } else {
      u := text;
      assert text + "\n" + "\n" == text + "\n\n";
    }
    AfterBlank(u, "");
  }

  /** One appended block is read after all the others, its comments with it. */
  lemma AppendReads(text: string, b: Block)
    requires GoodBlock(b)
    ensures Parse(Spaced(text) + BlockText(b)) == Parse(text) + [b]
  {
    hide Parse, Blocks, GoodBlock, BlockText, Split;
    BlockReads(b);
    if text == "" {
      assert Spaced(text) + BlockText(b) == BlockText(b);
      ParsePieces(BlockText(b));
      assert Parse(text) == [] by { NothingParsed(); }
      assert [] + [b] == [b];
    } else {
      hide Spaced;
      var u := SpacedIs(text);
      AfterBlank(u, BlockText(b));
    }
  }

  lemma NothingParsed()
    ensures Parse("") == []
  {
  }

  lemma {:induction false} AppendAllReads(text: string, bs: seq<Block>)
    requires forall i :: 0 <= i < |bs| ==> GoodBlock(bs[i])
    ensures Parse(Appended(text, bs)) == Parse(text) + bs
    ensures text <= Appended(text, bs)
    ensures bs != [] ==> HasSuffix(Appended(text, bs), "\n")
    decreases |bs|
  {
    hide Parse, GoodBlock, Spaced, BlockText;
    if bs == [] {
      assert Parse(text) + bs == Parse(text);
    } else {
      var next := Spaced(text) + BlockText(bs[0]);
      AppendReads(text, bs[0]);
      SpacedExtends(text, bs[0]);
      AppendAllReads(next, bs[1..]);
      assert bs[1..] == [] ==> Appended(next, bs[1..]) == next;
      assert Parse(text) + [bs[0]] + bs[1..] == Parse(text) + bs;
    }
  }

  lemma SpacedExtends(text: string, b: Block)
    ensures text <= Spaced(text) + BlockText(b) && HasSuffix(Spaced(text) + BlockText(b), "\n")
  {
    var next := Spaced(text) + BlockText(b);
    assert text <= Spaced(text);
    assert next[|next| - 1] == '\n';
  }

  // --- the merge -------------------------------------------------------------------

  lemma {:induction false} FreshAre(bs: seq<Block>, known: set<string>)
    ensures var f := Fresh(bs, known);
      && (forall i :: 0 <= i < |f| ==> f[i] in bs && Key(f[i]) !in known)
      && (forall i, j :: 0 <= i < j < |f| ==> Key(f[i]) != Key(f[j]))
      && known + Keys(f) == known + Keys(bs)
  {
    hide Key, Keys;
    if bs != [] {
      var k := Key(bs[0]);
      KeysCons(bs[0], bs[1..]);
      if k in known {
        FreshAre(bs[1..], known);
        assert bs == [bs[0]] + bs[1..];
        assert known + Keys(bs) == known + Keys(bs[1..]);
      } else {
        FreshAre(bs[1..], known + {k});
        var f := Fresh(bs[1..], known + {k});
        KeysCons(bs[0], f);
        assert bs == [bs[0]] + bs[1..];
        assert known + Keys([bs[0]] + f) == (known + {k}) + Keys(f);
      }
    }
  }

  lemma KeysCons(b: Block, bs: seq<Block>)
    ensures Keys([b] + bs) == {Key(b)} + Keys(bs)
    ensures bs != [] ==> ([b] + bs)[1..] == bs
  {
    hide Key;
    var all := [b] + bs;
    assert forall i :: 1 <= i < |all| ==> all[i] == bs[i - 1];
    forall i | 0 <= i < |bs|
      ensures Key(bs[i]) in Keys(all)
    {
      assert all[i + 1] == bs[i];
    }
    assert all[0] == b;
  }

  lemma {:induction false} NothingFresh(bs: seq<Block>, known: set<string>)
    requires Keys(bs) <= known
    ensures Fresh(bs, known) == [] && Present(bs, known) == |bs|
  {
    hide Key;
    if bs != [] {
      KeysCons(bs[0], bs[1..]);
      assert bs == [bs[0]] + bs[1..];
      NothingFresh(bs[1..], known);
    }
  }

  lemma KeysConcat(a: seq<Block>, b: seq<Block>)
    ensures Keys(a + b) == Keys(a) + Keys(b)
  {
    hide Key;
    assert forall i :: 0 <= i < |a| ==> (a + b)[i] == a[i];
    forall i | 0 <= i < |b|
      ensures Key(b[i]) in Keys(a + b)
    {
      assert (a + b)[|a| + i] == b[i];
    }
  }

  /** The merged file is the existing one, untouched, then exactly the blocks whose key it
      lacked, each once at its first occurrence and with its comments. */
  lemma MergeReads(existing: string, imported: string)
    ensures var m, mine := Merge(existing, imported), Parse(existing);
      var extra := Fresh(Parse(imported), Keys(mine));
      && Parse(m.text) == mine + extra && m.added == |extra|
      && existing <= m.text
      && Keys(Parse(m.text)) == Keys(mine) + Keys(Parse(imported))
      && (forall i :: 0 <= i < |extra| ==> extra[i] in Parse(imported) && Key(extra[i]) !in Keys(mine))
      && (forall i, j :: 0 <= i < j < |extra| ==> Key(extra[i]) != Key(extra[j]))
  {
    hide Parse, Key, Keys, GoodBlock, Fresh, Appended;
    var mine, bs := Parse(existing), Parse(imported);
    var extra := Fresh(bs, Keys(mine));
    ParseGood(imported);
    FreshAre(bs, Keys(mine));
    forall i | 0 <= i < |extra|
      ensures GoodBlock(extra[i])
    {
      assert extra[i] in bs;
    }
    AppendAllReads(existing, extra);
    AfterBlank(Appended(existing, extra), "");
    KeysConcat(mine, extra);
  }

  /** Merging the same file again adds nothing and changes no byte. */
  lemma MergeAgain(existing: string, imported: string)
    ensures var text := Merge(existing, imported).text;
      Merge(text, imported) == Merged(text, 0, |Parse(imported)|)
  {
    hide Parse, Key, Keys, Fresh, Present, Appended, Merge;
    var text := Merge(existing, imported).text;
    MergeReads(existing, imported);
    NothingFresh(Parse(imported), Keys(Parse(text)));
    ClosedOnce(existing, imported);
    MergeNothing(text, imported);
  }

  lemma ClosedOnce(existing: string, imported: string)
    ensures Closed(Merge(existing, imported).text) == Merge(existing, imported).text
  {
    hide Parse, Keys, Fresh, Present, Appended;
  }

  lemma MergeNothing(text: string, imported: string)
    requires Fresh(Parse(imported), Keys(Parse(text))) == []
    ensures Merge(text, imported) == Merged(Closed(text), 0, Present(Parse(imported), Keys(Parse(text))))
  {
    hide Parse, Keys, Fresh, Present;
  }
}
