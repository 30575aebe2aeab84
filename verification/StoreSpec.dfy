/** What the store operations do to the file tree (store.rs), and what they keep. */
module StoreSpec {
  import opened Text
  import opened Utf8
  import opened Order
  import opened Names
  import opened Recipients

  datatype Tree = Tree(files: Files, dirs: set<Path>)

  /** The crypto engine: what it refuses and draws, and otherwise that decrypting undoes
      encrypting. */
  datatype Backend = Backend(
    refuseEncrypt: (string, seq<string>) -> Option<CryptoError>,
    refuseDecrypt: Content -> Option<CryptoError>,
    salt: (string, seq<string>) -> nat)

  function Ciphertext(b: Backend, plain: string, to: seq<string>): Content {
    Enc(plain, to, b.salt(plain, to))
  }

  function Encrypt(b: Backend, plain: string, to: seq<string>): Result<Content, StoreError> {
    match b.refuseEncrypt(plain, to) case Some(e) => Err(Crypto(e)) case None => Ok(Ciphertext(b, plain, to))
  }

  function Decrypt(b: Backend, c: Content): Result<string, StoreError> {
    match b.refuseDecrypt(c)
    case Some(e) => Err(Crypto(e))
    case None => if c.Enc? then Ok(c.plain) else Err(Crypto(DecryptionFailed))
  }

  // --- files and directories -------------------------------------------------------

  /** `create_dir_all`: fails where a file is in the way. */
  function CreateDirs(t: Tree, dir: Path): Option<Tree> {
    if exists k :: 0 <= k <= |dir| && dir[..k] in t.files then None
    else Some(t.(dirs := t.dirs + set k | 0 <= k <= |dir| :: dir[..k]))
  }

  /** Parents created, then the file replaced; not over a directory. */
  function PutFile(t: Tree, p: Path, c: Content): (Tree, Option<StoreError>)
    requires p != []
  {
    match CreateDirs(t, p[..|p| - 1])
    case None => (t, Some(Io))
    case Some(made) => Replace(made, p, c)
  }

  /** `atomic_write`. */
  function Replace(t: Tree, p: Path, c: Content): (Tree, Option<StoreError>) {
    if p in t.dirs then (t, Some(Io)) else (t.(files := t.files[p := c]), None)
  }

  predicate EmptyDir(t: Tree, dir: Path) {
    && (forall p :: p in t.files ==> p == [] || p[..|p| - 1] != dir)
    && (forall d :: d in t.dirs ==> d == [] || d[..|d| - 1] != dir)
  }

  /** Newly empty directories go, up to the root. */
  function Prune(t: Tree, dir: Path): Tree
    decreases |dir|
  {
    if dir == [] || dir !in t.dirs || !EmptyDir(t, dir) then t
    else Prune(t.(dirs := t.dirs - {dir}), dir[..|dir| - 1])
  }

  // --- operations ------------------------------------------------------------------

  /** The ciphertext for `name`'s resolved recipients. */
  function Sealed(f: Format, files: Files, name: string, plain: string, b: Backend): Result<Content, StoreError> {
    match ResolvedFor(f, files, name)
    case Err(e) => Err(e)
    case Ok(rs) => Encrypt(b, plain, rs)
  }

  function WriteEntry(f: Format, t: Tree, name: string, plain: string, b: Backend): (Tree, Option<StoreError>) {
    match Sealed(f, t.files, name, plain, b)
    case Err(e) => (t, Some(e))
    case Ok(c) => PutFile(t, FileOf(f, name), c)
  }

  function RemoveEntry(f: Format, t: Tree, name: string): (Tree, Option<StoreError>) {
    var p := FileOf(f, name);
    if IsSneaky(name) then (t, Some(SneakyPath))
    else if p !in t.files then (t, Some(NotInStore))
    else (Prune(t.(files := t.files - {p}), p[..|p| - 1]), None)
  }

  /** What a transfer writes: the bytes, when pass resolves both sides alike, otherwise a new
      ciphertext. Copying a file onto itself with `fs::copy` truncates it. */
  function Transferred(f: Format, files: Files, from: string, to: string, b: Backend): Result<Content, StoreError>
    requires FileOf(f, from) in files
  {
    var c := files[FileOf(f, from)];
    if f == Pass && Resolve(f, files, from).Err? then Err(Resolve(f, files, from).error)
    else if f == Pass && Resolve(f, files, to).Err? then Err(Resolve(f, files, to).error)
    else if f == Pass && Resolve(f, files, from) == Resolve(f, files, to) then Ok(if from == to then Plain("") else c)
    else match Decrypt(b, c)
      case Err(e) => Err(e)
      case Ok(plain) => Sealed(f, files, to, plain, b)
  }

  function TransferEntry(f: Format, t: Tree, from: string, to: string, b: Backend, remove: bool): (Tree, Option<StoreError>) {
    var src, dst := FileOf(f, from), FileOf(f, to);
    if IsSneaky(from) then (t, Some(SneakyPath))
    else if src !in t.files then (t, Some(NotInStore))
    else if IsSneaky(to) then (t, Some(SneakyPath))
    else match CreateDirs(t, dst[..|dst| - 1])
      case None => (t, Some(Io))
      case Some(made) =>
        match Transferred(f, made.files, from, to, b)
        case Err(e) => (made, Some(e))
        case Ok(c) =>
          var (written, error) := Replace(made, dst, c);
          if error.Some? || !remove then (written, error) else RemoveEntry(f, written, from)
  }

  // --- what an operation leaves alone --------------------------------------------------

  lemma CreateDirsFiles(t: Tree, dir: Path)
    ensures CreateDirs(t, dir).Some? ==> CreateDirs(t, dir).value.files == t.files
  {
  }

  lemma {:induction false} PruneFiles(t: Tree, dir: Path)
    ensures Prune(t, dir).files == t.files
    decreases |dir|
  {
    hide EmptyDir;
    if !(dir == [] || dir !in t.dirs || !EmptyDir(t, dir)) {
      PruneFiles(t.(dirs := t.dirs - {dir}), dir[..|dir| - 1]);
    }
  }

  /** A successful write leaves the entry for exactly its resolved recipients and every other
      file as it was; a failing one changes no file. */
  lemma WriteIs(f: Format, t: Tree, name: string, plain: string, b: Backend)
    ensures var (after, error) := WriteEntry(f, t, name, plain, b);
      && (error.Some? ==> after.files == t.files)
      && (error.None? ==> ResolvedFor(f, t.files, name).Ok?)
      && (error.None? ==> after.files == t.files[FileOf(f, name) := Ciphertext(b, plain, ResolvedFor(f, t.files, name).value)])
  {
    hide ResolvedFor, FileOf, CreateDirs;
    var p := FileOf(f, name);
    CreateDirsFiles(t, p[..|p| - 1]);
  }

  // --- when an operation succeeds ------------------------------------------------------

  /** A file can be put there: no directory of it is a file, and it is no directory. */
  predicate Free(t: Tree, p: Path) {
    (forall k :: 0 <= k < |p| ==> p[..k] !in t.files) && p !in t.dirs
  }

  /** The directories a path lies in, the root among them. */
  function Parents(p: Path): set<Path> {
    set k | 0 <= k < |p| :: p[..k]
  }

  lemma CreateDirsIs(t: Tree, p: Path)
    requires p != []
    ensures var made := CreateDirs(t, p[..|p| - 1]);
      && (made.Some? <==> forall k :: 0 <= k < |p| ==> p[..k] !in t.files)
      && (made.Some? ==> made.value == t.(dirs := t.dirs + Parents(p)) && (p in made.value.dirs <==> p in t.dirs))
  {
    var up := p[..|p| - 1];
    assert forall k :: 0 <= k <= |up| ==> up[..k] == p[..k];
    if CreateDirs(t, up).Some? {
      var dirs := set k | 0 <= k <= |up| :: up[..k];
      assert forall d :: d in dirs <==> d in Parents(p);
    }
  }

  /** Each error of a write in its order, and when there is none: the entry is there, and so are
      its directories. */
  lemma WriteErrors(f: Format, t: Tree, name: string, plain: string, b: Backend)
    ensures var (after, error) := WriteEntry(f, t, name, plain, b);
      match ResolvedFor(f, t.files, name)
      case Err(e) => error == Some(e)
      case Ok(rs) =>
        match b.refuseEncrypt(plain, rs)
        case Some(e) => error == Some(Crypto(e))
        case None =>
          && error == (if Free(t, FileOf(f, name)) then None else Some(Io))
          && (error == None ==> after.dirs == t.dirs + Parents(FileOf(f, name)))
  {
    hide ResolvedFor, FileOf, CreateDirs;
    CreateDirsIs(t, FileOf(f, name));
  }

  lemma RemoveErrors(f: Format, t: Tree, name: string)
    ensures RemoveEntry(f, t, name).1 ==
      if ".." in Split(name, '/') then Some(SneakyPath)
      else if FileOf(f, name) !in t.files then Some(NotInStore)
      else None
  {
    hide FileOf, IsSneaky, Prune;
    SneakyIsDotDot(name);
  }

  /** What a transfer needs to write the destination: for pass that both sides resolve, and
      where they differ, or for passage always, that the source opens and can be sealed. */
  ghost predicate Transferable(f: Format, files: Files, from: string, to: string, b: Backend)
    requires FileOf(f, from) in files
  {
    var c := files[FileOf(f, from)];
    && (f == Pass ==> Resolve(f, files, from).Ok? && Resolve(f, files, to).Ok?)
    && ((f == Pass && Resolve(f, files, from) == Resolve(f, files, to))
        || (c.Enc? && b.refuseDecrypt(c) == None && ResolvedFor(f, files, to).Ok?
            && b.refuseEncrypt(c.plain, ResolvedFor(f, files, to).value) == None))
  }

  /** A copy or move succeeds exactly when both names are sound, the source is there, a file can
      be put at the destination, and it can be written. Names come first in the errors. */
  lemma TransferErrors(f: Format, t: Tree, from: string, to: string, b: Backend, remove: bool)
    ensures var error := TransferEntry(f, t, from, to, b, remove).1;
      var src, dst := FileOf(f, from), FileOf(f, to);
      if ".." in Split(from, '/') then error == Some(SneakyPath)
      else if src !in t.files then error == Some(NotInStore)
      else if ".." in Split(to, '/') then error == Some(SneakyPath)
      else (error == None <==> Free(t, dst) && Transferable(f, t.files, from, to, b))
  {
    hide FileOf, IsSneaky, CreateDirs, Resolve, ResolvedFor, RemoveEntry;
    var src, dst := FileOf(f, from), FileOf(f, to);
    SneakyIsDotDot(from);
    SneakyIsDotDot(to);
    CreateDirsIs(t, dst);
    if !IsSneaky(from) && src in t.files && CreateDirs(t, dst[..|dst| - 1]).Some? {
      var made := CreateDirs(t, dst[..|dst| - 1]).value;
      if Transferred(f, made.files, from, to, b).Ok? {
        RemovePresent(f, Replace(made, dst, Transferred(f, made.files, from, to, b).value).0, from);
      }
    }
  }

  lemma CopyDirs(f: Format, t: Tree, from: string, to: string, b: Backend)
    requires TransferEntry(f, t, from, to, b, false).1 == None
    ensures TransferEntry(f, t, from, to, b, false).0.dirs == t.dirs + Parents(FileOf(f, to))
  {
    hide FileOf, IsSneaky, CreateDirs, Transferred;
    CreateDirsIs(t, FileOf(f, to));
  }

  /** A move is the copy and then the removal. */
  lemma MoveIsCopyRemove(f: Format, t: Tree, from: string, to: string, b: Backend)
    requires TransferEntry(f, t, from, to, b, false).1 == None
    ensures TransferEntry(f, t, from, to, b, true) == RemoveEntry(f, TransferEntry(f, t, from, to, b, false).0, from)
  {
    hide FileOf, IsSneaky, CreateDirs, Transferred, RemoveEntry;
  }

  lemma RemoveIs(f: Format, t: Tree, name: string)
    ensures var (after, error) := RemoveEntry(f, t, name);
      && (error.Some? ==> after == t)
      && (error.None? ==> FileOf(f, name) in t.files && after.files == t.files - {FileOf(f, name)})
  {
    hide FileOf, Prune, IsSneaky;
    var p := FileOf(f, name);
    PruneFiles(t.(files := t.files - {p}), p[..|p| - 1]);
  }

  function Placed(files: Files, src: Path, dst: Path, c: Content, remove: bool): Files {
    if remove then files[dst := c] - {src} else files[dst := c]
  }

  /** A transfer touches its two files alone, and a failing one none: only a whole copy or
      move ever happens. */
  lemma TransferIs(f: Format, t: Tree, from: string, to: string, b: Backend, remove: bool)
    ensures var (after, error) := TransferEntry(f, t, from, to, b, remove);
      var src, dst := FileOf(f, from), FileOf(f, to);
      && (error.Some? ==> after.files == t.files)
      && (error.None? ==> src in t.files && Transferred(f, t.files, from, to, b).Ok?)
      && (error.None? ==> after.files == Placed(t.files, src, dst, Transferred(f, t.files, from, to, b).value, remove))
  {
    hide FileOf, CreateDirs, IsSneaky, Transferred, RemoveEntry;
    var src, dst := FileOf(f, from), FileOf(f, to);
    CreateDirsFiles(t, dst[..|dst| - 1]);
    if remove && src in t.files && !IsSneaky(from) && CreateDirs(t, dst[..|dst| - 1]).Some? {
      var made := CreateDirs(t, dst[..|dst| - 1]).value;
      if Transferred(f, made.files, from, to, b).Ok? {
        var written := Replace(made, dst, Transferred(f, made.files, from, to, b).value).0;
        RemoveIs(f, written, from);
        RemovePresent(f, written, from);
      }
    }
  }

  lemma RemovePresent(f: Format, t: Tree, name: string)
    requires FileOf(f, name) in t.files && !IsSneaky(name)
    ensures RemoveEntry(f, t, name).1 == None
  {
    hide FileOf, Prune, IsSneaky;
  }

  /** The same bytes, or two ciphertexts of one plaintext. */
  predicate SameSecret(a: Content, b: Content) {
    a == b || (a.Enc? && b.Enc? && a.plain == b.plain)
  }

  /** The plaintext a transfer starts from is the one it ends with. */
  lemma TransferConserves(f: Format, files: Files, from: string, to: string, b: Backend)
    requires FileOf(f, from) in files && Transferred(f, files, from, to, b).Ok? && from != to
    ensures SameSecret(files[FileOf(f, from)], Transferred(f, files, from, to, b).value)
  {
    hide FileOf, Resolve, ResolvedFor;
  }

  /** Moving an entry to another name conserves its plaintext; moving it onto itself deletes
      it. Afterwards the destination exists exactly when the names differ. */
  lemma MoveConserves(f: Format, t: Tree, from: string, to: string, b: Backend)
    requires TransferEntry(f, t, from, to, b, true).1 == None
    ensures var after := TransferEntry(f, t, from, to, b, true).0;
      var src, dst := FileOf(f, from), FileOf(f, to);
      && src in t.files && src !in after.files
      && (dst in after.files <==> from != to)
      && (from != to ==> SameSecret(t.files[src], after.files[dst]))
      && forall p :: p != src && p != dst ==> SameAt(t.files, after.files, p)
  {
    hide FileOf, TransferEntry, Transferred;
    TransferIs(f, t, from, to, b, true);
    if from != to {
      TransferConserves(f, t.files, from, to, b);
      if FileOf(f, from) == FileOf(f, to) {
        FileOfInjective(f, from, to);
      }
    }
  }

  /** A copy leaves the plaintext under the new name and the source as it was, exactly unless
      it is pass copying a nonempty file onto itself. */
  lemma CopyConserves(f: Format, t: Tree, from: string, to: string, b: Backend)
    requires TransferEntry(f, t, from, to, b, false).1 == None
    ensures var after := TransferEntry(f, t, from, to, b, false).0;
      var src, dst := FileOf(f, from), FileOf(f, to);
      && src in t.files && dst in after.files
      && (SameSecret(t.files[src], after.files[dst]) <==> !(f == Pass && from == to && t.files[src] != Plain("")))
      && forall p :: p != dst ==> SameAt(t.files, after.files, p)
  {
    hide FileOf, TransferEntry, Resolve, ResolvedFor;
    TransferIs(f, t, from, to, b, false);
    if from != to {
      TransferConserves(f, t.files, from, to, b);
    }
  }

  // --- every entry for exactly its recipients -------------------------------------------

  /** A listed entry is a ciphertext for exactly the recipients resolved for it. */
  ghost predicate CurrentAt(f: Format, files: Files, name: string) {
    FileOf(f, name) in files && ".git" !in DirOf(name) ==>
      files[FileOf(f, name)].Enc? && ResolvedFor(f, files, name) == Ok(files[FileOf(f, name)].to)
  }

  ghost predicate InSync(f: Format, files: Files) {
    forall name :: CurrentAt(f, files, name)
  }

  datatype Op =
    | Write(name: string, plain: string, backend: Backend)
    | Copy(from: string, to: string, backend: Backend)
    | Move(from: string, to: string, backend: Backend)
    | Remove(name: string)

  function Step(f: Format, t: Tree, op: Op): Tree {
    match op
    case Write(name, plain, b) => WriteEntry(f, t, name, plain, b).0
    case Copy(from, to, b) => TransferEntry(f, t, from, to, b, false).0
    case Move(from, to, b) => TransferEntry(f, t, from, to, b, true).0
    case Remove(name) => RemoveEntry(f, t, name).0
  }

  function Run(f: Format, t: Tree, ops: seq<Op>): Tree
    decreases |ops|
  {
    if ops == [] then t else Run(f, Step(f, t, ops[0]), ops[1..])
  }

  /** pass copies bytes unseen where both names resolve alike, so the source must be a listed
      entry, and a copy must have another name. */
  ghost predicate Sound(f: Format, op: Op) {
    f == Pass && (op.Copy? || op.Move?) ==> ".git" !in DirOf(op.from) && (op.Copy? ==> op.from != op.to)
  }

  lemma PutKeepsSync(f: Format, files: Files, name: string, c: Content)
    requires InSync(f, files)
    requires ".git" !in DirOf(name) ==> c.Enc? && ResolvedFor(f, files, name) == Ok(c.to)
    ensures InSync(f, files[FileOf(f, name) := c])
  {
    hide FileOf, ResolvedFor, DirOf, SameRecipients;
    var after := files[FileOf(f, name) := c];
    EntryKeepsRecipients(f, files, name, c);
    forall n
      ensures CurrentAt(f, after, n)
    {
      assert CurrentAt(f, files, n);
      SameResolved(f, files, after, n);
      if FileOf(f, n) == FileOf(f, name) {
        FileOfInjective(f, n, name);
      }
    }
  }

  lemma DropKeepsSync(f: Format, files: Files, name: string)
    requires InSync(f, files)
    ensures InSync(f, files - {FileOf(f, name)})
  {
    hide FileOf, ResolvedFor, DirOf, SameRecipients;
    var after := files - {FileOf(f, name)};
    EntryKeepsRecipients(f, files, name, Plain(""));
    forall n
      ensures CurrentAt(f, after, n)
    {
      assert CurrentAt(f, files, n);
      SameResolved(f, files, after, n);
    }
  }

  /** What pass copies unseen is already for the right recipients. */
  lemma TransferredIsCurrent(f: Format, files: Files, from: string, to: string, b: Backend)
    requires InSync(f, files) && FileOf(f, from) in files && Transferred(f, files, from, to, b).Ok?
    requires f == Pass ==> ".git" !in DirOf(from) && from != to
    ensures var c := Transferred(f, files, from, to, b).value; c.Enc? && ResolvedFor(f, files, to) == Ok(c.to)
  {
    hide FileOf, Resolve, EncryptionRecipients, DirOf;
    assert CurrentAt(f, files, from);
  }

  /** Where pass copies bytes unseen, the copy is current exactly when the bytes are for the
      resolved recipients. So a source that is not listed, under `.git`, can break the
      invariant. */
  lemma CopiedUnseen(t: Tree, from: string, to: string, b: Backend)
    requires TransferEntry(Pass, t, from, to, b, false).1 == None && from != to && ".git" !in DirOf(to)
    requires Resolve(Pass, t.files, from) == Resolve(Pass, t.files, to)
    ensures FileOf(Pass, from) in t.files
    ensures CurrentAt(Pass, TransferEntry(Pass, t, from, to, b, false).0.files, to) <==>
            t.files[FileOf(Pass, from)].Enc? && ResolvedFor(Pass, t.files, to) == Ok(t.files[FileOf(Pass, from)].to)
  {
    hide FileOf, TransferEntry, ResolvedFor, DirOf, Resolve, SameRecipients;
    TransferIs(Pass, t, from, to, b, false);
    EntryKeepsRecipients(Pass, t.files, to, Transferred(Pass, t.files, from, to, b).value);
    SameResolved(Pass, t.files, TransferEntry(Pass, t, from, to, b, false).0.files, to);
  }

  /** Such a store: copying `.git/x` to `y` leaves `y` listed and not even a ciphertext. */
  lemma GitCopyBreaks(b: Backend)
    ensures var gpgId, hidden := [".gpg-id"], [".git", "x.gpg"];
      var t := Tree(map[gpgId := Plain("A\n"), hidden := Plain("junk")], {[], [".git"]});
      InSync(Pass, t.files) && !InSync(Pass, Step(Pass, t, Copy(".git/x", "y", b)).files)
  {
    hide InSync, Resolve, TransferEntry, FileOf, DirOf;
    var gpgId, hidden := [".gpg-id"], [".git", "x.gpg"];
    var t := Tree(map[gpgId := Plain("A\n"), hidden := Plain("junk")], {[], [".git"]});
    GitNames();
    OnlyHidden(t.files);
    GitResolves(t.files);
    GitCopies(t, b);
    CopiedUnseen(t, ".git/x", "y", b);
    SyncMeans(Step(Pass, t, Copy(".git/x", "y", b)).files, "y");
  }

  lemma SyncMeans(files: Files, name: string)
    ensures InSync(Pass, files) ==> CurrentAt(Pass, files, name)
  {
  }

  lemma GitNames()
    ensures FileOf(Pass, ".git/x") == [".git", "x.gpg"] && DirOf(".git/x") == [".git"] && !IsSneaky(".git/x")
    ensures FileOf(Pass, "y") == ["y.gpg"] && DirOf("y") == [] && !IsSneaky("y")
  {
    hide FileOf, DirOf, IsSneaky;
    TwoParts(".git", "x");
    OnePart("y");
    assert "x" + ".gpg" == "x.gpg" && "y" + ".gpg" == "y.gpg" && ".git" + "/" + "x" == ".git/x";
  }

  lemma TwoParts(a: string, b: string)
    requires '/' !in a && '/' !in b && a != ".." && b != ".."
    ensures var n := a + "/" + b;
      FileOf(Pass, n) == [a, b + ".gpg"] && DirOf(n) == [a] && !IsSneaky(n)
  {
    hide IsSneaky, Split;
    SplitConcat(a, '/', b);
    SplitNone(a, '/');
    SplitNone(b, '/');
    SneakyIsDotDot(a + "/" + b);
    assert [a] + [b] == [a, b] && [a, b][..1] == [a];
  }

  lemma OnePart(a: string)
    requires '/' !in a && a != ".."
    ensures FileOf(Pass, a) == [a + ".gpg"] && DirOf(a) == [] && !IsSneaky(a)
  {
    hide IsSneaky, Split;
    SplitNone(a, '/');
    SneakyIsDotDot(a);
    assert [a][..0] == [];
  }

  lemma OnlyHidden(files: Files)
    requires files.Keys == {[".gpg-id"], [".git", "x.gpg"]}
    ensures InSync(Pass, files)
  {
    hide FileOf, DirOf;
    forall n
      ensures CurrentAt(Pass, files, n)
    {
      EntryIsNoRecipients(Pass, n, []);
      assert [] + [RecipientsName(Pass)] == [".gpg-id"];
      FileIsEntry(Pass, n);
    }
  }

  lemma GitResolves(files: Files)
    requires files.Keys == {[".gpg-id"], [".git", "x.gpg"]} && files[[".gpg-id"]] == Plain("A\n")
    ensures Resolve(Pass, files, ".git/x") == Resolve(Pass, files, "y") && Resolve(Pass, files, "y").Ok?
  {
    hide DirOf, FileOf, GpgIds;
    GitNames();
    assert [".git"][..0] == [];
    assert NearestFrom(Pass, files, [".git"]) == NearestFrom(Pass, files, []) by {
      assert [".git"] + [RecipientsName(Pass)] == [".git", ".gpg-id"];
    }
    assert [] + [RecipientsName(Pass)] == [".gpg-id"];
    AsciiIsUtf8("A\n");
  }

  lemma GitCopies(t: Tree, b: Backend)
    requires t.files.Keys == {[".gpg-id"], [".git", "x.gpg"]} && t.dirs == {[], [".git"]}
    requires Resolve(Pass, t.files, ".git/x") == Resolve(Pass, t.files, "y") && Resolve(Pass, t.files, "y").Ok?
    ensures TransferEntry(Pass, t, ".git/x", "y", b, false).1 == None
  {
    hide FileOf, DirOf, Resolve, IsSneaky;
    GitNames();
    assert ["y.gpg"][..0] == [];
    assert [] !in t.files;
    assert ["y.gpg"] !in {[], [".git"]} by { assert |[".git"]| == 1 && ["y.gpg"][0] == "y.gpg" && [".git"][0] == ".git"; }
  }

  lemma StepKeepsSync(f: Format, t: Tree, op: Op)
    requires InSync(f, t.files) && Sound(f, op)
    ensures InSync(f, Step(f, t, op).files)
  {
    hide InSync, WriteEntry, TransferEntry, RemoveEntry, FileOf, ResolvedFor, DirOf, Transferred;
    match op
    case Write(name, plain, b) =>
      WriteIs(f, t, name, plain, b);
      if WriteEntry(f, t, name, plain, b).1 == None {
        PutKeepsSync(f, t.files, name, Ciphertext(b, plain, ResolvedFor(f, t.files, name).value));
      }
    case Remove(name) =>
      RemoveIs(f, t, name);
      DropKeepsSync(f, t.files, name);
    case Copy(from, to, b) => TransferKeepsSync(f, t, from, to, b, false);
    case Move(from, to, b) => TransferKeepsSync(f, t, from, to, b, true);
  }

  lemma TransferKeepsSync(f: Format, t: Tree, from: string, to: string, b: Backend, remove: bool)
    requires InSync(f, t.files)
    requires f == Pass ==> ".git" !in DirOf(from) && (!remove ==> from != to)
    ensures InSync(f, TransferEntry(f, t, from, to, b, remove).0.files)
  {
    hide InSync, TransferEntry, FileOf, ResolvedFor, DirOf, Transferred;
    TransferIs(f, t, from, to, b, remove);
    if TransferEntry(f, t, from, to, b, remove).1 == None {
      var src, dst, c := FileOf(f, from), FileOf(f, to), Transferred(f, t.files, from, to, b).value;
      if from == to && f == Pass {
        DropKeepsSync(f, t.files, from);
        assert t.files[dst := c] - {src} == t.files - {src};
      } else {
        TransferredIsCurrent(f, t.files, from, to, b);
        PutKeepsSync(f, t.files, to, c);
        DropKeepsSync(f, t.files[dst := c], from);
      }
    }
  }

  /** Any run of writes, copies, moves and removals, failing ones included, keeps every listed
      entry encrypted for exactly the recipients resolved for it. */
  lemma {:induction false} RunKeepsSync(f: Format, t: Tree, ops: seq<Op>)
    requires InSync(f, t.files) && forall i :: 0 <= i < |ops| ==> Sound(f, ops[i])
    ensures InSync(f, Run(f, t, ops).files)
    decreases |ops|
  {
    hide InSync, Step, Sound;
    if ops != [] {
      StepKeepsSync(f, t, ops[0]);
      RunKeepsSync(f, Step(f, t, ops[0]), ops[1..]);
    }
  }

  /** And no such run changes what any name resolves to. */
  lemma StepKeepsResolution(f: Format, t: Tree, op: Op, name: string)
    ensures ResolvedFor(f, Step(f, t, op).files, name) == ResolvedFor(f, t.files, name)
  {
    hide ResolvedFor, WriteEntry, TransferEntry, RemoveEntry, FileOf, Transferred, SameRecipients;
    SameSelf(f, t.files);
    var after := Step(f, t, op).files;
    match op
    case Write(n, plain, b) =>
      WriteIs(f, t, n, plain, b);
      if after != t.files { EntryKeepsRecipients(f, t.files, n, Ciphertext(b, plain, ResolvedFor(f, t.files, n).value)); }
      SameResolved(f, t.files, after, name);
    case Remove(n) =>
      RemoveIs(f, t, n);
      EntryKeepsRecipients(f, t.files, n, Plain(""));
      SameResolved(f, t.files, after, name);
    case Copy(from, to, b) => TransferKeepsResolution(f, t, from, to, b, false, name);
    case Move(from, to, b) => TransferKeepsResolution(f, t, from, to, b, true, name);
  }

  lemma SameSelf(f: Format, files: Files)
    ensures SameRecipients(f, files, files)
  {
  }

  lemma TransferKeepsResolution(f: Format, t: Tree, from: string, to: string, b: Backend, remove: bool, name: string)
    ensures ResolvedFor(f, TransferEntry(f, t, from, to, b, remove).0.files, name) == ResolvedFor(f, t.files, name)
  {
    hide ResolvedFor, TransferEntry, FileOf, Transferred, SameRecipients;
    TransferIs(f, t, from, to, b, remove);
    if TransferEntry(f, t, from, to, b, remove).1 == None {
      var copied := t.files[FileOf(f, to) := Transferred(f, t.files, from, to, b).value];
      EntryKeepsRecipients(f, t.files, to, Transferred(f, t.files, from, to, b).value);
      EntryKeepsRecipients(f, copied, from, Plain(""));
      SameResolved(f, t.files, copied, name);
      SameResolved(f, copied, copied - {FileOf(f, from)}, name);
    }
  }

  lemma {:induction false} RunKeepsResolution(f: Format, t: Tree, ops: seq<Op>, name: string)
    ensures ResolvedFor(f, Run(f, t, ops).files, name) == ResolvedFor(f, t.files, name)
    decreases |ops|
  {
    hide ResolvedFor, Step;
    if ops != [] {
      StepKeepsResolution(f, t, ops[0], name);
      RunKeepsResolution(f, Step(f, t, ops[0]), ops[1..], name);
    }
  }

  /** Where one operation does break the invariant: pass copies bytes unseen to a listed name,
      and they are not for that name's recipients, or are a file copied onto itself. */
  predicate Breaks(f: Format, t: Tree, op: Op) {
    && f == Pass && (op.Copy? || op.Move?)
    && TransferEntry(f, t, op.from, op.to, op.backend, op.Move?).1 == None
    && Resolve(f, t.files, op.from) == Resolve(f, t.files, op.to) && ".git" !in DirOf(op.to)
    && FileOf(f, op.from) in t.files
    && if op.from == op.to then op.Copy?
       else !IsFor(f, t.files, op.to, t.files[FileOf(f, op.from)])
  }

  predicate IsFor(f: Format, files: Files, name: string, c: Content) {
    c.Enc? && ResolvedFor(f, files, name) == Ok(c.to)
  }

  /** Exactly: from a store in which every entry is current, an operation leaves them so unless
      it is one of these, a move out of `.git` among them. */
  lemma StepSyncIff(f: Format, t: Tree, op: Op)
    requires InSync(f, t.files)
    ensures InSync(f, Step(f, t, op).files) <==> !Breaks(f, t, op)
  {
    hide InSync, WriteEntry, TransferEntry, RemoveEntry, FileOf, ResolvedFor, DirOf, Transferred, Resolve;
    match op
    case Write(name, plain, b) => StepKeepsSync(f, t, op);
    case Remove(name) => StepKeepsSync(f, t, op);
    case Copy(from, to, b) => TransferSyncIff(f, t, op, from, to, b, false);
    case Move(from, to, b) => TransferSyncIff(f, t, op, from, to, b, true);
  }

  lemma TransferSyncIff(f: Format, t: Tree, op: Op, from: string, to: string, b: Backend, remove: bool)
    requires InSync(f, t.files) && op == if remove then Move(from, to, b) else Copy(from, to, b)
    ensures InSync(f, TransferEntry(f, t, from, to, b, remove).0.files) <==> !Breaks(f, t, op)
  {
    hide InSync, TransferEntry, FileOf, ResolvedFor, DirOf, Transferred, Resolve;
    TransferIs(f, t, from, to, b, remove);
    if TransferEntry(f, t, from, to, b, remove).1 == None {
      var src, dst, c := FileOf(f, from), FileOf(f, to), Transferred(f, t.files, from, to, b).value;
      TransferredBytes(f, t.files, from, to, b);
      if from == to && remove {
        DropKeepsSync(f, t.files, from);
        assert t.files[dst := c] - {src} == t.files - {src};
      } else {
        var after := t.files[dst := c];
        if IsFor(f, t.files, to, c) || ".git" in DirOf(to) {
          PutKeepsSync(f, t.files, to, c);
          DropKeepsSync(f, after, from);
        } else {
          assert Breaks(f, t, op);
          if from != to && src == dst { FileOfInjective(f, from, to); }
          NotSynced(f, t.files, from, to, c, remove);
        }
      }
    }
  }

  /** What is written is for the destination's recipients, but where pass copies unseen. */
  lemma TransferredBytes(f: Format, files: Files, from: string, to: string, b: Backend)
    requires FileOf(f, from) in files && Transferred(f, files, from, to, b).Ok?
    ensures var c := Transferred(f, files, from, to, b).value;
      if f == Pass && Resolve(f, files, from) == Resolve(f, files, to) then
        c == if from == to then Plain("") else files[FileOf(f, from)]
      else IsFor(f, files, to, c)
  {
    hide FileOf, ResolvedFor, Resolve;
  }

  lemma NotSynced(f: Format, files: Files, from: string, to: string, c: Content, remove: bool)
    requires ".git" !in DirOf(to) && !IsFor(f, files, to, c)
    requires remove ==> FileOf(f, from) != FileOf(f, to)
    ensures !InSync(f, Placed(files, FileOf(f, from), FileOf(f, to), c, remove))
  {
    hide FileOf, ResolvedFor, DirOf, SameRecipients;
    var copied := files[FileOf(f, to) := c];
    var after := Placed(files, FileOf(f, from), FileOf(f, to), c, remove);
    EntryKeepsRecipients(f, files, to, c);
    EntryKeepsRecipients(f, copied, from, c);
    SameResolved(f, files, copied, to);
    SameResolved(f, copied, copied - {FileOf(f, from)}, to);
    assert !CurrentAt(f, after, to);
  }

  // --- onto itself -------------------------------------------------------------------

  function Willing(): Backend {
    Backend((p, to) => None, c => None, (p, to) => 0)
  }

  /** A passage entry moved onto itself, without error: it is gone. */
  lemma MovedOntoItself()
    ensures var t := Tree(map[["a.age"] := Enc("p", [], 1)], {[]});
      var (after, error) := TransferEntry(Passage, t, "a", "a", Willing(), true);
      error == None && after.files == map[]
  {
    hide FileOf, DirOf, IsSneaky, ResolvedFor, RemoveEntry;
    var t := Tree(map[["a.age"] := Enc("p", [], 1)], {[]});
    var b := Willing();
    OneName(Passage, "a");
    assert "a" + ".age" == "a.age" && ["a.age"][..0] == [];
    NoRecipientsFile(t.files);
    var made := CreateDirs(t, []);
    assert made.Some? && made.value.files == t.files && ["a.age"] !in made.value.dirs by { RootMade(t, "a.age"); }
    assert Transferred(Passage, t.files, "a", "a", b) == Ok(Enc("p", [], 0));
    var written := Replace(made.value, ["a.age"], Enc("p", [], 0)).0;
    RemovePresent(Passage, written, "a");
    RemoveIs(Passage, written, "a");
    assert written.files - {["a.age"]} == map[];
  }

  lemma OneName(f: Format, a: string)
    requires '/' !in a && a != ".."
    ensures FileOf(f, a) == [a + Extension(f)] && DirOf(a) == [] && !IsSneaky(a)
  {
    hide IsSneaky, Split;
    SplitNone(a, '/');
    SneakyIsDotDot(a);
    assert [a][..0] == [];
  }

  lemma RootMade(t: Tree, file: string)
    requires t.dirs == {[]} && [] !in t.files
    ensures CreateDirs(t, []).Some? && CreateDirs(t, []).value.files == t.files && [file] !in CreateDirs(t, []).value.dirs
  {
    var root: Path := [];
    assert forall k :: 0 <= k <= 0 ==> root[..k] == root;
  }

  lemma NoRecipientsFile(files: Files)
    requires files.Keys == {["a.age"]}
    ensures ResolvedFor(Passage, files, "a") == Ok([])
  {
    hide IsSneaky, FileOf;
    OneName(Passage, "a");
    assert [] + [".age-recipients"] == [".age-recipients"];
    assert |".age-recipients"| != |"a.age"|;
    assert [".age-recipients"][0] != ["a.age"][0];
  }

  /** A pass entry copied onto itself, without error: it is empty. */
  lemma CopiedOntoItself()
    ensures var t := Tree(map[[".gpg-id"] := Plain("A\n"), ["a.gpg"] := Enc("p", ["A"], 1)], {[]});
      var (after, error) := TransferEntry(Pass, t, "a", "a", Willing(), false);
      error == None && after.files == t.files[["a.gpg"] := Plain("")]
  {
    hide FileOf, DirOf, IsSneaky, Resolve;
    var t := Tree(map[[".gpg-id"] := Plain("A\n"), ["a.gpg"] := Enc("p", ["A"], 1)], {[]});
    OneName(Pass, "a");
    assert "a" + ".gpg" == "a.gpg" && ["a.gpg"][..0] == [];
    RootMade(t, "a.gpg");
    assert Resolve(Pass, t.files, "a").Ok? by { RootIds(t.files); }
  }

  lemma RootIds(files: Files)
    requires [".gpg-id"] in files && files[[".gpg-id"]] == Plain("A\n")
    ensures Resolve(Pass, files, "a").Ok?
  {
    hide IsSneaky, DirOf, FileOf, GpgIds;
    OneName(Pass, "a");
    assert [] + [RecipientsName(Pass)] == [".gpg-id"];
    AsciiIsUtf8("A\n");
  }

  // --- re-encrypting -----------------------------------------------------------------

  /** Every listed name, hidden ones included, in byte order. */
  function Entries(f: Format, files: Files): seq<string> {
    Sorted(set p | p in files && IsEntryFile(f, p) :: NameOf(f, p))
  }

  lemma EntriesAre(f: Format, files: Files, name: string)
    ensures name in Entries(f, files) <==> FileOf(f, name) in files && ".git" !in DirOf(name)
  {
    hide FileOf, NameOf, IsEntryFile, DirOf, Sorted;
    var names := set p | p in files && IsEntryFile(f, p) :: NameOf(f, p);
    assert name in Entries(f, files) <==> name in names;
    FileIsEntry(f, name);
    if name in names {
      var p :| p in files && IsEntryFile(f, p) && name == NameOf(f, p);
      FileOfName(f, p);
    }
    if FileOf(f, name) in files && IsEntryFile(f, FileOf(f, name)) {
      FileOfName(f, FileOf(f, name));
      FileOfInjective(f, NameOf(f, FileOf(f, name)), name);
      assert NameOf(f, FileOf(f, name)) in names;
    }
  }

  function TrimSlashes(s: string): string {
    if s != "" && s[|s| - 1] == '/' then TrimSlashes(s[..|s| - 1]) else s
  }

  function UnderPrefix(names: seq<string>, prefix: string): seq<string> {
    if names == [] then []
    else (if prefix <= names[0] then [names[0]] else []) + UnderPrefix(names[1..], prefix)
  }

  function Targets(f: Format, files: Files, subpath: string): Result<seq<string>, StoreError> {
    if IsSneaky(subpath) then Err(SneakyPath)
    else Ok(UnderPrefix(Entries(f, files), if subpath == "" then "" else TrimSlashes(subpath) + "/"))
  }

  lemma {:induction false} UnderPrefixIs(names: seq<string>, prefix: string, n: string)
    ensures n in UnderPrefix(names, prefix) <==> n in names && prefix <= n
  {
    if names != [] {
      UnderPrefixIs(names[1..], prefix, n);
      assert n in names <==> n == names[0] || n in names[1..];
    }
  }

  /** Slashes at the end of a subpath do not count. */
  lemma {:induction false} TrimSlashesIs(base: string, slashes: string)
    requires (base != "" ==> base[|base| - 1] != '/') && forall i :: 0 <= i < |slashes| ==> slashes[i] == '/'
    ensures TrimSlashes(base + slashes) == base
    decreases |slashes|
  {
    var s := base + slashes;
    if slashes == "" {
      assert s == base;
    } else {
      var less := slashes[..|slashes| - 1];
      assert s[..|s| - 1] == base + less;
      TrimSlashesIs(base, less);
    }
  }

  /** The targets are the listed names below the subpath, all of them where it is empty, however
      many slashes end it. */
  lemma TargetsAre(f: Format, files: Files, base: string, slashes: string, n: string)
    requires (base != "" ==> base[|base| - 1] != '/') && forall i :: 0 <= i < |slashes| ==> slashes[i] == '/'
    ensures var subpath := base + slashes; var targets := Targets(f, files, subpath);
      if ".." in Split(subpath, '/') then targets == Err(SneakyPath)
      else targets.Ok? && (n in targets.value <==>
        FileOf(f, n) in files && ".git" !in DirOf(n) && (subpath == "" || base + "/" <= n))
  {
    hide FileOf, DirOf, IsSneaky, Entries, TrimSlashes, UnderPrefix;
    var subpath := base + slashes;
    SneakyIsDotDot(subpath);
    TrimSlashesIs(base, slashes);
    EntriesAre(f, files, n);
    UnderPrefixIs(Entries(f, files), if subpath == "" then "" else base + "/", n);
  }

  /** In the order they are listed. */
  lemma {:induction false} UnderPrefixConcat(a: seq<string>, b: seq<string>, prefix: string)
    ensures UnderPrefix(a + b, prefix) == UnderPrefix(a, prefix) + UnderPrefix(b, prefix)
  {
    hide UnderPrefix;
    if a == [] {
      assert a + b == b;
      UnderNothing(prefix);
    } else {
      UnderPrefixConcat(a[1..], b, prefix);
      assert (a + b)[1..] == a[1..] + b && (a + b)[0] == a[0];
      UnderStep(a, prefix);
      UnderStep(a + b, prefix);
    }
  }

  lemma UnderNothing(prefix: string)
    ensures UnderPrefix([], prefix) == []
  {
  }

  lemma UnderStep(names: seq<string>, prefix: string)
    requires names != []
    ensures UnderPrefix(names, prefix) == (if prefix <= names[0] then [names[0]] else []) + UnderPrefix(names[1..], prefix)
  {
  }

  /** One entry's new ciphertext. */
  function Reencrypted(f: Format, files: Files, name: string, b: Backend): Result<Content, StoreError> {
    var p := FileOf(f, name);
    if IsSneaky(name) then Err(SneakyPath)
    else if p !in files then Err(Io)
    else match Decrypt(b, files[p])
      case Err(e) => Err(e)
      case Ok(plain) => Sealed(f, files, name, plain, b)
  }

  /** An entry this device's keys cannot open. */
  predicate Unreadable(f: Format, files: Files, name: string, b: Backend) {
    && !IsSneaky(name) && FileOf(f, name) in files
    && Decrypt(b, files[FileOf(f, name)]) in {Err(Crypto(DecryptionFailed)), Err(Crypto(NoUsableKey))}
  }

  /** What that needs. */
  lemma UnreadableMeans(f: Format, files: Files, name: string, b: Backend)
    ensures Unreadable(f, files, name, b) <==>
      && ".." !in Split(name, '/') && FileOf(f, name) in files
      && var c := files[FileOf(f, name)];
         match b.refuseDecrypt(c) case Some(e) => e == DecryptionFailed || e == NoUsableKey case None => c.Plain?
  {
    hide FileOf, IsSneaky;
    SneakyIsDotDot(name);
  }

  /** What re-encrypting one listed entry comes to: each error in its order. */
  lemma ReencryptedErrors(f: Format, files: Files, name: string, b: Backend)
    requires ".." !in Split(name, '/') && FileOf(f, name) in files
    ensures var c, r := files[FileOf(f, name)], Reencrypted(f, files, name, b);
      match b.refuseDecrypt(c)
      case Some(e) => r == Err(Crypto(e))
      case None =>
        if c.Plain? then r == Err(Crypto(DecryptionFailed))
        else match ResolvedFor(f, files, name)
          case Err(e) => r == Err(e)
          case Ok(rs) =>
            match b.refuseEncrypt(c.plain, rs)
            case Some(e) => r == Err(Crypto(e))
            case None => r == Ok(Enc(c.plain, rs, b.salt(c.plain, rs)))
  {
    hide FileOf, IsSneaky, ResolvedFor;
    SneakyIsDotDot(name);
  }

  /** Entry after entry; the first error stops, or with `skip` the unreadable are passed over.
      The files, what was rewritten, how many were skipped, the error. */
  function ReencryptAll(f: Format, t: Tree, names: seq<string>, b: Backend, skip: bool)
    : (Tree, seq<string>, nat, Option<StoreError>)
    decreases |names|
  {
    if names == [] then (t, [], 0, None)
    else if skip && Unreadable(f, t.files, names[0], b) then
      var (after, done, skipped, error) := ReencryptAll(f, t, names[1..], b, skip);
      (after, done, skipped + 1, error)
    else match Reencrypted(f, t.files, names[0], b)
      case Err(e) => (t, [], 0, Some(e))
      case Ok(c) =>
        var (next, failed) := Replace(t, FileOf(f, names[0]), c);
        if failed.Some? then (next, [], 0, failed)
        else
          var (after, done, skipped, error) := ReencryptAll(f, next, names[1..], b, skip);
          (after, [names[0]] + done, skipped, error)
  }

  /** One entry of a run: passed over, an error that stops it, or rewritten. */
  lemma ReencryptOne(f: Format, t: Tree, name: string, b: Backend, skip: bool)
    ensures ReencryptAll(f, t, [name], b, skip) ==
      if skip && Unreadable(f, t.files, name, b) then (t, [], 1, None)
      else match Reencrypted(f, t.files, name, b)
        case Err(e) => (t, [], 0, Some(e))
        case Ok(c) =>
          if FileOf(f, name) in t.dirs then (t, [], 0, Some(Io))
          else (t.(files := t.files[FileOf(f, name) := c]), [name], 0, None)
  {
    hide FileOf, Unreadable, Reencrypted;
    assert [name][1..] == [];
    assert [name] + [] == [name];
  }

  /** A run is its parts one after another, and the first error ends it with what was done
      before. */
  lemma {:induction false} ReencryptConcat(f: Format, t: Tree, a: seq<string>, c: seq<string>, b: Backend, skip: bool)
    ensures var (mid, done, skipped, error) := ReencryptAll(f, t, a, b, skip);
      ReencryptAll(f, t, a + c, b, skip) ==
        if error.Some? then (mid, done, skipped, error)
        else var (after, more, others, last) := ReencryptAll(f, mid, c, b, skip); (after, done + more, skipped + others, last)
    decreases |a|
  {
    hide FileOf, Unreadable, Reencrypted;
    if a == [] {
      assert a + c == c;
      assert [] + ReencryptAll(f, t, c, b, skip).1 == ReencryptAll(f, t, c, b, skip).1;
    } else {
      assert (a + c)[1..] == a[1..] + c && (a + c)[0] == a[0];
      if skip && Unreadable(f, t.files, a[0], b) {
        ReencryptConcat(f, t, a[1..], c, b, skip);
      } else if Reencrypted(f, t.files, a[0], b).Ok? && FileOf(f, a[0]) !in t.dirs {
        var next := t.(files := t.files[FileOf(f, a[0]) := Reencrypted(f, t.files, a[0], b).value]);
        ReencryptConcat(f, next, a[1..], c, b, skip);
        var (mid, done, _, _) := ReencryptAll(f, next, a[1..], b, skip);
        var more := ReencryptAll(f, mid, c, b, skip).1;
        assert [a[0]] + (done + more) == ([a[0]] + done) + more;
      }
    }
  }

  /** Same plaintext behind every entry, and every other file byte for byte. */
  ghost predicate SamePlain(a: Files, b: Files) {
    && a.Keys == b.Keys
    && forall p :: p in a ==> SameSecret(a[p], b[p])
  }

  lemma SamePlainTransitive(a: Files, b: Files, c: Files)
    requires SamePlain(a, b) && SamePlain(b, c)
    ensures SamePlain(a, c)
  {
  }

  lemma ReencryptedIs(f: Format, files: Files, name: string, b: Backend)
    requires Reencrypted(f, files, name, b).Ok?
    ensures var p, c := FileOf(f, name), Reencrypted(f, files, name, b).value;
      && p in files && files[p].Enc? && c == Ciphertext(b, files[p].plain, c.to)
      && ResolvedFor(f, files, name) == Ok(c.to)
      && SamePlain(files, files[p := c]) && SameRecipients(f, files, files[p := c])
  {
    hide FileOf, IsSneaky, ResolvedFor, SameRecipients;
    EntryKeepsRecipients(f, files, name, Reencrypted(f, files, name, b).value);
  }

  /** Wherever it stops, every entry has its old plaintext, the recipients files are as they
      were, and nothing but a rewritten name's file has changed. */
  lemma {:induction false} ReencryptConserves(f: Format, t: Tree, names: seq<string>, b: Backend, skip: bool)
    ensures var (after, done, skipped, error) := ReencryptAll(f, t, names, b, skip);
      && after.dirs == t.dirs
      && SamePlain(t.files, after.files) && SameRecipients(f, t.files, after.files)
      && (forall p :: p in t.files && (forall n :: n in done ==> FileOf(f, n) != p) ==> after.files[p] == t.files[p])
      && (forall n :: n in done ==> n in names)
      && (error == None ==> |done| + skipped == |names|)
    decreases |names|
  {
    hide FileOf, Reencrypted, Unreadable, SamePlain, SameRecipients;
    SameSelf(f, t.files);
    SamePlainSelf(t.files);
    if names != [] {
      var n := names[0];
      if skip && Unreadable(f, t.files, n, b) {
        ReencryptConserves(f, t, names[1..], b, skip);
      } else if Reencrypted(f, t.files, n, b).Ok? && FileOf(f, n) !in t.dirs {
        var c := Reencrypted(f, t.files, n, b).value;
        var next := t.(files := t.files[FileOf(f, n) := c]);
        ReencryptedIs(f, t.files, n, b);
        ReencryptConserves(f, next, names[1..], b, skip);
        var (after, done, skipped, error) := ReencryptAll(f, next, names[1..], b, skip);
        SamePlainTransitive(t.files, next.files, after.files);
        SameRecipientsTransitive(f, t.files, next.files, after.files);
        forall p | p in t.files && forall m :: m in [n] + done ==> FileOf(f, m) != p
          ensures after.files[p] == t.files[p]
        {
          assert n in [n] + done;
          assert forall m :: m in done ==> m in [n] + done;
        }
      }
    }
  }

  lemma SamePlainSelf(files: Files)
    ensures SamePlain(files, files)
  {
  }

  lemma SameRecipientsTransitive(f: Format, a: Files, b: Files, c: Files)
    requires SameRecipients(f, a, b) && SameRecipients(f, b, c)
    ensures SameRecipients(f, a, c)
  {
    forall dir: Path
      ensures SameAt(a, c, dir + [RecipientsName(f)])
    {
      assert SameAt(a, b, dir + [RecipientsName(f)]) && SameAt(b, c, dir + [RecipientsName(f)]);
    }
  }

  /** Each rewritten entry ends for exactly its resolved recipients, even when a later entry
      stopped the run. */
  lemma {:induction false} ReencryptCurrent(f: Format, t: Tree, names: seq<string>, b: Backend, skip: bool, n: string)
    requires n in ReencryptAll(f, t, names, b, skip).1
    ensures var files := ReencryptAll(f, t, names, b, skip).0.files;
      FileOf(f, n) in files && files[FileOf(f, n)].Enc?
      && ResolvedFor(f, files, n) == Ok(files[FileOf(f, n)].to)
    decreases |names|
  {
    hide FileOf, Reencrypted, Unreadable, ResolvedFor, SamePlain, SameRecipients;
    if skip && Unreadable(f, t.files, names[0], b) {
      ReencryptCurrent(f, t, names[1..], b, skip, n);
    } else {
      var c := Reencrypted(f, t.files, names[0], b).value;
      var next := t.(files := t.files[FileOf(f, names[0]) := c]);
      var (after, done, _, _) := ReencryptAll(f, next, names[1..], b, skip);
      if n in done {
        ReencryptCurrent(f, next, names[1..], b, skip, n);
      } else {
        assert n == names[0];
        ReencryptedIs(f, t.files, n, b);
        ReencryptConserves(f, next, names[1..], b, skip);
        SameResolved(f, t.files, next.files, n);
        SameResolved(f, next.files, after.files, n);
        forall m | m in done
          ensures FileOf(f, m) != FileOf(f, n)
        {
          if FileOf(f, m) == FileOf(f, n) { FileOfInjective(f, m, n); }
        }
        assert FileOf(f, n) in after.files by { SamePlainKeys(next.files, after.files, FileOf(f, n)); }
      }
    }
  }

  lemma SamePlainKeys(a: Files, b: Files, p: Path)
    requires SamePlain(a, b)
    ensures p in a <==> p in b
  {
  }

  /** Without skipping, a run with no error rewrites every name. */
  lemma {:induction false} ReencryptDoesAll(f: Format, t: Tree, names: seq<string>, b: Backend)
    requires ReencryptAll(f, t, names, b, false).3 == None
    ensures ReencryptAll(f, t, names, b, false).1 == names
    decreases |names|
  {
    hide FileOf, Reencrypted;
    if names != [] {
      var c := Reencrypted(f, t.files, names[0], b).value;
      ReencryptDoesAll(f, t.(files := t.files[FileOf(f, names[0]) := c]), names[1..], b);
      assert [names[0]] + names[1..] == names;
    }
  }

  /** After any change to the recipients files, or from any state at all, a successful
      re-encryption of the whole store makes every listed entry current, and no plaintext is
      lost. */
  lemma SubtreeRestores(f: Format, t: Tree, b: Backend)
    requires Targets(f, t.files, "").Ok?
    requires ReencryptAll(f, t, Targets(f, t.files, "").value, b, false).3 == None
    ensures var after := ReencryptAll(f, t, Targets(f, t.files, "").value, b, false).0;
      InSync(f, after.files) && SamePlain(t.files, after.files)
  {
    hide FileOf, ResolvedFor, DirOf, IsSneaky, ReencryptAll, Entries, SamePlain;
    var names := Targets(f, t.files, "").value;
    var after := ReencryptAll(f, t, names, b, false).0;
    ReencryptConserves(f, t, names, b, false);
    ReencryptDoesAll(f, t, names, b);
    forall n
      ensures CurrentAt(f, after.files, n)
    {
      SamePlainKeys(t.files, after.files, FileOf(f, n));
      EntriesAre(f, t.files, n);
      UnderPrefixIs(Entries(f, t.files), "", n);
      if n in names {
        ReencryptCurrent(f, t, names, b, false, n);
      }
    }
  }

  /** Rewritten and skipped partition the targets, in order; what is skipped is untouched and
      was unreadable. */
  lemma {:induction false} ReadablePartition(f: Format, t: Tree, names: seq<string>, b: Backend, n: string)
    requires forall i, j :: 0 <= i < j < |names| ==> names[i] != names[j]
    requires ReencryptAll(f, t, names, b, true).3 == None && n in names
    ensures var (after, done, _, _) := ReencryptAll(f, t, names, b, true);
      (n in done <==> !Unreadable(f, t.files, n, b))
      && (n !in done ==> SameAt(t.files, after.files, FileOf(f, n)))
    decreases |names|
  {
    hide FileOf, Reencrypted, Unreadable, SamePlain, SameRecipients;
    ReencryptConserves(f, t, names, b, true);
    var m := names[0];
    assert n != m ==> n in names[1..];
    if Unreadable(f, t.files, m, b) {
      UnreadableIs(f, t.files, m, b);
      ReencryptConserves(f, t, names[1..], b, true);
      if n != m {
        ReadablePartition(f, t, names[1..], b, n);
      } else {
        assert m !in names[1..];
        NotDone(f, t, names[1..], b, true, m);
      }
    } else {
      var c := Reencrypted(f, t.files, m, b).value;
      var next := t.(files := t.files[FileOf(f, m) := c]);
      ReencryptedIs(f, t.files, m, b);
      if n != m {
        if FileOf(f, n) == FileOf(f, m) { FileOfInjective(f, n, m); }
        ReadablePartition(f, next, names[1..], b, n);
        SameUnreadable(f, t.files, next.files, n, b);
      }
    }
  }

  lemma NotDone(f: Format, t: Tree, names: seq<string>, b: Backend, skip: bool, m: string)
    requires m !in names
    ensures var (after, done, _, _) := ReencryptAll(f, t, names, b, skip);
      m !in done && SameAt(t.files, after.files, FileOf(f, m))
  {
    hide FileOf, ReencryptAll, SamePlain, SameRecipients;
    ReencryptConserves(f, t, names, b, skip);
    var (after, done, _, _) := ReencryptAll(f, t, names, b, skip);
    SamePlainKeys(t.files, after.files, FileOf(f, m));
    forall n | n in done
      ensures FileOf(f, n) != FileOf(f, m)
    {
      if FileOf(f, n) == FileOf(f, m) { FileOfInjective(f, n, m); }
    }
  }

  /** An entry outside the subpath is untouched, whether the run succeeds or stops. */
  lemma OutsideUntouched(f: Format, t: Tree, subpath: string, b: Backend, skip: bool, n: string)
    requires Targets(f, t.files, subpath).Ok? && subpath != "" && !(TrimSlashes(subpath) + "/" <= n)
    ensures SameAt(t.files, ReencryptAll(f, t, Targets(f, t.files, subpath).value, b, skip).0.files, FileOf(f, n))
  {
    hide FileOf, ReencryptAll, Entries, IsSneaky, SameAt;
    UnderPrefixIs(Entries(f, t.files), TrimSlashes(subpath) + "/", n);
    NotDone(f, t, Targets(f, t.files, subpath).value, b, skip, n);
  }

  lemma UnreadableIs(f: Format, files: Files, n: string, b: Backend)
    requires Unreadable(f, files, n, b)
    ensures FileOf(f, n) in files
  {
  }

  lemma SameUnreadable(f: Format, a: Files, b: Files, n: string, backend: Backend)
    requires SameAt(a, b, FileOf(f, n))
    ensures Unreadable(f, a, n, backend) <==> Unreadable(f, b, n, backend)
  {
    hide FileOf, IsSneaky, Decrypt;
  }
}
