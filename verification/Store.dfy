/** A password store on disk (store.rs `Store`): the operations that change the file tree in
    place, and the walk that lists it. */
module Store {
  import opened Text
  import opened Order
  import opened Names
  import opened Recipients
  import opened StoreSpec

  /** What a file system keeps anyway: parents are directories, a file is not a directory,
      and no name holds a slash. */
  ghost predicate WellFormed(t: Tree) {
    && [] in t.dirs
    && (forall d :: d in t.dirs ==> Lacks(d, '/') && (d != [] ==> d[..|d| - 1] in t.dirs))
    && (forall p :: p in t.files ==> p != [] && Lacks(p, '/') && p[..|p| - 1] in t.dirs && p !in t.dirs)
  }

  lemma {:induction false} PruneWellFormed(t: Tree, dir: Path)
    requires WellFormed(t)
    ensures WellFormed(Prune(t, dir))
    decreases |dir|
  {
    if !(dir == [] || dir !in t.dirs || !EmptyDir(t, dir)) {
      PruneWellFormed(t.(dirs := t.dirs - {dir}), dir[..|dir| - 1]);
    }
  }

  /** Something is left below `d` that does not hang on `dir` alone. */
  ghost predicate Holds(t: Tree, d: Path, dir: Path) {
    (exists p :: p in t.files && d < p) || (exists e :: e in t.dirs && d <= e && !(e <= dir))
  }

  /** Pruning takes exactly the directories towards `dir` that hold nothing else, never the
      root. */
  lemma {:induction false} PruneIs(t: Tree, dir: Path, d: Path)
    requires WellFormed(t) && dir in t.dirs
    ensures d in Prune(t, dir).dirs <==> d in t.dirs && (d == [] || !(d <= dir) || Holds(t, d, dir))
    decreases |dir|
  {
    hide Children;
    if dir == [] {
    } else if !EmptyDir(t, dir) {
      if d <= dir { NotEmptyHolds(t, dir, d); }
    } else {
      var less, up := t.(dirs := t.dirs - {dir}), dir[..|dir| - 1];
      EmptyHolds(t, dir);
      assert WellFormed(less) by { LessWellFormed(t, dir); }
      PruneIs(less, up, d);
      if d <= dir && d != dir {
        assert d <= up;
        HoldsLess(t, dir, d);
      }
    }
  }

  lemma LessWellFormed(t: Tree, dir: Path)
    requires WellFormed(t) && dir != [] && EmptyDir(t, dir)
    ensures WellFormed(t.(dirs := t.dirs - {dir}))
  {
  }

  lemma NotEmptyHolds(t: Tree, dir: Path, d: Path)
    requires !EmptyDir(t, dir) && d <= dir
    ensures Holds(t, d, dir)
  {
    if p :| p in t.files && p != [] && p[..|p| - 1] == dir {
      assert d < p;
    } else {
      var e :| e in t.dirs && e != [] && e[..|e| - 1] == dir;
      assert d <= e && !(e <= dir);
    }
  }

  lemma EmptyHolds(t: Tree, dir: Path)
    requires WellFormed(t) && EmptyDir(t, dir)
    ensures !Holds(t, dir, dir)
  {
    hide WellFormed;
    if p :| (p in t.files || p in t.dirs) && dir < p {
      PrefixChild(t, dir, p);
      NoChildren(t, dir);
    }
  }

  lemma NoChildren(t: Tree, dir: Path)
    requires EmptyDir(t, dir)
    ensures Children(t, dir) == {}
  {
  }

  lemma HoldsLess(t: Tree, dir: Path, d: Path)
    requires dir != [] && d <= dir[..|dir| - 1]
    ensures Holds(t, d, dir) <==> Holds(t.(dirs := t.dirs - {dir}), d, dir[..|dir| - 1])
  {
    var less, up := t.(dirs := t.dirs - {dir}), dir[..|dir| - 1];
    assert forall e :: e in t.dirs && e <= dir && e != dir ==> e <= up;
    assert forall e :: e in t.dirs && e <= up ==> e <= dir && e != dir;
    if e :| e in t.dirs && d <= e && !(e <= dir) {
      assert e in less.dirs && !(e <= up);
    }
  }

  /** Of the directories a removed entry lay in, exactly those stay that hold something else. */
  lemma RemoveDirs(f: Format, t: Tree, name: string, d: Path)
    requires WellFormed(t) && RemoveEntry(f, t, name).1 == None
    ensures var p := FileOf(f, name);
      d in RemoveEntry(f, t, name).0.dirs <==>
        d in t.dirs && (d == [] || !(d <= DirOf(name)) || Holds(t.(files := t.files - {p}), d, DirOf(name)))
  {
    hide FileOf, IsSneaky, Prune, Holds, DirOf;
    var p := FileOf(f, name);
    FileParts(f, name);
    PruneIs(t.(files := t.files - {p}), p[..|p| - 1], d);
  }

  lemma CreateDirsWellFormed(t: Tree, dir: Path)
    requires WellFormed(t) && Lacks(dir, '/')
    ensures CreateDirs(t, dir).Some? ==> WellFormed(CreateDirs(t, dir).value) && dir in CreateDirs(t, dir).value.dirs
  {
    if CreateDirs(t, dir).Some? {
      var made := CreateDirs(t, dir).value;
      forall d | d in made.dirs
        ensures Lacks(d, '/') && (d != [] ==> d[..|d| - 1] in made.dirs)
      {
        if d !in t.dirs {
          var k :| 0 <= k <= |dir| && d == dir[..k];
          assert forall i :: 0 <= i < k ==> d[i] == dir[i];
          if k > 0 {
            assert d[..|d| - 1] == dir[..k - 1];
          }
        }
      }
      assert dir[..|dir|] == dir;
    }
  }

  lemma FileParts(f: Format, name: string)
    ensures Lacks(FileOf(f, name), '/') && FileOf(f, name)[..|FileOf(f, name)| - 1] == DirOf(name)
    ensures Lacks(DirOf(name), '/')
  {
    SplitLacks(name, '/');
    ExtensionPlain(f);
    var cs := Split(name, '/');
    assert forall k :: 0 <= k < |cs| ==> '/' !in cs[k];
  }

  lemma PutWellFormed(f: Format, t: Tree, name: string, c: Content)
    requires WellFormed(t)
    ensures WellFormed(PutFile(t, FileOf(f, name), c).0)
  {
    hide FileOf, CreateDirs, DirOf, WellFormed;
    FileParts(f, name);
    CreateDirsWellFormed(t, DirOf(name));
    if CreateDirs(t, DirOf(name)).Some? {
      ReplaceWellFormed(f, CreateDirs(t, DirOf(name)).value, name, c);
    }
  }

  lemma ReplaceWellFormed(f: Format, t: Tree, name: string, c: Content)
    requires WellFormed(t) && DirOf(name) in t.dirs
    ensures WellFormed(Replace(t, FileOf(f, name), c).0)
  {
    hide FileOf, DirOf;
    FileParts(f, name);
  }

  lemma RemoveWellFormed(f: Format, t: Tree, name: string)
    requires WellFormed(t)
    ensures WellFormed(RemoveEntry(f, t, name).0)
  {
    hide FileOf, IsSneaky, Prune;
    var p := FileOf(f, name);
    if p in t.files {
      PruneWellFormed(t.(files := t.files - {p}), p[..|p| - 1]);
    }
  }

  /** No operation breaks the tree. */
  lemma StepWellFormed(f: Format, t: Tree, op: Op)
    requires WellFormed(t)
    ensures WellFormed(Step(f, t, op))
  {
    hide WellFormed, FileOf, RemoveEntry, Sealed, PutFile, TransferEntry;
    match op
    case Write(name, plain, b) =>
      match Sealed(f, t.files, name, plain, b) {
        case Err(_) =>
        case Ok(c) => PutWellFormed(f, t, name, c);
      }
    case Remove(name) => RemoveWellFormed(f, t, name);
    case Copy(from, to, b) => TransferWellFormed(f, t, from, to, b, false);
    case Move(from, to, b) => TransferWellFormed(f, t, from, to, b, true);
  }

  lemma TransferWellFormed(f: Format, t: Tree, from: string, to: string, b: Backend, remove: bool)
    requires WellFormed(t)
    ensures WellFormed(TransferEntry(f, t, from, to, b, remove).0)
  {
    hide WellFormed, FileOf, DirOf, RemoveEntry, CreateDirs, Transferred, IsSneaky, Replace;
    FileParts(f, to);
    CreateDirsWellFormed(t, DirOf(to));
    CreateDirsFiles(t, DirOf(to));
    if CreateDirs(t, DirOf(to)).Some? && FileOf(f, from) in t.files {
      var made := CreateDirs(t, DirOf(to)).value;
      if Transferred(f, made.files, from, to, b).Ok? {
        var c := Transferred(f, made.files, from, to, b).value;
        ReplaceWellFormed(f, made, to, c);
        RemoveWellFormed(f, Replace(made, FileOf(f, to), c).0, from);
      }
    }
  }

  // --- the walk ----------------------------------------------------------------------

  /** The names in a directory. */
  function Children(t: Tree, dir: Path): set<string> {
    (set p | p in t.files && p != [] && p[..|p| - 1] == dir :: p[|p| - 1])
    + (set d | d in t.dirs && d != [] && d[..|d| - 1] == dir :: d[|d| - 1])
  }

  ghost function DirsBelow(t: Tree, dir: Path): set<Path> {
    set d | d in t.dirs && dir <= d
  }

  lemma FewerBelow(t: Tree, dir: Path, child: string)
    requires dir in t.dirs
    ensures |DirsBelow(t, dir + [child])| < |DirsBelow(t, dir)|
  {
    var a, b := DirsBelow(t, dir + [child]), DirsBelow(t, dir);
    forall d | d in a
      ensures d in b && d != dir
    {
      assert dir <= dir + [child] <= d;
    }
    Fewer(a, b, dir);
  }

  lemma Fewer(a: set<Path>, b: set<Path>, x: Path)
    requires a <= b && x in b && x !in a
    ensures |a| < |b|
  {
    assert a <= b - {x};
    FewerOrSame(a, b - {x});
  }

  lemma FewerOrSame(a: set<Path>, b: set<Path>)
    requires a <= b
    ensures |a| <= |b|
  {
    assert b == a + (b - a);
  }

  /** `n` is a listed entry somewhere below `dir`. */
  ghost predicate ListedBelow(f: Format, t: Tree, dir: Path, n: string) {
    FileOf(f, n) in t.files && IsEntryFile(f, FileOf(f, n)) && dir < FileOf(f, n)
  }

  /** The child of `dir` through which `n` is reached. */
  ghost predicate Through(f: Format, dir: Path, n: string, children: set<string>) {
    |dir| < |FileOf(f, n)| && FileOf(f, n)[|dir|] in children
  }

  /** What one child contributes: its own entry, or everything below it. */
  ghost predicate Contributes(f: Format, t: Tree, dir: Path, child: string, out: seq<string>) {
    && (forall n :: n in out <==> ListedBelow(f, t, dir, n) && Through(f, dir, n, {child}))
    && (forall i, j :: 0 <= i < j < |out| ==> out[i] != out[j])
  }

  ghost predicate ListsSoFar(f: Format, t: Tree, dir: Path, done: set<string>, out: seq<string>) {
    && (forall n :: n in out <==> ListedBelow(f, t, dir, n) && Through(f, dir, n, done))
    && (forall i, j :: 0 <= i < j < |out| ==> out[i] != out[j])
  }

  lemma ListsMore(f: Format, t: Tree, dir: Path, done: set<string>, out: seq<string>, child: string, more: seq<string>)
    requires ListsSoFar(f, t, dir, done, out) && child !in done && Contributes(f, t, dir, child, more)
    ensures ListsSoFar(f, t, dir, done + {child}, out + more)
  {
    hide ListedBelow, FileOf;
    var all := out + more;
    forall n
      ensures n in all <==> ListedBelow(f, t, dir, n) && Through(f, dir, n, done + {child})
    {
      assert n in all <==> n in out || n in more;
    }
    forall i, j | 0 <= i < j < |all|
      ensures all[i] != all[j]
    {
      if i < |out| <= j {
        assert out[i] in out && more[j - |out|] in more;
      }
    }
  }

  /** Everything listed below a directory is reached through one of its children. */
  lemma AllThrough(f: Format, t: Tree, dir: Path, n: string)
    requires WellFormed(t) && ListedBelow(f, t, dir, n)
    ensures Through(f, dir, n, Children(t, dir))
  {
    hide FileOf, IsEntryFile;
    PrefixChild(t, dir, FileOf(f, n));
  }

  lemma {:induction false} PrefixChild(t: Tree, dir: Path, p: Path)
    requires WellFormed(t) && (p in t.files || p in t.dirs) && dir < p
    ensures p[|dir|] in Children(t, dir)
    decreases |p|
  {
    var up := p[..|p| - 1];
    if |p| == |dir| + 1 {
      assert up == dir;
    } else {
      assert dir < up && up in t.dirs;
      PrefixChild(t, dir, up);
    }
  }

  lemma StripLast(dir: Path, last: string)
    requires |last| >= 4
    ensures |Join(dir + [last], '/')| >= |last|
    ensures Join(dir + [last[..|last| - 4]], '/') == Join(dir + [last], '/')[..|Join(dir + [last], '/')| - 4]
  {
    if dir == [] {
      assert Join([] + [last], '/') == last && Join([] + [last[..|last| - 4]], '/') == last[..|last| - 4];
    } else {
      var a, b := Join(dir, '/'), last[..|last| - 4];
      JoinConcat(dir, '/', [last]);
      JoinConcat(dir, '/', [b]);
      assert Join([last], '/') == last && Join([b], '/') == b;
      assert (a + ['/'] + last)[..|a + ['/'] + last| - 4] == a + ['/'] + b;
    }
  }

  lemma FileContributes(f: Format, t: Tree, dir: Path, child: string, out: seq<string>)
    requires WellFormed(t) && dir in t.dirs && ".git" !in dir && child in Children(t, dir) && child != ".git"
    requires dir + [child] !in t.dirs
    requires out == if HasSuffix(child, Extension(f)) then [Join(dir + [child[..|child| - 4]], '/')] else []
    ensures Contributes(f, t, dir, child, out)
  {
    hide FileOf, WellFormed, Children, NameOf;
    var p := dir + [child];
    ExtensionPlain(f);
    assert p[..|p| - 1] == dir && p[|p| - 1] == child;
    ChildIs(t, dir, child);
    IsEntryIs(f, t, p);
    forall n | ListedBelow(f, t, dir, n) && Through(f, dir, n, {child})
      ensures FileOf(f, n) == p
    {
      OnlyFile(t, p, FileOf(f, n));
    }
    if HasSuffix(child, Extension(f)) {
      assert NameOf(f, p) == out[0] by { NameIs(f, dir, child); }
      FileOfName(f, p);
      forall n | FileOf(f, n) == p
        ensures n == out[0]
      {
        FileOfInjective(f, n, out[0]);
      }
    }
  }

  lemma ChildIs(t: Tree, dir: Path, child: string)
    requires child in Children(t, dir)
    ensures dir + [child] in t.files || dir + [child] in t.dirs
  {
    if exists p :: p in t.files && p != [] && p[..|p| - 1] == dir && p[|p| - 1] == child {
      var p :| p in t.files && p != [] && p[..|p| - 1] == dir && p[|p| - 1] == child;
      Rejoin(p);
    } else {
      var d :| d in t.dirs && d != [] && d[..|d| - 1] == dir && d[|d| - 1] == child;
      Rejoin(d);
    }
  }

  lemma Rejoin(p: Path)
    requires p != []
    ensures p == p[..|p| - 1] + [p[|p| - 1]]
  {
  }

  lemma IsEntryIs(f: Format, t: Tree, p: Path)
    requires WellFormed(t) && p in t.files
    ensures p != []
    ensures IsEntryFile(f, p) <==> HasSuffix(p[|p| - 1], Extension(f)) && ".git" !in p
  {
  }

  lemma NameIs(f: Format, dir: Path, child: string)
    requires IsEntryFile(f, dir + [child]) && |child| >= 4
    ensures NameOf(f, dir + [child]) == Join(dir + [child[..|child| - 4]], '/')
  {
    var p := dir + [child];
    assert p[..|p| - 1] == dir && p[|p| - 1] == child;
  }

  /** Nothing lies below a file. */
  lemma {:induction false} OnlyFile(t: Tree, p: Path, q: Path)
    requires WellFormed(t) && p in t.files && (q in t.files || q in t.dirs) && p <= q
    ensures q == p
    decreases |q|
  {
    if |q| > |p| {
      var up := q[..|q| - 1];
      assert p <= up && up in t.dirs;
      OnlyFile(t, p, up);
    }
  }

  lemma DirContributes(f: Format, t: Tree, dir: Path, child: string, out: seq<string>)
    requires WellFormed(t) && dir + [child] in t.dirs
    requires forall n :: n in out <==> ListedBelow(f, t, dir + [child], n)
    requires forall i, j :: 0 <= i < j < |out| ==> out[i] != out[j]
    ensures Contributes(f, t, dir, child, out)
  {
    hide FileOf, IsEntryFile;
    var sub := dir + [child];
    forall n
      ensures ListedBelow(f, t, sub, n) <==> ListedBelow(f, t, dir, n) && Through(f, dir, n, {child})
    {
      var q := FileOf(f, n);
      if dir < q && q[|dir|] == child {
        assert sub <= q;
        assert q != sub || q !in t.files;
      }
      if sub < q {
        assert dir <= sub && q[|dir|] == sub[|dir|];
      }
    }
  }

  lemma GitContributes(f: Format, t: Tree, dir: Path)
    ensures Contributes(f, t, dir, ".git", [])
  {
    hide FileOf;
    forall n
      ensures !(ListedBelow(f, t, dir, n) && Through(f, dir, n, {".git"}))
    {
      if |dir| < |FileOf(f, n)| && FileOf(f, n)[|dir|] == ".git" {
        assert ".git" in FileOf(f, n);
      }
    }
  }

  class Store {
    const format: Format
    var files: Files
    var dirs: set<Path>

    ghost function State(): Tree
      reads this
    {
      Tree(files, dirs)
    }

    constructor (format: Format, files: Files, dirs: set<Path>)
      ensures this.format == format && State() == Tree(files, dirs)
    {
      this.format, this.files, this.dirs := format, files, dirs;
    }

    /** `open` on a path: a directory with whatever it holds, or none. */
    static method Open(root: Option<Tree>, format: Format) returns (r: Result<Store, StoreError>)
      ensures root.None? ==> r == Err(NoStore)
      ensures root.Some? ==> r.Ok? && fresh(r.value) && r.value.format == format && r.value.State() == root.value
    {
      if root.None? {
        return Err(NoStore);
      }
      var store := new Store(format, root.value.files, root.value.dirs);
      return Ok(store);
    }

    /** `write_entry`. */
    method Write(name: string, plain: string, b: Backend) returns (error: Option<StoreError>)
      modifies this
      ensures (State(), error) == StoreSpec.WriteEntry(format, old(State()), name, plain, b)
    {
      hide ResolvedFor, FileOf, CreateDirs;
      var rs := RecipientsFor(format, files, name);
      if rs.Err? {
        return Some(rs.error);
      }
      var c := Encrypt(b, plain, rs.value);
      if c.Err? {
        return Some(c.error);
      }
      var p := FileOf(format, name);
      var made := MakeDirs(p[..|p| - 1]);
      if !made {
        return Some(Io);
      }
      error := AtomicWrite(p, c.value);
    }

    method MakeDirs(dir: Path) returns (ok: bool)
      modifies this`dirs
      ensures ok <==> CreateDirs(old(State()), dir).Some?
      ensures State() == if ok then CreateDirs(old(State()), dir).value else old(State())
    {
      if exists k :: 0 <= k <= |dir| && dir[..k] in files {
        return false;
      }
      dirs := dirs + set k | 0 <= k <= |dir| :: dir[..k];
      return true;
    }

    method AtomicWrite(p: Path, c: Content) returns (error: Option<StoreError>)
      modifies this`files
      ensures (State(), error) == Replace(old(State()), p, c)
    {
      if p in dirs {
        return Some(Io);
      }
      files := files[p := c];
      return None;
    }

    /** `remove_entry`. */
    method Remove(name: string) returns (error: Option<StoreError>)
      modifies this
      ensures (State(), error) == StoreSpec.RemoveEntry(format, old(State()), name)
    {
      hide FileOf, IsSneaky, EmptyDir;
      var p := FileOf(format, name);
      if IsSneaky(name) {
        return Some(SneakyPath);
      }
      if p !in files {
        return Some(NotInStore);
      }
      files := files - {p};
      var dir := p[..|p| - 1];
      while dir != [] && dir in dirs && EmptyDir(Tree(files, dirs), dir)
        invariant files == old(files) - {p}
        invariant Prune(Tree(files, old(dirs)), p[..|p| - 1]) == Prune(State(), dir)
        decreases |dir|
      {
        dirs := dirs - {dir};
        dir := dir[..|dir| - 1];
      }
      return None;
    }

    /** `transfer_entry`, behind both move and copy. */
    method Transfer(from: string, to: string, b: Backend, remove: bool) returns (error: Option<StoreError>)
      modifies this
      ensures (State(), error) == StoreSpec.TransferEntry(format, old(State()), from, to, b, remove)
    {
      hide FileOf, IsSneaky, CreateDirs, Resolve, ResolvedFor, StoreSpec.RemoveEntry;
      var src, dst := FileOf(format, from), FileOf(format, to);
      if IsSneaky(from) {
        return Some(SneakyPath);
      }
      if src !in files {
        return Some(NotInStore);
      }
      if IsSneaky(to) {
        return Some(SneakyPath);
      }
      CreateDirsFiles(State(), dst[..|dst| - 1]);
      var made := MakeDirs(dst[..|dst| - 1]);
      if !made {
        return Some(Io);
      }
      var c := Content(from, to, b);
      if c.Err? {
        return Some(c.error);
      }
      error := AtomicWrite(dst, c.value);
      if error.None? && remove {
        error := Remove(from);
      }
    }

    method Content(from: string, to: string, b: Backend) returns (c: Result<Content, StoreError>)
      requires FileOf(format, from) in files
      ensures c == Transferred(format, files, from, to, b)
    {
      hide FileOf, Resolve, ResolvedFor;
      if format == Pass {
        var here := ResolveRecipients(format, files, from);
        if here.Err? {
          return Err(here.error);
        }
        var there := ResolveRecipients(format, files, to);
        if there.Err? {
          return Err(there.error);
        }
        if here == there {
          return Ok(if from == to then Plain("") else files[FileOf(format, from)]);
        }
      }
      var plain := Decrypt(b, files[FileOf(format, from)]);
      if plain.Err? {
        return Err(plain.error);
      }
      var rs := RecipientsFor(format, files, to);
      if rs.Err? {
        return Err(rs.error);
      }
      return Encrypt(b, plain.value, rs.value);
    }

    /** `set_root_recipients`. */
    method SetRootRecipients(text: string) returns (error: Option<StoreError>)
      modifies this`files
      ensures (State(), error) == Replace(old(State()), [RecipientsName(format)], Plain(text))
    {
      error := AtomicWrite([RecipientsName(format)], Plain(text));
    }

    /** `collect_entries`: the children in whatever order the directory gives them. */
    method CollectEntries(dir: Path) returns (out: seq<string>)
      requires WellFormed(State()) && dir in dirs && ".git" !in dir
      ensures forall n :: n in out <==> ListedBelow(format, State(), dir, n)
      ensures forall i, j :: 0 <= i < j < |out| ==> out[i] != out[j]
      decreases |DirsBelow(State(), dir)|
    {
      hide WellFormed, ListedBelow, Through, Children, Contributes, FileOf, HasSuffix, DirsBelow;
      var done: set<string>, rest := {}, Children(Tree(files, dirs), dir);
      out := [];
      NothingYet(format, State(), dir);
      while rest != {}
        invariant done + rest == Children(State(), dir) && done !! rest
        invariant ListsSoFar(format, State(), dir, done, out)
        decreases |rest|
      {
        hide ListsSoFar;
        var child :| child in rest;
        var more := [];
        if child == ".git" {
          GitContributes(format, State(), dir);
        } else if dir + [child] in dirs {
          FewerBelow(State(), dir, child);
          more := CollectEntries(dir + [child]);
          DirContributes(format, State(), dir, child, more);
        } else {
          var rel := Join(dir + [child], '/');
          if HasSuffix(child, Extension(format)) {
            SuffixLong(format, child);
            StripLast(dir, child);
            more := [rel[..|rel| - 4]];
          }
          FileContributes(format, State(), dir, child, more);
        }
        ListsMore(format, State(), dir, done, out, child, more);
        out := out + more;
        done, rest := done + {child}, rest - {child};
      }
      assert done == Children(State(), dir);
      forall n
        ensures n in out <==> ListedBelow(format, State(), dir, n)
      {
        if ListedBelow(format, State(), dir, n) {
          AllThrough(format, State(), dir, n);
        }
      }
    }

    /** `entries`: every listed name once, in byte order. */
    method Entries() returns (names: seq<string>)
      requires WellFormed(State())
      ensures names == StoreSpec.Entries(format, files)
    {
      hide ListedBelow, WellFormed, Sorted;
      assert [] in dirs by { RootIs(State()); }
      var found := CollectEntries([]);
      assert (set n | n in found) == set p | p in files && IsEntryFile(format, p) :: NameOf(format, p) by {
        Collected(format, State(), found);
      }
      return Sorted(set n | n in found);
    }

    /** `reencrypt_targets`. */
    method ReencryptTargets(subpath: string) returns (r: Result<seq<string>, StoreError>)
      requires WellFormed(State())
      ensures r == Targets(format, files, subpath)
    {
      hide IsSneaky, WellFormed, StoreSpec.Entries;
      if IsSneaky(subpath) {
        return Err(SneakyPath);
      }
      var prefix := if subpath == "" then "" else TrimSlashes(subpath) + "/";
      var names := Entries();
      var out := Filter(names, prefix);
      return Ok(out);
    }

    method Filter(names: seq<string>, prefix: string) returns (out: seq<string>)
      ensures out == UnderPrefix(names, prefix)
    {
      var rest := names;
      out := [];
      while rest != []
        invariant UnderPrefix(names, prefix) == out + UnderPrefix(rest, prefix)
        decreases |rest|
      {
        if prefix <= rest[0] {
          out := out + [rest[0]];
        }
        rest := rest[1..];
      }
    }

    /** The loop of `reencrypt_subtree` and of `reencrypt_readable`. */
    method ReencryptLoop(names: seq<string>, b: Backend, skip: bool)
      returns (done: seq<string>, skipped: nat, error: Option<StoreError>)
      modifies this`files
      ensures (State(), done, skipped, error) == ReencryptAll(format, old(State()), names, b, skip)
    {
      hide FileOf, IsSneaky, ResolvedFor;
      var rest := names;
      done, skipped, error := [], 0, None;
      ghost var start := State();
      assert [] + ReencryptAll(format, start, names, b, skip).1 == ReencryptAll(format, start, names, b, skip).1;
      while rest != []
        invariant Resumed(done, skipped, ReencryptAll(format, State(), rest, b, skip))
               == ReencryptAll(format, start, names, b, skip)
        invariant error == None
        decreases |rest|
      {
        ResumeStep(format, State(), done, skipped, rest, b, skip);
        var name := rest[0];
        var p := FileOf(format, name);
        if IsSneaky(name) {
          return done, skipped, Some(SneakyPath);
        }
        if p !in files {
          return done, skipped, Some(Io);
        }
        var plain := Decrypt(b, files[p]);
        if skip && plain in {Err(Crypto(DecryptionFailed)), Err(Crypto(NoUsableKey))} {
          skipped := skipped + 1;
          rest := rest[1..];
          continue;
        }
        if plain.Err? {
          return done, skipped, Some(plain.error);
        }
        var rs := RecipientsFor(format, files, name);
        if rs.Err? {
          return done, skipped, Some(rs.error);
        }
        var c := Encrypt(b, plain.value, rs.value);
        if c.Err? {
          return done, skipped, Some(c.error);
        }
        error := AtomicWrite(p, c.value);
        if error.Some? {
          return;
        }
        done := done + [name];
        rest := rest[1..];
      }
      assert done + [] == done;
    }

    /** `reencrypt_subtree`. */
    method ReencryptSubtree(subpath: string, b: Backend) returns (r: Result<seq<string>, StoreError>)
      requires WellFormed(State())
      modifies this`files
      ensures var targets := Targets(format, old(files), subpath);
        if targets.Err? then r == Err(targets.error) && State() == old(State())
        else
          var (after, _, _, error) := ReencryptAll(format, old(State()), targets.value, b, false);
          State() == after && r == if error.Some? then Err(error.value) else targets
    {
      hide WellFormed, ReencryptAll, Targets;
      var targets := ReencryptTargets(subpath);
      if targets.Err? {
        return Err(targets.error);
      }
      var done, skipped, error := ReencryptLoop(targets.value, b, false);
      return if error.Some? then Err(error.value) else targets;
    }

    /** `reencrypt_readable`: the names rewritten and how many were skipped. */
    method ReencryptReadable(subpath: string, b: Backend) returns (r: Result<(seq<string>, nat), StoreError>)
      requires WellFormed(State())
      modifies this`files
      ensures var targets := Targets(format, old(files), subpath);
        if targets.Err? then r == Err(targets.error) && State() == old(State())
        else
          var (after, done, skipped, error) := ReencryptAll(format, old(State()), targets.value, b, true);
          State() == after && r == if error.Some? then Err(error.value) else Ok((done, skipped))
    {
      hide WellFormed, ReencryptAll, Targets;
      var targets := ReencryptTargets(subpath);
      if targets.Err? {
        return Err(targets.error);
      }
      var done, skipped, error := ReencryptLoop(targets.value, b, true);
      return if error.Some? then Err(error.value) else Ok((done, skipped));
    }
  }

  lemma RootIs(t: Tree)
    requires WellFormed(t)
    ensures [] in t.dirs
  {
  }

  lemma SuffixLong(f: Format, s: string)
    requires HasSuffix(s, Extension(f))
    ensures |s| >= 4
  {
    ExtensionPlain(f);
  }

  lemma NothingYet(f: Format, t: Tree, dir: Path)
    ensures ListsSoFar(f, t, dir, {}, [])
  {
    hide FileOf;
  }

  lemma Collected(f: Format, t: Tree, found: seq<string>)
    requires forall n :: n in found <==> ListedBelow(f, t, [], n)
    ensures (set n | n in found) == set p | p in t.files && IsEntryFile(f, p) :: NameOf(f, p)
  {
    hide FileOf, IsEntryFile, NameOf;
    var a, b := set n | n in found, set p | p in t.files && IsEntryFile(f, p) :: NameOf(f, p);
    forall n | n in a
      ensures n in b
    {
      FileOfName(f, FileOf(f, n));
      FileOfInjective(f, NameOf(f, FileOf(f, n)), n);
    }
    forall n | n in b
      ensures n in a
    {
      var p :| p in t.files && IsEntryFile(f, p) && n == NameOf(f, p);
      FileOfName(f, p);
      assert [] < p;
    }
  }

  function Resumed(done: seq<string>, skipped: nat, r: (Tree, seq<string>, nat, Option<StoreError>))
    : (Tree, seq<string>, nat, Option<StoreError>)
  {
    (r.0, done + r.1, skipped + r.2, r.3)
  }

  lemma ResumeStep(f: Format, t: Tree, done: seq<string>, skipped: nat, names: seq<string>, b: Backend, skip: bool)
    requires names != []
    ensures Resumed(done, skipped, ReencryptAll(f, t, names, b, skip)) ==
      if skip && Unreadable(f, t.files, names[0], b) then
        Resumed(done, skipped + 1, ReencryptAll(f, t, names[1..], b, skip))
      else match Reencrypted(f, t.files, names[0], b)
        case Err(e) => (t, done, skipped, Some(e))
        case Ok(c) =>
          var (next, failed) := Replace(t, FileOf(f, names[0]), c);
          if failed.Some? then (next, done, skipped, failed)
          else Resumed(done + [names[0]], skipped, ReencryptAll(f, next, names[1..], b, skip))
  {
    hide FileOf, Reencrypted, Unreadable;
    assert done + [] == done;
    if !(skip && Unreadable(f, t.files, names[0], b)) && Reencrypted(f, t.files, names[0], b).Ok? {
      var next := Replace(t, FileOf(f, names[0]), Reencrypted(f, t.files, names[0], b).value).0;
      var more := ReencryptAll(f, next, names[1..], b, skip).1;
      assert done + ([names[0]] + more) == done + [names[0]] + more;
    }
  }
}
