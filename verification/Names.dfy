/** Entry names and the files they stand for (store.rs). Names are relative and normalised;
    a path is its list of components below the store root. */
module Names {
  import opened Text

  datatype Format = Pass | Passage

  type Path = seq<string>

  function Extension(f: Format): string {
    match f case Pass => ".gpg" case Passage => ".age"
  }

  function RecipientsName(f: Format): string {
    match f case Pass => ".gpg-id" case Passage => ".age-recipients"
  }

  // --- sneaky paths ------------------------------------------------------------

  predicate Contains(s: string, sub: string) {
    exists i :: 0 <= i <= |s| && sub <= s[i..]
  }

  /** `is_sneaky_path`. */
  predicate IsSneaky(path: string) {
    path == ".." || "../" <= path || HasSuffix(path, "/..") || Contains(path, "/../")
  }

  lemma SneakyStep(a: string, b: string)
    requires '/' !in a
    ensures IsSneaky(a + "/" + b) <==> a == ".." || IsSneaky(b)
  {
    var s := a + "/" + b;
    SneakyStarts(a, b);
    SneakyEnds(a, b);
    SneakyInside(a, b);
    assert s[|a|] == '/';
  }

  lemma SneakyStarts(a: string, b: string)
    requires '/' !in a
    ensures "../" <= a + "/" + b <==> a == ".."
  {
    var s := a + "/" + b;
    if "../" <= s {
      assert s[0] == '.' && s[1] == '.' && s[2] == '/';
      assert forall i :: 0 <= i < |a| ==> s[i] == a[i];
      assert |a| <= 2;
      assert s[|a|] == '/';
      assert a == s[..|a|];
    }
  }

  lemma SneakyEnds(a: string, b: string)
    requires '/' !in a
    ensures HasSuffix(a + "/" + b, "/..") <==> b == ".." || HasSuffix(b, "/..")
  {
    var s := a + "/" + b;
    assert s[|a|] == '/';
    assert forall i :: 0 <= i < |a| ==> s[i] == a[i];
    assert forall i :: 0 <= i < |b| ==> s[|a| + 1 + i] == b[i];
    if HasSuffix(s, "/..") {
      var k := |s| - 3;
      assert s[k..][0] == s[k] && s[k..][1] == s[k + 1] && s[k..][2] == s[k + 2];
      assert k >= |a|;
      assert k == |a| ==> b == "..";
      assert k > |a| ==> b[k - |a| - 1..] == s[k..];
    }
    if b == ".." {
      assert s[|a|..] == "/..";
    } else if HasSuffix(b, "/..") {
      assert s[|s| - 3..] == b[|b| - 3..];
    }
  }

  lemma SneakyInside(a: string, b: string)
    requires '/' !in a
    ensures Contains(a + "/" + b, "/../") <==> "../" <= b || Contains(b, "/../")
  {
    hide Contains;
    if Contains(a + "/" + b, "/../") {
      InsideLeaves(a, b);
    }
    if "../" <= b || Contains(b, "/../") {
      InsideEnters(a, b);
    }
  }

  lemma InsideLeaves(a: string, b: string)
    requires '/' !in a && Contains(a + "/" + b, "/../")
    ensures "../" <= b || Contains(b, "/../")
  {
    var s := a + "/" + b;
    var i :| 0 <= i <= |s| && "/../" <= s[i..];
    assert s[i] == s[i..][0];
    assert forall k :: 0 <= k < |a| ==> s[k] == a[k];
    assert i >= |a|;
    SliceAfter(a, b, i);
    if i == |a| {
      AfterSlash(b);
    }
  }

  lemma SliceAfter(a: string, b: string, i: nat)
    requires |a| <= i <= |a| + 1 + |b|
    ensures (a + "/" + b)[i..] == if i == |a| then "/" + b else b[i - |a| - 1..]
  {
  }

  lemma AfterSlash(b: string)
    requires "/../" <= "/" + b
    ensures "../" <= b
  {
    var t := "/" + b;
    assert t[1] == b[0] && t[2] == b[1] && t[3] == b[2];
  }

  lemma InsideEnters(a: string, b: string)
    requires "../" <= b || Contains(b, "/../")
    ensures Contains(a + "/" + b, "/../")
  {
    var s := a + "/" + b;
    if "../" <= b {
      var t := s[|a|..];
      assert t == "/" + b;
      assert "/../" <= t;
    } else {
      var k :| 0 <= k <= |b| && "/../" <= b[k..];
      assert s[|a| + 1 + k..] == b[k..];
    }
  }

  /** The four tests together find exactly the paths with a `..` component. */
  lemma {:induction false} SneakyIsDotDot(path: string)
    ensures IsSneaky(path) <==> ".." in Split(path, '/')
    decreases |path|
  {
    hide IsSneaky;
    var i := IndexOf(path, '/');
    if i == |path| {
      NotSneaky(path);
    } else {
      var a, b := path[..i], path[i + 1..];
      Cut(path, i);
      SneakyStep(a, b);
      SneakyIsDotDot(b);
    }
  }

  lemma NotSneaky(path: string)
    requires '/' !in path
    ensures IsSneaky(path) <==> path == ".."
  {
    hide IsSneaky;
    assert IsSneaky("..") by { DotDotSneaky(); }
    if IsSneaky(path) && path != ".." {
      SneakySlash(path);
    }
  }

  lemma DotDotSneaky()
    ensures IsSneaky("..")
  {
  }

  lemma SneakySlash(path: string)
    requires IsSneaky(path) && path != ".."
    ensures '/' in path
  {
    hide Contains;
    if "../" <= path {
      assert path[2] == "../"[2];
    } else if HasSuffix(path, "/..") {
      assert path[|path| - 3] == path[|path| - 3..][0];
    } else {
      InsideSlash(path);
    }
  }

  lemma InsideSlash(path: string)
    requires Contains(path, "/../")
    ensures '/' in path
  {
    var i :| 0 <= i <= |path| && "/../" <= path[i..];
    var t := path[i..];
    assert t[0] == "/../"[0] && path[i] == t[0];
  }

  // --- files ---------------------------------------------------------------------

  /** `name.rsplit_once('/')`: the components before the last. */
  function DirOf(name: string): Path {
    var cs := Split(name, '/');
    cs[..|cs| - 1]
  }

  function LastOf(name: string): string {
    var cs := Split(name, '/');
    cs[|cs| - 1]
  }

  /** `entry_file`. */
  function FileOf(f: Format, name: string): (p: Path)
    ensures p != []
  {
    DirOf(name) + [LastOf(name) + Extension(f)]
  }

  predicate IsEntryFile(f: Format, p: Path) {
    p != [] && HasSuffix(p[|p| - 1], Extension(f)) && Lacks(p, '/') && ".git" !in p
  }

  function NameOf(f: Format, p: Path): string
    requires IsEntryFile(f, p)
  {
    var last := p[|p| - 1];
    Join(p[..|p| - 1] + [last[..|last| - 4]], '/')
  }

  lemma ExtensionPlain(f: Format)
    ensures |Extension(f)| == 4 && '/' !in Extension(f)
  {
  }

  lemma NameParts(f: Format, p: Path)
    requires IsEntryFile(f, p)
    ensures DirOf(NameOf(f, p)) == p[..|p| - 1]
    ensures LastOf(NameOf(f, p)) + Extension(f) == p[|p| - 1]
  {
    ExtensionPlain(f);
    var last := p[|p| - 1];
    var cs := p[..|p| - 1] + [last[..|last| - 4]];
    forall k | 0 <= k < |cs|
      ensures '/' !in cs[k]
    {
      assert '/' !in p[k];
    }
    SplitJoin(cs, '/');
    assert last == last[..|last| - 4] + last[|last| - 4..];
  }

  /** A listed file and its name say the same thing. */
  lemma FileOfName(f: Format, p: Path)
    requires IsEntryFile(f, p)
    ensures FileOf(f, NameOf(f, p)) == p
  {
    hide NameOf, DirOf, LastOf, Extension, IsEntryFile;
    NameParts(f, p);
    assert p != [] by { EntryFileNonempty(f, p); }
    assert p == p[..|p| - 1] + [p[|p| - 1]];
  }

  lemma EntryFileNonempty(f: Format, p: Path)
    requires IsEntryFile(f, p)
    ensures p != []
  {
  }

  /** The file of a name: its components, the last with the format's extension. */
  lemma FileOfIs(dir: Path, last: string)
    requires Lacks(dir, '/') && '/' !in last
    ensures FileOf(Pass, Join(dir + [last], '/')) == dir + [last + ".gpg"]
    ensures FileOf(Passage, Join(dir + [last], '/')) == dir + [last + ".age"]
  {
    SplitJoin(dir + [last], '/');
  }

  /** Different names are different files. */
  lemma FileOfInjective(f: Format, m: string, n: string)
    requires FileOf(f, m) == FileOf(f, n)
    ensures m == n
  {
    ExtensionPlain(f);
    var p, q := FileOf(f, m), FileOf(f, n);
    var a, b := Split(m, '/'), Split(n, '/');
    assert p[..|p| - 1] == a[..|a| - 1] && q[..|q| - 1] == b[..|b| - 1];
    var x, y := p[|p| - 1], q[|q| - 1];
    assert x[..|x| - 4] == a[|a| - 1] && y[..|y| - 4] == b[|b| - 1];
    assert a == a[..|a| - 1] + [a[|a| - 1]] && b == b[..|b| - 1] + [b[|b| - 1]];
    JoinSplit(m, '/');
    JoinSplit(n, '/');
  }

  /** An entry's file is never a recipients file. */
  lemma EntryIsNoRecipients(f: Format, name: string, dir: Path)
    ensures FileOf(f, name) != dir + [RecipientsName(f)]
  {
    hide Split;
    var p, q := FileOf(f, name), dir + [RecipientsName(f)];
    var x, y := p[|p| - 1], q[|q| - 1];
    ExtensionPlain(f);
    LastChars(f);
    assert x[|x| - 1] == Extension(f)[3];
    assert x != y;
  }

  lemma LastChars(f: Format)
    ensures var y := RecipientsName(f); y[|y| - 1] != Extension(f)[3]
  {
  }

  /** The file of a name that is listed is an entry file. */
  lemma FileIsEntry(f: Format, name: string)
    ensures IsEntryFile(f, FileOf(f, name)) <==> ".git" !in DirOf(name)
    ensures ".git" in FileOf(f, name) <==> ".git" in DirOf(name)
  {
    hide Split;
    ExtensionPlain(f);
    SplitLacks(name, '/');
    var p := FileOf(f, name);
    var last := p[|p| - 1];
    assert last[|last| - 4..] == Extension(f);
    NotGit(f, last);
    assert last == LastOf(name) + Extension(f);
    forall k | 0 <= k < |p|
      ensures '/' !in p[k]
    {
      assert k < |p| - 1 ==> p[k] == Split(name, '/')[k];
    }
    assert p == DirOf(name) + [last];
  }

  lemma NotGit(f: Format, last: string)
    requires HasSuffix(last, Extension(f))
    ensures last != ".git"
  {
    assert ".git"[0..] == ".git";
  }
}
