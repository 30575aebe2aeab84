/** Replaying local commits on the remote head (git.rs `rebase_onto`): libgit2's merge of
    trees, and a choice per conflicted file. */
module Rebase {
  import opened Text
  import opened Order
  import opened Commits

  datatype Choice = KeepLocal | KeepRemote | KeepBoth

  /** The caller's closure: it may answer by everything it was asked before. */
  type Resolver = (seq<Path>, Path) -> Choice

  // --- names -------------------------------------------------------------------

  /** Where the local version goes when both are kept. */
  function Sibling(path: Path): Path {
    if HasSuffix(path, ".age") then path[..|path| - 4] + ".conflict" + ".age"
    else if HasSuffix(path, ".gpg") then path[..|path| - 4] + ".conflict" + ".gpg"
    else path + ".conflict"
  }

  lemma SiblingTail(path: Path)
    ensures var s := Sibling(path);
      |s| == |path| + 9 && s[|s| - 1] == if HasSuffix(path, ".age") then 'e' else if HasSuffix(path, ".gpg") then 'g' else 't'
  {
  }

  /** Two files never share a sibling, and a sibling is never the file itself; an entry's
      sibling is an entry of the same kind. */
  lemma SiblingInjective(p: Path, q: Path)
    ensures Sibling(p) == Sibling(q) ==> p == q
    ensures Sibling(p) != p
    ensures HasSuffix(p, ".age") ==> HasSuffix(Sibling(p), ".age")
    ensures HasSuffix(p, ".gpg") ==> HasSuffix(Sibling(p), ".gpg")
  {
    SiblingTail(p);
    SiblingTail(q);
    if Sibling(p) == Sibling(q) {
      SiblingStem(p);
      SiblingStem(q);
    }
  }

  /** `.conflict` goes before the extension of an entry and after any other name. */
  lemma SiblingNames(stem: Path)
    ensures Sibling(stem + ".age") == stem + ".conflict.age"
    ensures Sibling(stem + ".gpg") == stem + ".conflict.gpg"
    ensures !HasSuffix(stem, ".age") && !HasSuffix(stem, ".gpg") ==> Sibling(stem) == stem + ".conflict"
  {
    var a, g := stem + ".age", stem + ".gpg";
    assert a[..|stem|] == stem && a[|stem|..] == ".age" && g[..|stem|] == stem && g[|stem|..] == ".gpg";
    assert ".conflict" + ".age" == ".conflict.age" && ".conflict" + ".gpg" == ".conflict.gpg";
    assert stem + ".conflict" + ".age" == stem + ".conflict.age" && stem + ".conflict" + ".gpg" == stem + ".conflict.gpg";
  }

  /** A sibling is in the directory of its file. */
  lemma SiblingDir(dir: Path, p: Path)
    requires dir + "/" <= Sibling(p)
    ensures dir + "/" <= p
  {
    var s, n := Sibling(p), |dir|;
    assert s[n] == '/';
    var stem := if HasSuffix(p, ".age") || HasSuffix(p, ".gpg") then p[..|p| - 4] else p;
    assert forall k :: |stem| <= k < |s| ==> s[k] != '/';
    assert n < |stem| && stem <= s && stem <= p;
    assert s[..n + 1] == p[..n + 1];
  }

  /** The file's name is read off its sibling. */
  lemma SiblingStem(p: Path)
    ensures p == if HasSuffix(p, ".age") then Sibling(p)[..|p| - 4] + ".age"
      else if HasSuffix(p, ".gpg") then Sibling(p)[..|p| - 4] + ".gpg"
      else Sibling(p)[..|p|]
  {
    if HasSuffix(p, ".age") || HasSuffix(p, ".gpg") {
      assert p == p[..|p| - 4] + p[|p| - 4..];
    }
  }

  // --- the merge -----------------------------------------------------------------

  /** What the index holds for a conflicted path; "ours" is the remote side of a rebase. */
  datatype Conflict = Conflict(path: Path, remote: Option<Blob>, local: Option<Blob>)

  datatype Merge = Merge(clean: Tree, conflicts: seq<Conflict>)

  /** libgit2: its merge of base, remote and local tree, what it takes for a renamed file,
      and the blobs it never merges by content. */
  datatype Engine = Engine(
    merge: (Tree, Tree, Tree) -> Merge,
    similar: (Blob, Blob) -> bool,
    binary: Blob -> bool)

  /** What a rebase runs with: the library, the caller's answers, the committer's stamp. */
  datatype Env = Env(git: Engine, resolver: Resolver, stamp: nat)

  function At(t: Tree, p: Path): Option<Blob> {
    if p in t then Some(t[p]) else None
  }

  /** The side that changed; None for a conflict. */
  function ThreeWay(base: Option<Blob>, ours: Option<Blob>, theirs: Option<Blob>): Option<Option<Blob>> {
    if ours == theirs || base == theirs then Some(ours)
    else if base == ours then Some(theirs)
    else None
  }

  function MergeAt(base: Tree, ours: Tree, theirs: Tree, p: Path): Option<Option<Blob>> {
    ThreeWay(At(base, p), At(ours, p), At(theirs, p))
  }

  function Conflicts(base: Tree, ours: Tree, theirs: Tree): set<Path> {
    set p | p in base.Keys + ours.Keys + theirs.Keys && MergeAt(base, ours, theirs, p).None?
  }

  function Merged(base: Tree, ours: Tree, theirs: Tree): Tree {
    map p | p in ours.Keys + theirs.Keys && MergeAt(base, ours, theirs, p).Some? && MergeAt(base, ours, theirs, p).value.Some?
      :: MergeAt(base, ours, theirs, p).value.value
  }

  lemma MergedIs(base: Tree, ours: Tree, theirs: Tree, p: Path)
    ensures p in Conflicts(base, ours, theirs) <==> MergeAt(base, ours, theirs, p).None?
    ensures p !in Conflicts(base, ours, theirs) ==> At(Merged(base, ours, theirs), p) == MergeAt(base, ours, theirs, p).value
    ensures p in Conflicts(base, ours, theirs) ==> p !in Merged(base, ours, theirs)
  {
  }

  function Listed(ps: seq<Path>, ours: Tree, theirs: Tree): (cs: seq<Conflict>)
    ensures |cs| == |ps|
    ensures forall i :: 0 <= i < |ps| ==> cs[i] == Conflict(ps[i], At(ours, ps[i]), At(theirs, ps[i]))
  {
    seq(|ps|, i requires 0 <= i < |ps| => Conflict(ps[i], At(ours, ps[i]), At(theirs, ps[i])))
  }

  /** Each path merged by itself, its blobs whole; conflicts in path order. */
  function PathMerge(base: Tree, ours: Tree, theirs: Tree): Merge {
    Merge(Merged(base, ours, theirs), Listed(Sorted(Conflicts(base, ours, theirs)), ours, theirs))
  }

  /** No file the side drops is one it adds elsewhere, whole or nearly. */
  ghost predicate NoRename(git: Engine, base: Tree, side: Tree) {
    forall p, q :: p in base && p !in side && q in side && q !in base ==> !git.similar(base[p], side[q])
  }

  /** No path is at once a file and a directory. */
  ghost predicate ClashFree(ps: set<Path>) {
    forall p, q :: p in ps && q in ps ==> !(p + "/" <= q)
  }

  /** No file of one side is a directory of the other. */
  ghost predicate NoClash(ours: Tree, theirs: Tree) {
    ClashFree(ours.Keys + theirs.Keys)
  }

  /** Where both sides have a file and both changed it, both are ciphertexts. */
  ghost predicate AllBinary(git: Engine, base: Tree, ours: Tree, theirs: Tree) {
    forall p :: p in Conflicts(base, ours, theirs) && p in ours && p in theirs ==> git.binary(ours[p]) && git.binary(theirs[p])
  }

  /** Trees that libgit2 merges path by path. */
  ghost predicate Plain(git: Engine, base: Tree, ours: Tree, theirs: Tree) {
    NoRename(git, base, ours) && NoRename(git, base, theirs) && NoClash(ours, theirs) && AllBinary(git, base, ours, theirs)
  }

  /** What is assumed of libgit2: a file is similar to itself, and without renames, clashes
      and text files the merge goes path by path. */
  ghost predicate Lawful(git: Engine) {
    && (forall b :: git.similar(b, b))
    && forall base, ours, theirs ::
         Plain(git, base, ours, theirs) ==> git.merge(base, ours, theirs) == PathMerge(base, ours, theirs)
  }

  // --- resolving -----------------------------------------------------------------

  /** `tree` is the index, `work` the working tree. `stopped`: a file could not be written or
      staged, and the sync ends there with an error. */
  datatype Progress = Progress(tree: Tree, work: Tree, resolved: seq<Path>, keptBoth: seq<Path>, stopped: bool)

  function Put(t: Tree, p: Path, b: Option<Blob>): Tree {
    if b.Some? then t[p := b.value] else t
  }

  /** The first of two blobs there is. */
  function Side(first: Option<Blob>, second: Option<Blob>): Option<Blob> {
    if first.Some? then first else second
  }

  /** libgit2 checks out the clean files and, of a conflict, the remote side, or the local one
      where that is deleted. */
  function Checkout(clean: Tree, cs: seq<Conflict>): Tree
    decreases |cs|
  {
    if cs == [] then clean
    else Put(Checkout(clean, cs[1..]), cs[0].path, Side(cs[0].remote, cs[0].local))
  }

  /** No file can be written to `q`: it is a directory, or a file is in the place of one of its
      directories. */
  predicate Blocked(work: Tree, q: Path) {
    exists p :: p in work && (q + "/" <= p || p + "/" <= q)
  }

  /** `write_blob_to_workdir`, which does nothing for a missing side, then `add_path`. */
  function Stage(s: Progress, p: Path, b: Option<Blob>): Progress {
    var work := Put(s.work, p, b);
    if (b.Some? && Blocked(s.work, p)) || p !in work then s.(stopped := true)
    else s.(tree := s.tree[p := work[p]], work := work)
  }

  function Chosen(c: Conflict, choice: Choice): Option<Blob> {
    if choice == KeepLocal then c.local else c.remote
  }

  function ResolveOne(s: Progress, c: Conflict, choice: Choice): Progress {
    var first := Stage(s.(tree := s.tree - {c.path}, resolved := s.resolved + [c.path]), c.path, Chosen(c, choice));
    if first.stopped || choice != KeepBoth then first
    else
      var second := Stage(first, Sibling(c.path), c.local);
      if second.stopped then second else second.(keptBoth := second.keptBoth + [Sibling(c.path)])
  }

  /** One commit's conflicts, in index order, up to the first error. */
  function ResolveAll(s: Progress, cs: seq<Conflict>, resolver: Resolver): Progress
    decreases |cs|
  {
    if cs == [] || s.stopped then s
    else ResolveAll(ResolveOne(s, cs[0], resolver(s.resolved, cs[0].path)), cs[1..], resolver)
  }

  // --- replaying -----------------------------------------------------------------

  datatype Replay = Replay(head: Commit, replayed: nat, resolved: seq<Path>, keptBoth: seq<Path>, stopped: bool)

  function BaseTree(c: Commit): Tree {
    if c.parents == [] then map[] else c.parents[0].tree
  }

  function MergeOf(r: Replay, c: Commit, env: Env): Merge {
    env.git.merge(BaseTree(c), r.head.tree, c.tree)
  }

  /** Index and working tree as libgit2 leaves them for the caller. */
  function Opened(r: Replay, m: Merge): Progress {
    Progress(m.clean, Checkout(m.clean, m.conflicts), r.resolved, r.keptBoth, r.stopped)
  }

  function PickTree(r: Replay, c: Commit, env: Env): Progress {
    ResolveAll(Opened(r, MergeOf(r, c, env)), MergeOf(r, c, env).conflicts, env.resolver)
  }

  /** A pick that changes nothing is skipped. */
  function Committed(r: Replay, p: Progress, c: Commit, stamp: nat): Replay {
    if p.stopped || p.tree == r.head.tree then Replay(r.head, r.replayed, p.resolved, p.keptBoth, p.stopped)
    else Replay(Commit([r.head], p.tree, c.message, stamp), r.replayed + 1, p.resolved, p.keptBoth, p.stopped)
  }

  function Pick(r: Replay, c: Commit, env: Env): Replay {
    Committed(r, PickTree(r, c, env), c, env.stamp)
  }

  /** The local commits in turn, up to the first error. */
  function Replayed(r: Replay, todo: seq<Commit>, env: Env): Replay
    decreases |todo|
  {
    if todo == [] || r.stopped then r else Replayed(Pick(r, todo[0], env), todo[1..], env)
  }

  function Start(upstream: Commit): Replay {
    Replay(upstream, 0, [], [], false)
  }

  function RebaseOf(head: Commit, upstream: Commit, env: Env): Replay {
    Replayed(Start(upstream), Todo(head, upstream), env)
  }

  /** The rebased head builds on the upstream head, in a straight line, whatever libgit2
      merges and the caller answers. */
  lemma {:induction false} ReplayedBuilds(r: Replay, todo: seq<Commit>, env: Env)
    ensures r.head in Anc(Replayed(r, todo, env).head)
    ensures Linear(r.head) ==> Linear(Replayed(r, todo, env).head)
    ensures Replayed(r, todo, env).replayed <= r.replayed + |todo|
    decreases |todo|
  {
    hide PickTree;
    if todo == [] || r.stopped {
      AncSelf(r.head);
    } else {
      var next := Pick(r, todo[0], env);
      ReplayedBuilds(next, todo[1..], env);
      if next.head != r.head {
        ChildAnc(r.head, next.head);
        AncSelf(r.head);
        AncTransitive(r.head, next.head, Replayed(r, todo, env).head);
      }
    }
  }

  /** A replayed commit keeps its message, on the head it lands on, and is skipped exactly where
      it changes nothing. */
  lemma PickMakes(r: Replay, c: Commit, env: Env)
    requires !Pick(r, c, env).stopped
    ensures var next, t := Pick(r, c, env), PickTree(r, c, env).tree;
      && (next.head == r.head <==> t == r.head.tree)
      && (t != r.head.tree ==> next.head == Commit([r.head], t, c.message, env.stamp))
  {
    hide PickTree;
    if PickTree(r, c, env).tree != r.head.tree { ParentDiffers(r.head, Pick(r, c, env).head); }
  }

  // --- one commit: what is written ---------------------------------------------------

  function Paths(cs: seq<Conflict>): (ps: seq<Path>)
    ensures |ps| == |cs|
    ensures forall i :: 0 <= i < |cs| ==> ps[i] == cs[i].path
  {
    seq(|cs|, i requires 0 <= i < |cs| => cs[i].path)
  }

  /** The answer to the `i`th conflict. */
  function ChoiceAt(asked: seq<Path>, cs: seq<Conflict>, i: nat, resolver: Resolver): Choice
    requires i < |cs|
  {
    resolver(asked + Paths(cs)[..i], cs[i].path)
  }

  ghost predicate NoRepeats(cs: seq<Conflict>) {
    forall i, j :: 0 <= i < j < |cs| ==> cs[i].path != cs[j].path
  }

  /** What one resolution writes to `q`. */
  function Written(c: Conflict, choice: Choice, q: Path): Option<Blob> {
    if q == c.path then Chosen(c, choice)
    else if choice == KeepBoth && q == Sibling(c.path) then c.local
    else None
  }

  function WrittenAt(asked: seq<Path>, cs: seq<Conflict>, i: nat, resolver: Resolver, q: Path): Option<Blob>
    requires i < |cs|
  {
    Written(cs[i], ChoiceAt(asked, cs, i, resolver), q)
  }

  lemma ChoiceTail(asked: seq<Path>, cs: seq<Conflict>, i: nat, resolver: Resolver)
    requires cs != [] && i < |cs| - 1
    ensures ChoiceAt(asked + [cs[0].path], cs[1..], i, resolver) == ChoiceAt(asked, cs, i + 1, resolver)
  {
    assert asked + [cs[0].path] + Paths(cs[1..])[..i] == asked + Paths(cs)[..i + 1];
  }

  lemma ChoiceFirst(asked: seq<Path>, cs: seq<Conflict>, resolver: Resolver)
    requires cs != []
    ensures ChoiceAt(asked, cs, 0, resolver) == resolver(asked, cs[0].path)
  {
    assert asked + Paths(cs)[..0] == asked;
  }

  lemma OneWrites(s: Progress, c: Conflict, choice: Choice, q: Path)
    requires !ResolveOne(s, c, choice).stopped
    ensures At(ResolveOne(s, c, choice).work, q) == Side(Written(c, choice, q), At(s.work, q))
    ensures ResolveOne(s, c, choice).resolved == s.resolved + [c.path]
    ensures ResolveOne(s, c, choice).keptBoth == s.keptBoth + if choice == KeepBoth then [Sibling(c.path)] else []
  {
    hide Sibling, Blocked;
    SiblingInjective(c.path, c.path);
  }

  /** The last thing written to `q`, if anything. */
  function LastWrite(asked: seq<Path>, cs: seq<Conflict>, resolver: Resolver, q: Path): Option<Blob>
    decreases |cs|
  {
    if cs == [] then None
    else Side(LastWrite(asked + [cs[0].path], cs[1..], resolver, q), Written(cs[0], resolver(asked, cs[0].path), q))
  }

  lemma {:induction false} ResolveAllWrites(s: Progress, cs: seq<Conflict>, resolver: Resolver, q: Path)
    requires !ResolveAll(s, cs, resolver).stopped
    ensures At(ResolveAll(s, cs, resolver).work, q) == Side(LastWrite(s.resolved, cs, resolver, q), At(s.work, q))
    decreases |cs|
  {
    hide ResolveOne, Written;
    if cs != [] {
      var choice := resolver(s.resolved, cs[0].path);
      OneWrites(s, cs[0], choice, q);
      ResolveAllWrites(ResolveOne(s, cs[0], choice), cs[1..], resolver, q);
    }
  }

  lemma WrittenTail(asked: seq<Path>, cs: seq<Conflict>, resolver: Resolver, q: Path)
    requires cs != []
    ensures forall i :: 0 <= i < |cs| - 1 ==>
      WrittenAt(asked + [cs[0].path], cs[1..], i, resolver, q) == WrittenAt(asked, cs, i + 1, resolver, q)
    ensures WrittenAt(asked, cs, 0, resolver, q) == Written(cs[0], resolver(asked, cs[0].path), q)
  {
    hide Written, ChoiceAt;
    ChoiceFirst(asked, cs, resolver);
    forall i | 0 <= i < |cs| - 1
      ensures WrittenAt(asked + [cs[0].path], cs[1..], i, resolver, q) == WrittenAt(asked, cs, i + 1, resolver, q)
    {
      ChoiceTail(asked, cs, i, resolver);
      assert cs[1..][i] == cs[i + 1];
    }
  }

  /** Nothing is written to `q` from the `i`th conflict on. */
  ghost predicate NoneFrom(asked: seq<Path>, cs: seq<Conflict>, i: nat, resolver: Resolver, q: Path) {
    forall j :: i <= j < |cs| ==> WrittenAt(asked, cs, j, resolver, q).None?
  }

  lemma NoneTail(asked: seq<Path>, cs: seq<Conflict>, i: nat, resolver: Resolver, q: Path)
    requires cs != [] && NoneFrom(asked, cs, i + 1, resolver, q)
    ensures NoneFrom(asked + [cs[0].path], cs[1..], i, resolver, q)
  {
    hide WrittenAt;
    WrittenTail(asked, cs, resolver, q);
  }

  lemma {:induction false} NoWrite(asked: seq<Path>, cs: seq<Conflict>, resolver: Resolver, q: Path)
    requires NoneFrom(asked, cs, 0, resolver, q)
    ensures LastWrite(asked, cs, resolver, q) == None
    decreases |cs|
  {
    hide Written, WrittenAt;
    if cs != [] {
      WrittenTail(asked, cs, resolver, q);
      NoneTail(asked, cs, 0, resolver, q);
      NoWrite(asked + [cs[0].path], cs[1..], resolver, q);
    }
  }

  lemma {:induction false} LastIs(asked: seq<Path>, cs: seq<Conflict>, i: nat, resolver: Resolver, q: Path)
    requires i < |cs| && WrittenAt(asked, cs, i, resolver, q).Some? && NoneFrom(asked, cs, i + 1, resolver, q)
    ensures LastWrite(asked, cs, resolver, q) == WrittenAt(asked, cs, i, resolver, q)
    decreases |cs|
  {
    hide Written, WrittenAt, NoneFrom;
    WrittenTail(asked, cs, resolver, q);
    NoneTail(asked, cs, i, resolver, q);
    if i == 0 {
      NoWrite(asked + [cs[0].path], cs[1..], resolver, q);
    } else {
      LastIs(asked + [cs[0].path], cs[1..], i - 1, resolver, q);
    }
  }

  /** After one commit every path holds what was written to it last, and otherwise what was
      checked out: for any mix of answers and any kind of conflict. */
  lemma ResolveAllIs(s: Progress, cs: seq<Conflict>, resolver: Resolver, q: Path)
    ensures var t := ResolveAll(s, cs, resolver); !t.stopped ==>
      && (NoneFrom(s.resolved, cs, 0, resolver, q) ==> At(t.work, q) == At(s.work, q))
      && forall i :: 0 <= i < |cs| && WrittenAt(s.resolved, cs, i, resolver, q).Some? && NoneFrom(s.resolved, cs, i + 1, resolver, q) ==>
           At(t.work, q) == WrittenAt(s.resolved, cs, i, resolver, q)
  {
    hide WrittenAt, NoneFrom, ResolveAll, LastWrite;
    if !ResolveAll(s, cs, resolver).stopped {
      ResolveAllWrites(s, cs, resolver, q);
      if NoneFrom(s.resolved, cs, 0, resolver, q) {
        NoWrite(s.resolved, cs, resolver, q);
      }
      forall i | 0 <= i < |cs| && WrittenAt(s.resolved, cs, i, resolver, q).Some? && NoneFrom(s.resolved, cs, i + 1, resolver, q)
        ensures LastWrite(s.resolved, cs, resolver, q) == WrittenAt(s.resolved, cs, i, resolver, q)
      {
        LastIs(s.resolved, cs, i, resolver, q);
      }
    }
  }

  /** What is staged in the end is the working tree. */
  lemma {:induction false} StagedIsWork(s: Progress, cs: seq<Conflict>, resolver: Resolver)
    requires forall q :: q !in Paths(cs) ==> At(s.tree, q) == At(s.work, q)
    ensures !ResolveAll(s, cs, resolver).stopped ==> ResolveAll(s, cs, resolver).tree == ResolveAll(s, cs, resolver).work
    decreases |cs|
  {
    hide ResolveOne;
    if cs == [] {
      SameTrees(s.tree, s.work);
    } else if !s.stopped {
      var choice := resolver(s.resolved, cs[0].path);
      var next := ResolveOne(s, cs[0], choice);
      if !next.stopped {
        assert Paths(cs) == [cs[0].path] + Paths(cs[1..]);
        forall q | q !in Paths(cs[1..])
          ensures At(next.tree, q) == At(next.work, q)
        {
          OneStages(s, cs[0], choice, q);
        }
        StagedIsWork(next, cs[1..], resolver);
      } else {
        assert ResolveAll(s, cs, resolver) == next;
      }
    }
  }

  lemma OneStages(s: Progress, c: Conflict, choice: Choice, q: Path)
    requires !ResolveOne(s, c, choice).stopped
    requires q != c.path ==> At(s.tree, q) == At(s.work, q)
    ensures At(ResolveOne(s, c, choice).tree, q) == At(ResolveOne(s, c, choice).work, q)
  {
    hide Sibling, Blocked;
    SiblingInjective(c.path, c.path);
  }

  lemma SameTrees(a: Tree, b: Tree)
    requires forall q :: At(a, q) == At(b, q)
    ensures a == b
  {
    assert forall q :: q in a <==> At(a, q).Some?;
    assert forall q :: q in b <==> At(b, q).Some?;
    assert forall q :: q in a ==> At(a, q) == Some(a[q]) && At(b, q) == Some(b[q]);
    assert a.Keys == b.Keys;
  }

  /** Every conflicted path is asked about once, in order, and the siblings of exactly the
      files kept twice are reported. */
  lemma {:induction false} ResolveAllAsks(s: Progress, cs: seq<Conflict>, resolver: Resolver, q: Path)
    ensures var t := ResolveAll(s, cs, resolver);
      && s.keptBoth <= t.keptBoth
      && (!t.stopped ==> t.resolved == s.resolved + Paths(cs))
      && (!t.stopped ==> (q in t.keptBoth <==> q in s.keptBoth || IsSibling(s.resolved, cs, resolver, q)))
    decreases |cs|
  {
    hide Sibling, IsSibling, ResolveOne;
    if cs == [] {
      assert s.resolved + Paths(cs) == s.resolved;
      NoSibling(s.resolved, resolver, q);
    } else if !s.stopped {
      var choice := resolver(s.resolved, cs[0].path);
      var next := ResolveOne(s, cs[0], choice);
      OneKeeps(s, cs[0], choice);
      if next.stopped {
        assert ResolveAll(s, cs, resolver) == next;
      } else {
        OneWrites(s, cs[0], choice, q);
        ResolveAllAsks(next, cs[1..], resolver, q);
        assert s.resolved + [cs[0].path] + Paths(cs[1..]) == s.resolved + Paths(cs);
        SiblingCons(s.resolved, cs, resolver, q);
      }
    }
  }

  lemma OneKeeps(s: Progress, c: Conflict, choice: Choice)
    ensures s.keptBoth <= ResolveOne(s, c, choice).keptBoth
  {
    hide Sibling, Blocked;
  }

  /** `q` is the sibling of some file kept twice. */
  ghost predicate IsSibling(asked: seq<Path>, cs: seq<Conflict>, resolver: Resolver, q: Path) {
    exists i :: 0 <= i < |cs| && ChoiceAt(asked, cs, i, resolver) == KeepBoth && Sibling(cs[i].path) == q
  }

  lemma NoSibling(asked: seq<Path>, resolver: Resolver, q: Path)
    ensures !IsSibling(asked, [], resolver, q)
  {
  }

  lemma SiblingCons(asked: seq<Path>, cs: seq<Conflict>, resolver: Resolver, q: Path)
    requires cs != []
    ensures IsSibling(asked, cs, resolver, q) <==>
      (resolver(asked, cs[0].path) == KeepBoth && Sibling(cs[0].path) == q) || IsSibling(asked + [cs[0].path], cs[1..], resolver, q)
  {
    hide Sibling, ChoiceAt;
    var rest := asked + [cs[0].path];
    ChoiceFirst(asked, cs, resolver);
    if IsSibling(rest, cs[1..], resolver, q) {
      var i :| 0 <= i < |cs| - 1 && ChoiceAt(rest, cs[1..], i, resolver) == KeepBoth && Sibling(cs[1..][i].path) == q;
      ChoiceTail(asked, cs, i, resolver);
      assert cs[1..][i] == cs[i + 1];
    }
    if IsSibling(asked, cs, resolver, q) {
      var i :| 0 <= i < |cs| && ChoiceAt(asked, cs, i, resolver) == KeepBoth && Sibling(cs[i].path) == q;
      if i > 0 {
        ChoiceTail(asked, cs, i - 1, resolver);
        assert cs[1..][i - 1] == cs[i];
      }
    }
  }

  // --- one commit: when it stops -------------------------------------------------------

  /** The sibling of a file kept twice cannot be written, or, with no local side to write,
      there is no file to stage. */
  predicate Unstageable(work: Tree, c: Conflict) {
    if c.local.Some? then Blocked(work, Sibling(c.path)) else Sibling(c.path) !in work
  }

  lemma OneStops(s: Progress, c: Conflict, choice: Choice)
    requires !s.stopped && ClashFree(s.work.Keys) && c.path in s.work
    ensures var next := ResolveOne(s, c, choice);
      && (next.stopped <==> choice == KeepBoth && Unstageable(s.work, c))
      && (!next.stopped ==>
            && next.work.Keys == s.work.Keys + (if choice == KeepBoth && c.local.Some? then {Sibling(c.path)} else {})
            && ClashFree(next.work.Keys))
  {
    hide Sibling;
    assert !Blocked(s.work, c.path);
    var start := s.(tree := s.tree - {c.path}, resolved := s.resolved + [c.path]);
    var first := Stage(start, c.path, Chosen(c, choice));
    assert first.work.Keys == s.work.Keys && !first.stopped;
    SameBlocked(s.work, first.work, Sibling(c.path));
    var next := ResolveOne(s, c, choice);
    if choice == KeepBoth && !next.stopped && c.local.Some? {
      var q := Sibling(c.path);
      assert !Blocked(s.work, q);
      assert next.work.Keys == s.work.Keys + {q};
      assert !(q + "/" <= q);
    }
  }

  lemma SameBlocked(a: Tree, b: Tree, q: Path)
    requires a.Keys == b.Keys
    ensures Blocked(a, q) <==> Blocked(b, q)
  {
    assert forall p :: p in a <==> p in b;
  }

  /** An earlier sibling makes no difference. */
  lemma StillUnstageable(a: Tree, b: Tree, x: Conflict, c: Conflict)
    requires b.Keys == a.Keys || (b.Keys == a.Keys + {Sibling(x.path)} && !Blocked(a, Sibling(x.path)))
    requires x.path in a && c.path in a && x.path != c.path
    ensures Unstageable(a, c) <==> Unstageable(b, c)
  {
    hide Sibling;
    var s, q := Sibling(x.path), Sibling(c.path);
    SiblingInjective(x.path, c.path);
    assert forall p :: p in b ==> p in a || p == s;
    assert forall p :: p in a ==> p in b;
    if Blocked(b, q) && !Blocked(a, q) {
      if q + "/" <= s { SiblingDir(q, x.path); }
      if s + "/" <= q { SiblingDir(s, c.path); }
      assert false;
    }
  }

  /** Exactly when one commit's conflicts cannot be resolved, from the answers and the
      checked-out files alone. */
  lemma {:induction false} ResolveAllStops(s: Progress, cs: seq<Conflict>, resolver: Resolver)
    requires !s.stopped && NoRepeats(cs) && ClashFree(s.work.Keys) && forall i :: 0 <= i < |cs| ==> cs[i].path in s.work
    ensures ResolveAll(s, cs, resolver).stopped <==>
      exists i :: 0 <= i < |cs| && ChoiceAt(s.resolved, cs, i, resolver) == KeepBoth && Unstageable(s.work, cs[i])
    ensures !ResolveAll(s, cs, resolver).stopped ==> ClashFree(ResolveAll(s, cs, resolver).work.Keys)
    decreases |cs|
  {
    hide Sibling, ResolveOne, Blocked, ClashFree, ChoiceAt;
    if cs != [] {
      var choice := resolver(s.resolved, cs[0].path);
      var next := ResolveOne(s, cs[0], choice);
      OneStops(s, cs[0], choice);
      ChoiceFirst(s.resolved, cs, resolver);
      if next.stopped {
        assert ResolveAll(s, cs, resolver) == next;
        assert ChoiceAt(s.resolved, cs, 0, resolver) == KeepBoth && Unstageable(s.work, cs[0]);
      } else {
        OneWrites(s, cs[0], choice, cs[0].path);
        assert forall i :: 0 <= i < |cs| - 1 ==> cs[1..][i] == cs[i + 1];
        ResolveAllStops(next, cs[1..], resolver);
        forall i | 0 <= i < |cs| - 1
          ensures ChoiceAt(next.resolved, cs[1..], i, resolver) == ChoiceAt(s.resolved, cs, i + 1, resolver)
          ensures Unstageable(next.work, cs[1..][i]) <==> Unstageable(s.work, cs[i + 1])
        {
          ChoiceTail(s.resolved, cs, i, resolver);
          StillUnstageable(s.work, next.work, cs[0], cs[i + 1]);
        }
        if i :| 0 <= i < |cs| && ChoiceAt(s.resolved, cs, i, resolver) == KeepBoth && Unstageable(s.work, cs[i]) {
          assert i > 0 && ChoiceAt(next.resolved, cs[1..], i - 1, resolver) == KeepBoth && Unstageable(next.work, cs[1..][i - 1]);
        }
      }
    }
  }

  // --- one commit, merged path by path ---------------------------------------------------

  /** The commit is merged path by path, on trees that fit together. */
  ghost predicate PathWise(r: Replay, c: Commit, env: Env) {
    && MergeOf(r, c, env) == PathMerge(BaseTree(c), r.head.tree, c.tree)
    && NoClash(r.head.tree, c.tree)
  }

  ghost predicate InConflict(r: Replay, c: Commit, p: Path) {
    MergeAt(BaseTree(c), r.head.tree, c.tree, p).None?
  }

  lemma {:induction false} CheckoutFrame(clean: Tree, cs: seq<Conflict>, q: Path)
    ensures q !in Paths(cs) ==> At(Checkout(clean, cs), q) == At(clean, q)
    decreases |cs|
  {
    if cs != [] {
      assert Paths(cs) == [cs[0].path] + Paths(cs[1..]);
      CheckoutFrame(clean, cs[1..], q);
    }
  }

  lemma {:induction false} CheckoutAt(clean: Tree, cs: seq<Conflict>, i: nat)
    requires NoRepeats(cs) && i < |cs| && (cs[i].remote.Some? || cs[i].local.Some?)
    ensures At(Checkout(clean, cs), cs[i].path) == Side(cs[i].remote, cs[i].local)
    decreases |cs|
  {
    if i > 0 {
      assert cs[1..][i - 1] == cs[i];
      CheckoutAt(clean, cs[1..], i - 1);
    }
  }

  lemma PickHead(r: Replay, c: Commit, env: Env)
    ensures var next, s := Pick(r, c, env), PickTree(r, c, env);
      && next.resolved == s.resolved && next.keptBoth == s.keptBoth && next.stopped == s.stopped
      && (if s.stopped then next.head == r.head else next.head.tree == s.work)
  {
    hide ResolveAll;
    var m := MergeOf(r, c, env);
    forall q | q !in Paths(m.conflicts)
      ensures At(m.clean, q) == At(Checkout(m.clean, m.conflicts), q)
    {
      CheckoutFrame(m.clean, m.conflicts, q);
    }
    StagedIsWork(Opened(r, m), m.conflicts, env.resolver);
  }

  /** The conflicts of a path-wise merge, each listed once, in order, with a side at least. */
  lemma ConflictsAre(r: Replay, c: Commit, env: Env)
    requires PathWise(r, c, env)
    ensures var cs := MergeOf(r, c, env).conflicts;
      && NoRepeats(cs)
      && (forall i, j :: 0 <= i < j < |cs| ==> Leq(cs[i].path, cs[j].path))
      && (forall p :: p in Paths(cs) <==> InConflict(r, c, p))
      && forall i :: 0 <= i < |cs| ==>
           cs[i] == Conflict(cs[i].path, At(r.head.tree, cs[i].path), At(c.tree, cs[i].path)) && Sided(cs[i])
  {
    hide Sorted, Merged, MergeAt, Leq;
    var base, ours, theirs := BaseTree(c), r.head.tree, c.tree;
    var ps, cs := Sorted(Conflicts(base, ours, theirs)), MergeOf(r, c, env).conflicts;
    assert Paths(cs) == ps;
    forall p
      ensures p in ps <==> InConflict(r, c, p)
    {
      ConflictIs(base, ours, theirs, p);
    }
    forall i | 0 <= i < |cs|
      ensures Sided(cs[i])
    {
      assert cs[i].path == ps[i];
      ConflictChanged(r, c, cs[i].path);
    }
    forall i, j | 0 <= i < j < |cs|
      ensures Leq(cs[i].path, cs[j].path)
    {
      SortedOrder(Conflicts(base, ours, theirs), i, j);
    }
  }

  predicate Sided(c: Conflict) {
    c.remote.Some? || c.local.Some?
  }

  lemma ConflictIs(base: Tree, ours: Tree, theirs: Tree, p: Path)
    ensures p in Conflicts(base, ours, theirs) <==> MergeAt(base, ours, theirs, p).None?
  {
  }

  /** The index of a conflicted path. */
  lemma ConflictAt(r: Replay, c: Commit, env: Env, p: Path) returns (i: nat)
    requires PathWise(r, c, env) && InConflict(r, c, p)
    ensures var cs := MergeOf(r, c, env).conflicts;
      i < |cs| && cs[i] == Conflict(p, At(r.head.tree, p), At(c.tree, p))
  {
    hide MergeOf, PathWise, InConflict, Leq;
    ConflictsAre(r, c, env);
    var cs := MergeOf(r, c, env).conflicts;
    i :| 0 <= i < |cs| && Paths(cs)[i] == p;
  }

  ghost predicate KeptTwice(r: Replay, c: Commit, env: Env, q: Path) {
    IsSibling(r.resolved, MergeOf(r, c, env).conflicts, env.resolver, q)
  }

  function Answer(r: Replay, c: Commit, env: Env, i: nat): Choice
    requires i < |MergeOf(r, c, env).conflicts|
  {
    ChoiceAt(r.resolved, MergeOf(r, c, env).conflicts, i, env.resolver)
  }

  /** What the `i`th answer asks for at its path: a deleted side gives way to the other. */
  function Resolved(r: Replay, c: Commit, env: Env, i: nat): Option<Blob>
    requires i < |MergeOf(r, c, env).conflicts|
  {
    var x := MergeOf(r, c, env).conflicts[i];
    if Answer(r, c, env, i) == KeepLocal then Side(x.local, x.remote) else Side(x.remote, x.local)
  }

  /** The `i`th conflict is kept twice, with a local blob for the sibling. */
  ghost predicate Copies(r: Replay, c: Commit, env: Env, i: nat) {
    i < |MergeOf(r, c, env).conflicts| && Answer(r, c, env, i) == KeepBoth && MergeOf(r, c, env).conflicts[i].local.Some?
  }

  ghost predicate CopiedTo(r: Replay, c: Commit, env: Env, q: Path) {
    exists i: nat :: Copies(r, c, env, i) && Sibling(MergeOf(r, c, env).conflicts[i].path) == q
  }

  /** A replayed commit touches conflicted paths and the siblings of those kept twice; every
      other path is merged cleanly. */
  lemma PickFrame(r: Replay, c: Commit, env: Env, q: Path)
    requires PathWise(r, c, env) && !InConflict(r, c, q) && !CopiedTo(r, c, env, q)
    ensures !Pick(r, c, env).stopped ==> Some(At(Pick(r, c, env).head.tree, q)) == MergeAt(BaseTree(c), r.head.tree, c.tree, q)
  {
    hide Sibling, ResolveAll, Merged, MergeAt, Conflicts, Sorted, Pick, Leq, InConflict;
    var m := MergeOf(r, c, env);
    PickHead(r, c, env);
    ConflictsAre(r, c, env);
    assert NoneFrom(r.resolved, m.conflicts, 0, env.resolver, q) by {
      forall j | 0 <= j < |m.conflicts|
        ensures WrittenAt(r.resolved, m.conflicts, j, env.resolver, q).None?
      {
        assert Paths(m.conflicts)[j] != q;
        assert !(Copies(r, c, env, j) && Sibling(m.conflicts[j].path) == q);
      }
    }
    ResolveAllIs(Opened(r, m), m.conflicts, env.resolver, q);
    CheckoutFrame(m.clean, m.conflicts, q);
    CleanAt(r, c, q);
  }

  lemma CleanAt(r: Replay, c: Commit, q: Path)
    requires !InConflict(r, c, q)
    ensures Some(At(PathMerge(BaseTree(c), r.head.tree, c.tree).clean, q)) == MergeAt(BaseTree(c), r.head.tree, c.tree, q)
  {
    hide Sorted, MergeAt;
    MergedIs(BaseTree(c), r.head.tree, c.tree, q);
  }

  /** A conflicted path holds the chosen side, unless it is itself the sibling of one kept
      twice. */
  lemma PathHolds(r: Replay, c: Commit, env: Env, i: nat)
    requires PathWise(r, c, env) && i < |MergeOf(r, c, env).conflicts| && !Pick(r, c, env).stopped
    ensures var p := MergeOf(r, c, env).conflicts[i].path;
      !CopiedTo(r, c, env, p) ==> At(Pick(r, c, env).head.tree, p) == Resolved(r, c, env, i)
  {
    hide Sibling, ResolveAll, PathWise, Pick, Leq, InConflict, Checkout, ChoiceAt;
    var m := MergeOf(r, c, env);
    var cs := m.conflicts;
    PickHead(r, c, env);
    ConflictsAre(r, c, env);
    hide MergeOf;
    if !CopiedTo(r, c, env, cs[i].path) {
      forall j | 0 <= j < |cs| && j != i
        ensures WrittenAt(r.resolved, cs, j, env.resolver, cs[i].path).None?
      {
        assert !(Copies(r, c, env, j) && Sibling(cs[j].path) == cs[i].path);
      }
      CheckoutAt(m.clean, cs, i);
      ResolveAllIs(Opened(r, m), cs, env.resolver, cs[i].path);
      var x := WrittenAt(r.resolved, cs, i, env.resolver, cs[i].path);
      if x.Some? {
        assert NoneFrom(r.resolved, cs, i + 1, env.resolver, cs[i].path);
      } else {
        assert NoneFrom(r.resolved, cs, 0, env.resolver, cs[i].path);
      }
    }
  }

  /** The sibling of a path kept twice holds the local blob, unless it is itself in conflict,
      comes later in the order, and has a side chosen that exists. */
  lemma SiblingHolds(r: Replay, c: Commit, env: Env, i: nat)
    requires PathWise(r, c, env) && Copies(r, c, env, i) && !Pick(r, c, env).stopped
    ensures var cs, t := MergeOf(r, c, env).conflicts, Pick(r, c, env).head.tree;
      var q := Sibling(cs[i].path);
      && (forall j :: i < j < |cs| && cs[j].path == q && Chosen(cs[j], Answer(r, c, env, j)).Some? ==>
            At(t, q) == Chosen(cs[j], Answer(r, c, env, j)))
      && ((forall j :: i < j < |cs| && cs[j].path == q ==> Chosen(cs[j], Answer(r, c, env, j)).None?) ==> At(t, q) == cs[i].local)
  {
    hide Sibling, ResolveAll, PathWise, Pick, Leq, InConflict, Checkout, ChoiceAt;
    var m := MergeOf(r, c, env);
    var cs := m.conflicts;
    var q := Sibling(cs[i].path);
    PickHead(r, c, env);
    ConflictsAre(r, c, env);
    SiblingInjective(cs[i].path, cs[i].path);
    hide MergeOf;
    forall j | 0 <= j < |cs| && j != i && cs[j].path != q
      ensures WrittenAt(r.resolved, cs, j, env.resolver, q).None?
    {
      SiblingInjective(cs[j].path, cs[i].path);
    }
    ResolveAllIs(Opened(r, m), cs, env.resolver, q);
    assert WrittenAt(r.resolved, cs, i, env.resolver, q) == cs[i].local;
    if j :| i < j < |cs| && cs[j].path == q {
      assert WrittenAt(r.resolved, cs, j, env.resolver, q) == Chosen(cs[j], Answer(r, c, env, j));
      assert NoneFrom(r.resolved, cs, j + 1, env.resolver, q);
      if Chosen(cs[j], Answer(r, c, env, j)).None? {
        assert NoneFrom(r.resolved, cs, i + 1, env.resolver, q);
      }
    } else {
      assert NoneFrom(r.resolved, cs, i + 1, env.resolver, q);
    }
  }

  /** At every conflicted path and every sibling written the outcome is decided: the last
      write stays. */
  lemma PickIs(r: Replay, c: Commit, env: Env, i: nat)
    requires PathWise(r, c, env) && i < |MergeOf(r, c, env).conflicts| && !Pick(r, c, env).stopped
    ensures var cs, t := MergeOf(r, c, env).conflicts, Pick(r, c, env).head.tree;
      var p, s := cs[i].path, Sibling(cs[i].path);
      && (!CopiedTo(r, c, env, p) ==> At(t, p) == Resolved(r, c, env, i))
      && (Copies(r, c, env, i) && !InConflict(r, c, s) ==> At(t, s) == cs[i].local)
      && (Copies(r, c, env, i) ==> forall j :: 0 <= j < |cs| && cs[j].path == s ==>
            At(t, s) == if i < j then Side(Chosen(cs[j], Answer(r, c, env, j)), cs[i].local) else cs[i].local)
  {
    hide Sibling, PathWise, Pick, Leq, InConflict, ChoiceAt, MergeOf, Resolved;
    ConflictsAre(r, c, env);
    PathHolds(r, c, env, i);
    if Copies(r, c, env, i) {
      SiblingHolds(r, c, env, i);
      var cs := MergeOf(r, c, env).conflicts;
      assert forall j :: 0 <= j < |cs| ==> Paths(cs)[j] == cs[j].path;
    }
  }

  // --- one commit: nothing is lost --------------------------------------------------------

  /** Every cleanly merged blob is there, every conflicted path holds what was asked for, and
      every file kept twice has its local blob in its sibling. */
  ghost predicate NothingLost(r: Replay, c: Commit, env: Env) {
    var m, t := MergeOf(r, c, env), Pick(r, c, env).head.tree;
    && (forall q :: q in m.clean ==> At(t, q) == At(m.clean, q))
    && (forall i :: 0 <= i < |m.conflicts| ==> At(t, m.conflicts[i].path) == Resolved(r, c, env, i))
    && (forall i: nat :: Copies(r, c, env, i) ==> At(t, Sibling(m.conflicts[i].path)) == m.conflicts[i].local)
  }

  /** What stands at the sibling of a file kept twice, merged cleanly or chosen in a conflict
      of its own, is the local blob anyway. */
  ghost predicate SiblingsAgree(r: Replay, c: Commit, env: Env) {
    forall i: nat :: Copies(r, c, env, i) ==> SiblingAgrees(r, c, env, i)
  }

  ghost predicate SiblingAgrees(r: Replay, c: Commit, env: Env, i: nat)
    requires i < |MergeOf(r, c, env).conflicts|
  {
    var m := MergeOf(r, c, env);
    var s := Sibling(m.conflicts[i].path);
    && (s in m.clean ==> At(m.clean, s) == m.conflicts[i].local)
    && forall j :: 0 <= j < |m.conflicts| && m.conflicts[j].path == s ==> Resolved(r, c, env, j) == m.conflicts[i].local
  }

  /** For any mix of answers, exactly when resolving one commit loses nothing. */
  lemma KeptTwiceIff(r: Replay, c: Commit, env: Env)
    requires PathWise(r, c, env) && !Pick(r, c, env).stopped
    ensures NothingLost(r, c, env) <==> SiblingsAgree(r, c, env)
  {
    hide Sibling, PathWise, Pick, Leq, InConflict, ChoiceAt, MergeOf, Resolved, Copies, CopiedTo;
    var m, t := MergeOf(r, c, env), Pick(r, c, env).head.tree;
    if NothingLost(r, c, env) {
      forall i: nat | Copies(r, c, env, i)
        ensures i < |m.conflicts| && SiblingAgrees(r, c, env, i)
      {
        CopiesIs(r, c, env, i);
      }
    }
    if SiblingsAgree(r, c, env) {
      forall i: nat | Copies(r, c, env, i)
        ensures i < |m.conflicts| && At(t, Sibling(m.conflicts[i].path)) == m.conflicts[i].local
      {
        CopiesIs(r, c, env, i);
        AgreedCopy(r, c, env, i);
      }
      forall i | 0 <= i < |m.conflicts|
        ensures At(t, m.conflicts[i].path) == Resolved(r, c, env, i)
      {
        PathHolds(r, c, env, i);
        if CopiedTo(r, c, env, m.conflicts[i].path) {
          var k := CopyTo(r, c, env, m.conflicts[i].path);
          AgreedCopy(r, c, env, k);
          assert SiblingAgrees(r, c, env, k);
        }
      }
      forall q | q in m.clean
        ensures At(t, q) == At(m.clean, q)
      {
        CleanStays(r, c, env, q);
      }
    }
  }

  lemma CopiesIs(r: Replay, c: Commit, env: Env, i: nat)
    requires Copies(r, c, env, i)
    ensures i < |MergeOf(r, c, env).conflicts| && MergeOf(r, c, env).conflicts[i].local.Some?
    ensures Resolved(r, c, env, i).Some?
  {
  }

  lemma CopyTo(r: Replay, c: Commit, env: Env, q: Path) returns (k: nat)
    requires CopiedTo(r, c, env, q)
    ensures Copies(r, c, env, k) && k < |MergeOf(r, c, env).conflicts| && Sibling(MergeOf(r, c, env).conflicts[k].path) == q
  {
    hide Sibling;
    k :| Copies(r, c, env, k) && Sibling(MergeOf(r, c, env).conflicts[k].path) == q;
  }

  lemma AgreedCopy(r: Replay, c: Commit, env: Env, i: nat)
    requires PathWise(r, c, env) && !Pick(r, c, env).stopped && Copies(r, c, env, i) && SiblingAgrees(r, c, env, i)
    ensures At(Pick(r, c, env).head.tree, Sibling(MergeOf(r, c, env).conflicts[i].path)) == MergeOf(r, c, env).conflicts[i].local
  {
    hide Sibling, PathWise, Pick, Leq, InConflict, ChoiceAt, MergeOf;
    SiblingHolds(r, c, env, i);
    var cs := MergeOf(r, c, env).conflicts;
    if j :| i < j < |cs| && cs[j].path == Sibling(cs[i].path) && Chosen(cs[j], Answer(r, c, env, j)).Some? {
      assert Resolved(r, c, env, j) == cs[i].local;
    }
  }

  lemma CleanIs(r: Replay, c: Commit, env: Env, q: Path)
    requires PathWise(r, c, env) && q in MergeOf(r, c, env).clean
    ensures !InConflict(r, c, q)
  {
    hide MergeAt, Sorted;
    MergedIs(BaseTree(c), r.head.tree, c.tree, q);
  }

  lemma CleanStays(r: Replay, c: Commit, env: Env, q: Path)
    requires PathWise(r, c, env) && !Pick(r, c, env).stopped && q in MergeOf(r, c, env).clean
    requires SiblingsAgree(r, c, env)
    ensures At(Pick(r, c, env).head.tree, q) == At(MergeOf(r, c, env).clean, q)
  {
    hide Sibling, Pick, Leq, ChoiceAt, Resolved, Copies, CopiedTo, MergeAt, Sorted;
    CleanIs(r, c, env, q);
    if CopiedTo(r, c, env, q) {
      var k := CopyTo(r, c, env, q);
      assert SiblingAgrees(r, c, env, k);
      AgreedCopy(r, c, env, k);
    } else {
      PickFrame(r, c, env, q);
      CleanAt(r, c, q);
    }
  }

  // --- one commit: when it stops, in terms of trees ----------------------------------------

  /** Some file kept twice has a sibling that cannot be staged. */
  ghost predicate Stuck(r: Replay, c: Commit, env: Env) {
    var m := MergeOf(r, c, env);
    exists i :: 0 <= i < |m.conflicts| && ChoiceAt(r.resolved, m.conflicts, i, env.resolver) == KeepBoth
      && Unstageable(Checkout(m.clean, m.conflicts), m.conflicts[i])
  }

  /** The checked-out files come from the two trees. */
  lemma CheckedOut(r: Replay, c: Commit, env: Env)
    requires PathWise(r, c, env)
    ensures var m := MergeOf(r, c, env); var work := Checkout(m.clean, m.conflicts);
      && work.Keys <= r.head.tree.Keys + c.tree.Keys && ClashFree(work.Keys)
      && forall i :: 0 <= i < |m.conflicts| ==> m.conflicts[i].path in work
  {
    hide Leq, Sorted, InConflict, MergeAt;
    var m := MergeOf(r, c, env);
    var work := Checkout(m.clean, m.conflicts);
    ConflictsAre(r, c, env);
    forall i | 0 <= i < |m.conflicts|
      ensures m.conflicts[i].path in work && m.conflicts[i].path in r.head.tree.Keys + c.tree.Keys
    {
      CheckoutAt(m.clean, m.conflicts, i);
    }
    forall q | q in work
      ensures q in r.head.tree.Keys + c.tree.Keys
    {
      CheckoutFrame(m.clean, m.conflicts, q);
      if q in Paths(m.conflicts) {
        var i :| 0 <= i < |m.conflicts| && Paths(m.conflicts)[i] == q;
        assert m.conflicts[i].path == q;
      }
    }
  }

  /** Replaying one commit ends with an error exactly when it is stuck, and otherwise leaves a
      tree in which no path is both a file and a directory. */
  lemma PickStopsIff(r: Replay, c: Commit, env: Env)
    requires PathWise(r, c, env) && !r.stopped
    ensures Pick(r, c, env).stopped <==> Stuck(r, c, env)
    ensures !Pick(r, c, env).stopped ==> ClashFree(Pick(r, c, env).head.tree.Keys)
  {
    hide Sibling, ResolveAll, PathWise, Pick, Leq, InConflict, Checkout, ChoiceAt, Unstageable, ClashFree, MergeOf;
    var m := MergeOf(r, c, env);
    PickHead(r, c, env);
    ConflictsAre(r, c, env);
    CheckedOut(r, c, env);
    ResolveAllStops(Opened(r, m), m.conflicts, env.resolver);
  }

  // --- where the promises fail -------------------------------------------------------------

  ghost predicate Answers(env: Env, choice: Choice) {
    forall asked, p :: env.resolver(asked, p) == choice
  }

  function Root(tree: Tree): Commit {
    Commit([], tree, "", 0)
  }

  lemma LawfulMerge(r: Replay, c: Commit, env: Env)
    requires Lawful(env.git) && Plain(env.git, BaseTree(c), r.head.tree, c.tree)
    ensures PathWise(r, c, env)
  {
    hide AllBinary, NoRename, ClashFree;
  }

  /** Files in the root alone. */
  ghost predicate Flat(ps: set<Path>) {
    forall p :: p in ps ==> '/' !in p
  }

  lemma NotUnder(dir: Path, p: Path)
    ensures dir + "/" <= p ==> '/' in p
  {
    if dir + "/" <= p { assert p[|dir|] == '/'; }
  }

  /** Ciphertexts in flat trees, none deleted: the merge is path by path and keeping both never
      stops. */
  lemma FlatPick(r: Replay, c: Commit, env: Env)
    requires Lawful(env.git) && (forall b :: env.git.binary(b)) && Flat(r.head.tree.Keys + c.tree.Keys) && !r.stopped
    requires BaseTree(c).Keys <= r.head.tree.Keys && BaseTree(c).Keys <= c.tree.Keys
    ensures PathWise(r, c, env) && !Pick(r, c, env).stopped
  {
    hide Lawful, Pick, Sibling, ChoiceAt, InConflict, Checkout, MergeOf, Leq, PathMerge;
    forall p, q
      ensures p + "/" <= q ==> '/' in q
    {
      NotUnder(p, q);
    }
    LawfulMerge(r, c, env);
    PickStopsIff(r, c, env);
    ConflictsAre(r, c, env);
    CheckedOut(r, c, env);
    var m := MergeOf(r, c, env);
    var work := Checkout(m.clean, m.conflicts);
    forall i | 0 <= i < |m.conflicts|
      ensures !Unstageable(work, m.conflicts[i])
    {
      var p := m.conflicts[i].path;
      assert Paths(m.conflicts)[i] == p;
      ConflictChanged(r, c, p);
      forall x | x in work
        ensures !(Sibling(p) + "/" <= x) && !(x + "/" <= Sibling(p))
      {
        if x + "/" <= Sibling(p) { SiblingDir(x, p); }
      }
    }
  }

  lemma SiblingFlat(p: Path)
    requires '/' !in p
    ensures '/' !in Sibling(p)
  {
  }

  /** The other device's `.conflict` copy, blob 7, is overwritten when both are kept. */
  lemma SiblingOverwritten(env: Env, p: Path)
    requires Lawful(env.git) && Answers(env, KeepBoth) && (forall b :: env.git.binary(b)) && '/' !in p
    ensures var s := Sibling(p);
      var r, c := Start(Root(map[p := 2, s := 7])), Commit([Root(map[p := 1])], map[p := 3], "", 0);
      !Pick(r, c, env).stopped && At(Pick(r, c, env).head.tree, s) == Some(3)
  {
    hide Sibling, PickTree, MergeOf, PathWise, Lawful, Pick, Leq;
    var s := Sibling(p);
    var r, c := Start(Root(map[p := 2, s := 7])), Commit([Root(map[p := 1])], map[p := 3], "", 0);
    SiblingInjective(p, p);
    SiblingFlat(p);
    assert BaseTree(c) == map[p := 1];
    FlatPick(r, c, env);
    var i := ConflictAt(r, c, env, p);
    PickIs(r, c, env, i);
  }

  /** Byte order behind a common start. */
  lemma {:induction false} LeqPrefix(stem: string, a: string, b: string)
    ensures Leq(stem + a, stem + b) <==> Leq(a, b)
  {
    if stem == "" {
      assert stem + a == a && stem + b == b;
    } else {
      LeqPrefix(stem[1..], a, b);
      assert (stem + a)[1..] == stem[1..] + a && (stem + b)[1..] == stem[1..] + b;
    }
  }

  /** A file is resolved before its sibling, but for pass entries after it. */
  lemma SiblingOrder(p: Path)
    ensures if HasSuffix(p, ".gpg") then Leq(Sibling(p), p) else Leq(p, Sibling(p))
  {
    hide Leq;
    if HasSuffix(p, ".age") || HasSuffix(p, ".gpg") {
      var stem, ext := p[..|p| - 4], p[|p| - 4..];
      assert stem + ext == p && Sibling(p) == stem + (".conflict" + ext);
      LeqPrefix(stem, ext, ".conflict" + ext);
      LeqPrefix(stem, ".conflict" + ext, ext);
      ExtOrder();
    } else {
      assert p + "" == p;
      LeqPrefix(p, "", ".conflict");
      LeqEmpty(".conflict");
    }
  }

  lemma LeqEmpty(b: string)
    ensures Leq("", b)
  {
  }

  lemma ExtOrder()
    ensures Leq(".age", ".conflict.age") && Leq(".conflict.gpg", ".gpg")
    ensures ".conflict" + ".age" == ".conflict.age" && ".conflict" + ".gpg" == ".conflict.gpg"
  {
    assert ".age"[1..] == "age" && ".conflict.age"[1..] == "conflict.age";
    assert ".gpg"[1..] == "gpg" && ".conflict.gpg"[1..] == "conflict.gpg";
  }

  /** A file and its sibling both in conflict, both kept twice: one blob is lost, the local one
      of the file, or for a pass entry the remote one of the sibling. */
  lemma DoubleConflict(r: Replay, c: Commit, env: Env, p: Path)
    requires PathWise(r, c, env) && Answers(env, KeepBoth) && !Pick(r, c, env).stopped
    requires InConflict(r, c, p) && InConflict(r, c, Sibling(p)) && p in c.tree && Sibling(p) in r.head.tree
    ensures At(Pick(r, c, env).head.tree, Sibling(p)) ==
            if HasSuffix(p, ".gpg") then At(c.tree, p) else At(r.head.tree, Sibling(p))
  {
    hide Sibling, MergeOf, PathWise, Pick, Leq, InConflict, HasSuffix;
    var i := ConflictAt(r, c, env, p);
    var j := ConflictAt(r, c, env, Sibling(p));
    ConflictsAre(r, c, env);
    SiblingOrder(p);
    SiblingInjective(p, p);
    LeqTotal(p, Sibling(p));
    assert i < j <==> !HasSuffix(p, ".gpg");
    PickIs(r, c, env, i);
  }

  /** Such a history: the local blob 3, or for a pass entry the remote blob 20, is nowhere. */
  lemma BlobLost(env: Env, p: Path, q: Path)
    requires Lawful(env.git) && Answers(env, KeepBoth) && (forall b :: env.git.binary(b)) && '/' !in p
    ensures var s := Sibling(p);
      var r, c := Start(Root(map[p := 2, s := 20])), Commit([Root(map[p := 1, s := 10])], map[p := 3, s := 30], "", 0);
      !Pick(r, c, env).stopped && At(Pick(r, c, env).head.tree, q) != Some(if HasSuffix(p, ".gpg") then 20 else 3)
  {
    hide Sibling, PickTree, MergeOf, PathWise, Lawful, Pick, Leq, HasSuffix;
    var s := Sibling(p);
    var r, c := Start(Root(map[p := 2, s := 20])), Commit([Root(map[p := 1, s := 10])], map[p := 3, s := 30], "", 0);
    SiblingInjective(p, s);
    SiblingInjective(s, s);
    SiblingFlat(p);
    assert BaseTree(c) == map[p := 1, s := 10];
    FlatPick(r, c, env);
    DoubleConflict(r, c, env, p);
    assert Sibling(s) != p by { SiblingTwice(p); }
    LastOfTwo(r, c, env, p, s, Sibling(s), q);
  }

  lemma SiblingTwice(p: Path)
    ensures |Sibling(Sibling(p))| > |p|
  {
    SiblingTail(p);
    SiblingTail(Sibling(p));
  }

  /** The other paths of that history. */
  lemma LastOfTwo(r: Replay, c: Commit, env: Env, p: Path, s: Path, z: Path, q: Path)
    requires PathWise(r, c, env) && Answers(env, KeepBoth) && !Pick(r, c, env).stopped
    requires p != s && Sibling(p) == s && Sibling(s) == z && z !in {p, s}
    requires r.head.tree == map[p := 2, s := 20] && BaseTree(c) == map[p := 1, s := 10] && c.tree == map[p := 3, s := 30]
    ensures At(Pick(r, c, env).head.tree, p) == Some(2) && At(Pick(r, c, env).head.tree, z) == Some(30)
    ensures q !in {p, s, z} ==> At(Pick(r, c, env).head.tree, q) == None
  {
    hide Sibling, MergeOf, PathWise, Pick, Leq, HasSuffix, CopiedTo;
    assert InConflict(r, c, p) && InConflict(r, c, s) && !InConflict(r, c, z);
    var i := ConflictAt(r, c, env, p);
    var j := ConflictAt(r, c, env, s);
    PickIs(r, c, env, i);
    PickIs(r, c, env, j);
    if CopiedTo(r, c, env, p) {
      var x := CopyOf(r, c, env, p);
      SiblingInjective(x, p);
    }
    if q !in {p, s, z} {
      if CopiedTo(r, c, env, q) {
        var x := CopyOf(r, c, env, q);
      }
      PickFrame(r, c, env, q);
    }
  }

  /** A directory in the sibling's place stops the sync when both are kept. */
  lemma DirectoryAtSibling(env: Env, p: Path)
    requires Lawful(env.git) && Answers(env, KeepBoth) && (forall b :: env.git.binary(b)) && '/' !in p
    ensures var x := Sibling(p) + "/x.age";
      var r, c := Start(Root(map[p := 2, x := 5])), Commit([Root(map[p := 1, x := 5])], map[p := 3, x := 5], "", 0);
      Pick(r, c, env).stopped
  {
    hide Sibling, PickTree, MergeOf, PathWise, Lawful, Pick, Leq, Checkout;
    var x := Sibling(p) + "/x.age";
    var r, c := Start(Root(map[p := 2, x := 5])), Commit([Root(map[p := 1, x := 5])], map[p := 3, x := 5], "", 0);
    TwoFit(p);
    assert BaseTree(c) == map[p := 1, x := 5] && r.head.tree.Keys + c.tree.Keys == {p, x};
    LawfulMerge(r, c, env);
    hide Plain;
    var i := ConflictAt(r, c, env, p);
    var m := MergeOf(r, c, env);
    CleanChecked(r, c, env, x);
    PickStopsIff(r, c, env);
    assert Blocked(Checkout(m.clean, m.conflicts), Sibling(p)) && Unstageable(Checkout(m.clean, m.conflicts), m.conflicts[i]);
  }

  lemma TwoFit(p: Path)
    requires '/' !in p
    ensures var x := Sibling(p) + "/x.age"; x != p && ClashFree({p, x}) && Sibling(p) + "/" <= x
  {
    var s := Sibling(p);
    var x := s + "/x.age";
    SiblingTail(p);
    SiblingFlat(p);
    assert x[|p|] == s[|p|];
    NotUnder(x, p);
    NotUnder(p, p);
  }

  lemma CleanChecked(r: Replay, c: Commit, env: Env, q: Path)
    requires PathWise(r, c, env) && MergeAt(BaseTree(c), r.head.tree, c.tree, q).Some?
    ensures Some(At(Checkout(MergeOf(r, c, env).clean, MergeOf(r, c, env).conflicts), q)) == MergeAt(BaseTree(c), r.head.tree, c.tree, q)
  {
    hide MergeAt, Sorted, Leq;
    ConflictsAre(r, c, env);
    CheckoutFrame(MergeOf(r, c, env).clean, MergeOf(r, c, env).conflicts, q);
    CleanAt(r, c, q);
  }

  /** A sibling written belongs to a conflicted path. */
  lemma CopyOf(r: Replay, c: Commit, env: Env, q: Path) returns (p: Path)
    requires PathWise(r, c, env) && CopiedTo(r, c, env, q)
    ensures InConflict(r, c, p) && ChangedBy(c, p) && Sibling(p) == q
  {
    hide Sibling, PathWise, InConflict, MergeOf, Leq;
    ConflictsAre(r, c, env);
    var k := CopyTo(r, c, env, q);
    p := MergeOf(r, c, env).conflicts[k].path;
    assert Paths(MergeOf(r, c, env).conflicts)[k] == p;
    ConflictChanged(r, c, p);
  }

  /** A library that follows whole renames, at least this one: `a.gpg` to `c.gpg` on the remote
      side, an edit of `a.gpg` on the local one. */
  function Following(): Engine {
    Engine(
      (base, ours, theirs) =>
        if base == map["a.gpg" := 1] && ours == map["c.gpg" := 1] && theirs == map["a.gpg" := 2] then Merge(map["c.gpg" := 2], [])
        else PathMerge(base, ours, theirs),
      (a, b) => a == b,
      b => true)
  }

  /** A remote rename carries the local edit along: where a lawful libgit2 follows a moved entry,
      the path it moved to ends with the local blob, though no local commit touched it and
      nothing was asked. */
  lemma RenameCarriesEdit(resolver: Resolver, stamp: nat)
    ensures var env := Env(Following(), resolver, stamp);
      var base, r := Root(map["a.gpg" := 1]), Start(Root(map["c.gpg" := 1]));
      var c := Commit([base], map["a.gpg" := 2], "", 0);
      && Lawful(env.git) && !NoRename(env.git, base.tree, r.head.tree)
      && !ChangedBy(c, "c.gpg") && At(r.head.tree, "c.gpg") == Some(1)
      && !Pick(r, c, env).stopped && At(Pick(r, c, env).head.tree, "c.gpg") == Some(2) && Pick(r, c, env).resolved == []
  {
    hide PathMerge, NoClash, AllBinary;
    var env := Env(Following(), resolver, stamp);
    var base, r := Root(map["a.gpg" := 1]), Start(Root(map["c.gpg" := 1]));
    var c := Commit([base], map["a.gpg" := 2], "", 0);
    assert BaseTree(c) == base.tree;
    assert "a.gpg"[0] != "c.gpg"[0];
    var p, q := "a.gpg", "c.gpg";
    assert p in base.tree && p !in r.head.tree && q in r.head.tree && q !in base.tree;
    assert base.tree[p] == 1 && r.head.tree[q] == 1;
    assert PickTree(r, c, env).tree == map["c.gpg" := 2];
  }

  /** A local deletion of a file the remote edited is undone when local is kept, and stops the
      sync when both are: there is no file to stage as the sibling. */
  lemma DeletionConflict(env: Env)
    requires Lawful(env.git)
    ensures var r, c := Start(Root(map["a.gpg" := 2])), Commit([Root(map["a.gpg" := 1])], map[], "", 0);
      && (Answers(env, KeepLocal) ==> At(Pick(r, c, env).head.tree, "a.gpg") == Some(2) && !Pick(r, c, env).stopped)
      && (Answers(env, KeepBoth) ==> Pick(r, c, env).stopped)
  {
    hide Sibling, Conflicts, Merged, Sorted, Leq, Checkout, Lawful, MergeOf, PathWise, Pick;
    var r, c := Start(Root(map["a.gpg" := 2])), Commit([Root(map["a.gpg" := 1])], map[], "", 0);
    assert BaseTree(c) == map["a.gpg" := 1];
    assert r.head.tree.Keys + c.tree.Keys == {"a.gpg"};
    NotUnder("a.gpg", "a.gpg");
    LawfulMerge(r, c, env);
    var i := ConflictAt(r, c, env, "a.gpg");
    CheckedOut(r, c, env);
    PickStopsIff(r, c, env);
    SiblingInjective("a.gpg", "a.gpg");
    var m := MergeOf(r, c, env);
    assert Unstageable(Checkout(m.clean, m.conflicts), m.conflicts[i]);
    if Answers(env, KeepLocal) {
      PickKeepLocal(r, c, env, "a.gpg");
    }
  }

  /** A library that merges path by path is lawful, so what is assumed can hold. */
  lemma PathMergeLawful()
    ensures Lawful(Engine(PathMerge, (a, b) => a == b, b => true))
  {
    hide PathMerge;
  }

  // --- a whole rebase ------------------------------------------------------------------

  predicate ChangedBy(c: Commit, p: Path) {
    At(c.tree, p) != At(BaseTree(c), p)
  }

  ghost predicate ChangedIn(todo: seq<Commit>, p: Path) {
    exists i :: 0 <= i < |todo| && ChangedBy(todo[i], p)
  }

  lemma ChangedTail(todo: seq<Commit>, p: Path)
    requires todo != []
    ensures ChangedIn(todo, p) <==> ChangedBy(todo[0], p) || ChangedIn(todo[1..], p)
  {
    hide ChangedBy;
    if ChangedIn(todo[1..], p) {
      var i :| 0 <= i < |todo| - 1 && ChangedBy(todo[1..][i], p);
      assert ChangedBy(todo[i + 1], p);
    }
    if ChangedIn(todo, p) && !ChangedBy(todo[0], p) {
      var i :| 0 <= i < |todo| && ChangedBy(todo[i], p);
      assert ChangedBy(todo[1..][i - 1], p);
    }
  }

  /** A path in conflict was changed by the commit. */
  lemma ConflictChanged(r: Replay, c: Commit, p: Path)
    requires InConflict(r, c, p)
    ensures ChangedBy(c, p) && At(r.head.tree, p) != At(BaseTree(c), p) && At(r.head.tree, p) != At(c.tree, p)
  {
  }

  /** Every commit is replayed on trees that libgit2 merges path by path. */
  ghost predicate PlainReplay(r: Replay, todo: seq<Commit>, env: Env)
    decreases |todo|
  {
    todo == [] || r.stopped ||
    (Plain(env.git, BaseTree(todo[0]), r.head.tree, todo[0].tree) && PlainReplay(Pick(r, todo[0], env), todo[1..], env))
  }

  lemma PlainFirst(r: Replay, todo: seq<Commit>, env: Env)
    requires Lawful(env.git) && PlainReplay(r, todo, env) && todo != [] && !r.stopped
    ensures PathWise(r, todo[0], env) && PlainReplay(Pick(r, todo[0], env), todo[1..], env)
  {
    hide Lawful, Plain, PathWise, Pick;
    LawfulMerge(r, todo[0], env);
  }

  lemma PickAsks(r: Replay, c: Commit, env: Env, q: Path)
    ensures var next := Pick(r, c, env);
      && r.keptBoth <= next.keptBoth
      && (!next.stopped ==> next.resolved == r.resolved + Paths(MergeOf(r, c, env).conflicts))
      && (!next.stopped ==> (q in next.keptBoth <==> q in r.keptBoth || KeptTwice(r, c, env, q)))
  {
    hide IsSibling, ResolveAll, MergeOf, Checkout;
    var m := MergeOf(r, c, env);
    PickHead(r, c, env);
    ResolveAllAsks(Opened(r, m), m.conflicts, env.resolver, q);
  }

  lemma {:induction false} KeptBothGrows(r: Replay, todo: seq<Commit>, env: Env)
    ensures r.keptBoth <= Replayed(r, todo, env).keptBoth
    decreases |todo|
  {
    hide Pick;
    if todo != [] && !r.stopped {
      PickAsks(r, todo[0], env, "");
      KeptBothGrows(Pick(r, todo[0], env), todo[1..], env);
    }
  }

  /** Where libgit2 merges path by path, a path no local commit changed, and no file kept
      twice took, keeps the remote blob, whatever is answered and whatever kind the
      conflicts are. */
  lemma {:induction false} UntouchedStays(r: Replay, todo: seq<Commit>, env: Env, p: Path)
    requires Lawful(env.git) && PlainReplay(r, todo, env)
    requires !ChangedIn(todo, p) && p !in Replayed(r, todo, env).keptBoth
    ensures At(Replayed(r, todo, env).head.tree, p) == At(r.head.tree, p)
    decreases |todo|
  {
    hide Pick, Lawful, PathWise, KeptTwice, ChangedIn, ChangedBy, Plain, CopiedTo;
    if todo != [] && !r.stopped {
      var c := todo[0];
      var next := Pick(r, c, env);
      PlainFirst(r, todo, env);
      ChangedTail(todo, p);
      PickAsks(r, c, env, p);
      KeptBothGrows(next, todo[1..], env);
      assert forall q :: q in next.keptBoth ==> q in Replayed(r, todo, env).keptBoth;
      CopiedIsKept(r, c, env, p);
      PickUnchanged(r, c, env, p);
      UntouchedStays(next, todo[1..], env, p);
    }
  }

  lemma CopiedIsKept(r: Replay, c: Commit, env: Env, q: Path)
    ensures CopiedTo(r, c, env, q) ==> KeptTwice(r, c, env, q)
  {
    hide Sibling;
    if CopiedTo(r, c, env, q) {
      var k := CopyTo(r, c, env, q);
    }
  }

  lemma PickUnchanged(r: Replay, c: Commit, env: Env, p: Path)
    requires PathWise(r, c, env) && !ChangedBy(c, p) && (Pick(r, c, env).stopped || !CopiedTo(r, c, env, p))
    ensures At(Pick(r, c, env).head.tree, p) == At(r.head.tree, p)
  {
    hide Pick, PathWise, CopiedTo;
    PickHead(r, c, env);
    if !Pick(r, c, env).stopped {
      PickFrame(r, c, env, p);
    }
  }

  ghost function TreeAfter(base: Option<Commit>, todo: seq<Commit>): Tree {
    if todo != [] then todo[|todo| - 1].tree
    else if base.Some? then base.value.tree
    else map[]
  }

  lemma ChainedBase(base: Option<Commit>, todo: seq<Commit>)
    requires Chained(base, todo) && todo != []
    ensures BaseTree(todo[0]) == TreeAfter(base, [])
    ensures Chained(Some(todo[0]), todo[1..])
    ensures TreeAfter(base, todo) == TreeAfter(Some(todo[0]), todo[1..])
    ensures TreeAfter(Some(todo[0]), []) == todo[0].tree
  {
  }

  lemma NothingChanged(p: Path)
    ensures !ChangedIn([], p)
  {
  }

  // --- what a rebase reports -------------------------------------------------------------

  /** The paths in conflict, commit by commit, each commit's in byte order. */
  function AskedOf(r: Replay, todo: seq<Commit>, env: Env): seq<Path>
    decreases |todo|
  {
    if todo == [] then []
    else Sorted(Conflicts(BaseTree(todo[0]), r.head.tree, todo[0].tree)) + AskedOf(Pick(r, todo[0], env), todo[1..], env)
  }

  /** The siblings of the paths answered KeepBoth, in the order they are asked about. */
  function CopiesOf(asked: seq<Path>, ps: seq<Path>, resolver: Resolver): seq<Path>
    decreases |ps|
  {
    if ps == [] then [] else CopyOfFirst(asked, ps[0], resolver) + CopiesOf(asked + [ps[0]], ps[1..], resolver)
  }

  function CopyOfFirst(asked: seq<Path>, p: Path, resolver: Resolver): seq<Path> {
    if resolver(asked, p) == KeepBoth then [Sibling(p)] else []
  }

  lemma CopiesStep(asked: seq<Path>, ps: seq<Path>, resolver: Resolver)
    requires ps != []
    ensures CopiesOf(asked, ps, resolver) == CopyOfFirst(asked, ps[0], resolver) + CopiesOf(asked + [ps[0]], ps[1..], resolver)
  {
    hide CopyOfFirst;
  }

  lemma {:induction false} CopiesConcat(asked: seq<Path>, a: seq<Path>, b: seq<Path>, resolver: Resolver)
    ensures CopiesOf(asked, a + b, resolver) == CopiesOf(asked, a, resolver) + CopiesOf(asked + a, b, resolver)
    decreases |a|
  {
    hide CopiesOf, CopyOfFirst;
    if a == [] {
      assert a + b == b && asked + a == asked;
      NoCopies(asked, resolver);
    } else {
      CopiesConcat(asked + [a[0]], a[1..], b, resolver);
      assert (a + b)[1..] == a[1..] + b && (a + b)[0] == a[0] && asked + [a[0]] + a[1..] == asked + a;
      CopiesStep(asked, a, resolver);
      CopiesStep(asked, a + b, resolver);
    }
  }

  /** They are what their name says: `q` is among them exactly when it is the sibling of a path
      answered KeepBoth after those before it. */
  lemma {:induction false} CopiesAre(asked: seq<Path>, ps: seq<Path>, resolver: Resolver, q: Path)
    ensures q in CopiesOf(asked, ps, resolver) <==>
      exists i :: 0 <= i < |ps| && resolver(asked + ps[..i], ps[i]) == KeepBoth && Sibling(ps[i]) == q
    decreases |ps|
  {
    hide Sibling;
    if ps != [] {
      var next := asked + [ps[0]];
      CopiesAre(next, ps[1..], resolver, q);
      assert asked + ps[..0] == asked;
      forall i | 0 <= i < |ps| - 1
        ensures next + ps[1..][..i] == asked + ps[..i + 1] && ps[1..][i] == ps[i + 1]
      {
      }
      if i :| 0 <= i < |ps| && resolver(asked + ps[..i], ps[i]) == KeepBoth && Sibling(ps[i]) == q {
        if i > 0 { assert resolver(next + ps[1..][..i - 1], ps[1..][i - 1]) == KeepBoth; }
      }
      if i :| 0 <= i < |ps| - 1 && resolver(next + ps[1..][..i], ps[1..][i]) == KeepBoth && Sibling(ps[1..][i]) == q {
        assert resolver(asked + ps[..i + 1], ps[i + 1]) == KeepBoth;
      }
    }
  }

  lemma {:induction false} ResolveAllReports(s: Progress, cs: seq<Conflict>, resolver: Resolver)
    requires !ResolveAll(s, cs, resolver).stopped
    ensures ResolveAll(s, cs, resolver).resolved == s.resolved + Paths(cs)
    ensures ResolveAll(s, cs, resolver).keptBoth == s.keptBoth + CopiesOf(s.resolved, Paths(cs), resolver)
    decreases |cs|
  {
    hide ResolveOne, Sibling;
    if cs != [] {
      var choice := resolver(s.resolved, cs[0].path);
      OneWrites(s, cs[0], choice, "");
      ResolveAllReports(ResolveOne(s, cs[0], choice), cs[1..], resolver);
      assert Paths(cs)[1..] == Paths(cs[1..]) && Paths(cs) == [cs[0].path] + Paths(cs[1..]);
    }
  }

  lemma PickReports(r: Replay, c: Commit, env: Env)
    requires PathWise(r, c, env) && !Pick(r, c, env).stopped
    ensures var ps := Sorted(Conflicts(BaseTree(c), r.head.tree, c.tree));
      && Pick(r, c, env).resolved == r.resolved + ps
      && Pick(r, c, env).keptBoth == r.keptBoth + CopiesOf(r.resolved, ps, env.resolver)
  {
    hide Sorted, Conflicts, Merged, ResolveAll, CopiesOf, Checkout;
    var m := MergeOf(r, c, env);
    PickHead(r, c, env);
    ResolveAllReports(Opened(r, m), m.conflicts, env.resolver);
    assert Paths(m.conflicts) == Sorted(Conflicts(BaseTree(c), r.head.tree, c.tree));
  }

  /** A rebase that does not stop reports every path in conflict, in the order they are met,
      and the siblings of those kept twice. */
  lemma {:induction false} ReplayReports(r: Replay, todo: seq<Commit>, env: Env)
    requires Lawful(env.git) && PlainReplay(r, todo, env) && !Replayed(r, todo, env).stopped
    ensures var ps := AskedOf(r, todo, env);
      && Replayed(r, todo, env).resolved == r.resolved + ps
      && Replayed(r, todo, env).keptBoth == r.keptBoth + CopiesOf(r.resolved, ps, env.resolver)
    decreases |todo|
  {
    hide Lawful, Plain, PathWise, Pick, Sorted, Conflicts, CopiesOf;
    if todo == [] {
      assert CopiesOf(r.resolved, [], env.resolver) == [] by { NoCopies(r.resolved, env.resolver); }
      assert r.resolved + [] == r.resolved && r.keptBoth + [] == r.keptBoth;
    } else {
      var next := Pick(r, todo[0], env);
      assert !next.stopped;
      PlainFirst(r, todo, env);
      PickReports(r, todo[0], env);
      ReplayReports(next, todo[1..], env);
      var ps := Sorted(Conflicts(BaseTree(todo[0]), r.head.tree, todo[0].tree));
      CopiesConcat(r.resolved, ps, AskedOf(next, todo[1..], env), env.resolver);
    }
  }

  lemma NoCopies(asked: seq<Path>, resolver: Resolver)
    ensures CopiesOf(asked, [], resolver) == []
  {
  }

  /** The replayed count is what the new head has over a commit it builds on. */
  lemma {:induction false} ReplayCounts(r: Replay, todo: seq<Commit>, env: Env, u: Commit)
    requires u in Anc(r.head)
    ensures Ahead(Replayed(r, todo, env).head, u) + r.replayed == Ahead(r.head, u) + Replayed(r, todo, env).replayed
    decreases |todo|
  {
    hide PickTree, Anc, Ahead;
    if todo != [] && !r.stopped {
      var next := Pick(r, todo[0], env);
      if next.head != r.head {
        ChildAnc(r.head, next.head);
        AncSelf(next.head);
        if next.head in Anc(u) {
          AncTransitive(next.head, u, r.head);
          AncSelf(r.head);
          AncAntisymmetric(r.head, next.head);
        }
        ChildAhead(r.head, next.head, u);
      }
      PickCounts(r, todo[0], env);
      ReplayCounts(next, todo[1..], env, u);
    }
  }

  lemma PickCounts(r: Replay, c: Commit, env: Env)
    ensures var next := Pick(r, c, env); next.replayed == r.replayed + if next.head == r.head then 0 else 1
  {
    hide PickTree;
    if Pick(r, c, env).replayed > r.replayed { ParentDiffers(r.head, Pick(r, c, env).head); }
  }

  // --- when a rebase stops ---------------------------------------------------------------

  lemma ReplayedCons(r: Replay, todo: seq<Commit>, k: nat, env: Env)
    requires k < |todo| && !r.stopped
    ensures Replayed(r, todo[..k + 1], env) == Replayed(Pick(r, todo[0], env), todo[1..][..k], env)
  {
    hide Pick;
    assert todo[..k + 1][1..] == todo[1..][..k];
  }

  /** A rebase ends with an error exactly when the replay comes to a commit it is stuck at: one
      with a file kept twice whose sibling is a directory, or, the local side being deleted, is
      no file. */
  lemma {:induction false} ReplayStopsIff(r: Replay, todo: seq<Commit>, env: Env)
    requires Lawful(env.git) && PlainReplay(r, todo, env) && !r.stopped
    ensures Replayed(r, todo, env).stopped <==>
      exists k :: 0 <= k < |todo| && !Replayed(r, todo[..k], env).stopped && Stuck(Replayed(r, todo[..k], env), todo[k], env)
    decreases |todo|
  {
    hide Lawful, Plain, PathWise, Pick, Stuck;
    if todo != [] {
      var next := Pick(r, todo[0], env);
      PlainFirst(r, todo, env);
      PickStopsIff(r, todo[0], env);
      assert todo[..0] == [] && Replayed(r, todo[..0], env) == r;
      if next.stopped {
        assert Stuck(Replayed(r, todo[..0], env), todo[0], env);
      } else {
        ReplayStopsIff(next, todo[1..], env);
        forall k | 0 <= k < |todo| - 1
          ensures Replayed(r, todo[..k + 1], env) == Replayed(next, todo[1..][..k], env) && todo[k + 1] == todo[1..][k]
        {
          ReplayedCons(r, todo, k, env);
        }
        if k :| 0 <= k < |todo| && !Replayed(r, todo[..k], env).stopped && Stuck(Replayed(r, todo[..k], env), todo[k], env) {
          assert k > 0 && Stuck(Replayed(next, todo[1..][..k - 1], env), todo[1..][k - 1], env);
        }
        if k :| 0 <= k < |todo| - 1 && !Replayed(next, todo[1..][..k], env).stopped && Stuck(Replayed(next, todo[1..][..k], env), todo[1..][k], env) {
          assert Stuck(Replayed(r, todo[..k + 1], env), todo[k + 1], env);
        }
      }
    }
  }

  /** `dir` is no directory of the tree. */
  ghost predicate Bare(t: Tree, dir: Path) {
    forall p :: p in t ==> !(dir + "/" <= p)
  }

  /** Replaying makes no directory that neither side has. */
  lemma PickBare(r: Replay, c: Commit, env: Env, dir: Path)
    requires PathWise(r, c, env) && Bare(r.head.tree, dir) && Bare(c.tree, dir)
    ensures Bare(Pick(r, c, env).head.tree, dir)
  {
    hide Pick, PathWise, Sibling, CopiedTo;
    PickHead(r, c, env);
    if !Pick(r, c, env).stopped {
      forall p | p in Pick(r, c, env).head.tree
        ensures !(dir + "/" <= p)
      {
        if CopiedTo(r, c, env, p) {
          var x := CopyOf(r, c, env, p);
          if dir + "/" <= p { SiblingDir(dir, x); }
        } else if !InConflict(r, c, p) {
          PickFrame(r, c, env, p);
        }
      }
    }
  }

  ghost predicate MayKeepBoth(env: Env, p: Path) {
    exists asked :: env.resolver(asked, p) == KeepBoth
  }

  lemma PickFinishes(r: Replay, c: Commit, env: Env)
    requires PathWise(r, c, env) && !r.stopped
    requires forall p :: ChangedBy(c, p) && MayKeepBoth(env, p) ==>
      p in c.tree && Bare(c.tree, Sibling(p)) && Bare(r.head.tree, Sibling(p))
    ensures !Pick(r, c, env).stopped
  {
    hide PathWise, MergeOf, Pick, Sibling, InConflict, Leq, Checkout;
    var m := MergeOf(r, c, env);
    var work := Checkout(m.clean, m.conflicts);
    PickStopsIff(r, c, env);
    ConflictsAre(r, c, env);
    CheckedOut(r, c, env);
    forall i | 0 <= i < |m.conflicts| && ChoiceAt(r.resolved, m.conflicts, i, env.resolver) == KeepBoth
      ensures !Unstageable(work, m.conflicts[i])
    {
      var p := m.conflicts[i].path;
      assert Paths(m.conflicts)[i] == p;
      ConflictChanged(r, c, p);
      assert MayKeepBoth(env, p);
      forall x | x in work
        ensures !(Sibling(p) + "/" <= x) && !(x + "/" <= Sibling(p))
      {
        if x + "/" <= Sibling(p) { SiblingDir(x, p); }
      }
    }
  }

  /** Checked before the call: a rebase finishes where every path a local commit changes, and
      for which both may be kept, is a file after the change, and no tree of either side has a
      directory in its sibling's place. */
  lemma {:induction false} ReplayFinishes(r: Replay, todo: seq<Commit>, env: Env)
    requires Lawful(env.git) && PlainReplay(r, todo, env) && !r.stopped
    requires forall i, j, p :: 0 <= i < |todo| && 0 <= j < |todo| && ChangedBy(todo[i], p) && MayKeepBoth(env, p) ==>
      p in todo[i].tree && Bare(todo[j].tree, Sibling(p)) && Bare(r.head.tree, Sibling(p))
    ensures !Replayed(r, todo, env).stopped
    decreases |todo|
  {
    hide Lawful, Plain, PathWise, Pick, ChangedBy, Sibling, Bare, MayKeepBoth;
    if todo != [] {
      var next := Pick(r, todo[0], env);
      PlainFirst(r, todo, env);
      PickFinishes(r, todo[0], env);
      forall i, j, p | 0 <= i < |todo| - 1 && 0 <= j < |todo| - 1 && ChangedBy(todo[1..][i], p) && MayKeepBoth(env, p)
        ensures p in todo[1..][i].tree && Bare(todo[1..][j].tree, Sibling(p)) && Bare(next.head.tree, Sibling(p))
      {
        assert todo[1..][i] == todo[i + 1] && todo[1..][j] == todo[j + 1];
        PickBare(r, todo[0], env, Sibling(p));
      }
      ReplayFinishes(next, todo[1..], env);
    }
  }

  // --- always keep local ---------------------------------------------------------------

  /** One commit with local kept never stops: it is the merge, and in a conflict the local blob,
      or the remote one where the local side is deleted. */
  lemma PickKeepLocal(r: Replay, c: Commit, env: Env, p: Path)
    requires PathWise(r, c, env) && Answers(env, KeepLocal) && !r.stopped
    ensures !Pick(r, c, env).stopped
    ensures At(Pick(r, c, env).head.tree, p) ==
            match MergeAt(BaseTree(c), r.head.tree, c.tree, p)
            case Some(v) => v
            case None => Side(At(c.tree, p), At(r.head.tree, p))
  {
    hide Pick, PathWise, MergeAt, Sibling, MergeOf, Leq;
    PickStopsIff(r, c, env);
    if InConflict(r, c, p) {
      var i := ConflictAt(r, c, env, p);
      PickIs(r, c, env, i);
    } else {
      PickFrame(r, c, env, p);
    }
  }

  /** The local commits that change `p` all delete it. */
  ghost predicate OnlyDeleted(todo: seq<Commit>, p: Path) {
    forall i :: 0 <= i < |todo| && ChangedBy(todo[i], p) ==> p !in todo[i].tree
  }

  lemma DeletedTail(todo: seq<Commit>, p: Path)
    requires todo != []
    ensures OnlyDeleted(todo, p) <==> (ChangedBy(todo[0], p) ==> p !in todo[0].tree) && OnlyDeleted(todo[1..], p)
  {
    hide ChangedBy;
    if OnlyDeleted(todo[1..], p) && (ChangedBy(todo[0], p) ==> p !in todo[0].tree) {
      forall i | 0 <= i < |todo| && ChangedBy(todo[i], p)
        ensures p !in todo[i].tree
      {
        if i > 0 { assert todo[1..][i - 1] == todo[i]; }
      }
    }
    if OnlyDeleted(todo, p) {
      forall i | 0 <= i < |todo| - 1 && ChangedBy(todo[1..][i], p)
        ensures p !in todo[1..][i].tree
      {
        assert todo[1..][i] == todo[i + 1];
      }
    }
  }

  /** What a path holds in the end: `v` on the remote side, `was` where the local commits
      start, `last` where they end. */
  function LocalKept(v: Option<Blob>, was: Option<Blob>, last: Option<Blob>, changed: bool, onlyDeleted: bool): Option<Blob> {
    if !changed then v
    else if last.Some? then last
    else if v != was && onlyDeleted then v
    else None
  }

  lemma {:induction false} KeepLocalWins(r: Replay, base: Option<Commit>, todo: seq<Commit>, env: Env, p: Path)
    requires Lawful(env.git) && PlainReplay(r, todo, env) && Answers(env, KeepLocal) && Chained(base, todo) && !r.stopped
    ensures !Replayed(r, todo, env).stopped
    ensures At(Replayed(r, todo, env).head.tree, p) == LocalKept(
      At(r.head.tree, p), At(TreeAfter(base, []), p), At(TreeAfter(base, todo), p), ChangedIn(todo, p), OnlyDeleted(todo, p))
    decreases |todo|
  {
    hide Pick, Lawful, Plain, PathWise, Answers, ChangedIn, OnlyDeleted, TreeAfter;
    if todo == [] {
      NothingChanged(p);
    } else {
      var c := todo[0];
      ChainedBase(base, todo);
      ChangedTail(todo, p);
      DeletedTail(todo, p);
      PlainFirst(r, todo, env);
      PickKeepLocal(r, c, env, p);
      KeepLocalWins(Pick(r, c, env), Some(c), todo[1..], env, p);
      if !ChangedIn(todo[1..], p) {
        UnchangedAfter(Some(c), todo[1..], p);
      } else if At(c.tree, p).None? {
        AddedBack(Some(c), todo[1..], p);
      }
    }
  }

  lemma {:induction false} UnchangedAfter(base: Option<Commit>, todo: seq<Commit>, p: Path)
    requires Chained(base, todo) && !ChangedIn(todo, p)
    ensures At(TreeAfter(base, todo), p) == At(TreeAfter(base, []), p) && OnlyDeleted(todo, p)
    decreases |todo|
  {
    hide ChangedIn, TreeAfter, OnlyDeleted;
    if todo == [] {
      NothingDeleted(p);
    } else {
      ChainedBase(base, todo);
      ChangedTail(todo, p);
      DeletedTail(todo, p);
      UnchangedAfter(Some(todo[0]), todo[1..], p);
    }
  }

  lemma NothingDeleted(p: Path)
    ensures OnlyDeleted([], p)
  {
  }

  /** What is not there can only be changed by adding it. */
  lemma {:induction false} AddedBack(base: Option<Commit>, todo: seq<Commit>, p: Path)
    requires Chained(base, todo) && ChangedIn(todo, p) && p !in TreeAfter(base, [])
    ensures !OnlyDeleted(todo, p)
    decreases |todo|
  {
    hide ChangedIn, TreeAfter, OnlyDeleted;
    if todo == [] {
      NothingChanged(p);
    } else {
      ChainedBase(base, todo);
      ChangedTail(todo, p);
      DeletedTail(todo, p);
      if !ChangedBy(todo[0], p) {
        AddedBack(Some(todo[0]), todo[1..], p);
      }
    }
  }

  /** With local always kept no sync stops, and every path is decided: one no local commit changed is the
      remote's; a changed one is as the local head has it, except that a file the remote
      edited and the local commits only delete comes back as the remote has it. */
  lemma RebaseKeepLocal(head: Commit, upstream: Commit, env: Env, p: Path) returns (base: Option<Commit>)
    requires Linear(head) && Lawful(env.git) && Answers(env, KeepLocal)
    requires PlainReplay(Start(upstream), Todo(head, upstream), env)
    ensures !RebaseOf(head, upstream, env).stopped
    ensures Chained(base, Todo(head, upstream)) && (base.Some? ==> base.value in Anc(upstream))
    ensures var todo, t := Todo(head, upstream), RebaseOf(head, upstream, env).head.tree;
      At(t, p) ==
        if !ChangedIn(todo, p) then At(upstream.tree, p)
        else if p !in head.tree && OnlyDeleted(todo, p) && At(upstream.tree, p) != At(TreeAfter(base, []), p) then At(upstream.tree, p)
        else At(head.tree, p)
  {
    hide Replayed, ChangedIn, PlainReplay, Lawful, OnlyDeleted, Chained, Anc;
    var todo := Todo(head, upstream);
    base := TodoChained(head, upstream);
    KeepLocalWins(Start(upstream), base, todo, env, p);
    if todo == [] {
      NothingChanged(p);
    }
  }

  // --- always keep both ------------------------------------------------------------------

  /** `p` ends as the local head has it, or as the remote has it with the local blob, if
      there is one, in the sibling; before any local change to it, it is as the remote has
      it. */
  ghost predicate Kept(t: Tree, up: Tree, local: Tree, p: Path, touched: bool) {
    if touched then
      At(t, p) == At(local, p) || (At(t, p) == At(up, p) && (p in local ==> At(t, Sibling(p)) == At(local, p)))
    else At(t, p) == At(up, p)
  }

  /** One replayed commit with both kept keeps this up at a path whose sibling it leaves alone
      and that is no sibling of a path it changes. */
  lemma PickKeepBoth(r: Replay, c: Commit, env: Env, up: Tree, p: Path, touched: bool)
    requires PathWise(r, c, env) && Answers(env, KeepBoth) && Kept(r.head.tree, up, BaseTree(c), p, touched)
    requires !ChangedBy(c, Sibling(p)) && forall q :: ChangedBy(c, q) ==> Sibling(q) != p
    ensures !Pick(r, c, env).stopped ==> Kept(Pick(r, c, env).head.tree, up, c.tree, p, touched || ChangedBy(c, p))
  {
    hide Pick, PathWise, CopiedTo, MergeOf, Sibling, Leq;
    if !Pick(r, c, env).stopped {
      var s := Sibling(p);
      assert !InConflict(r, c, s) by {
        if InConflict(r, c, s) { ConflictChanged(r, c, s); }
      }
      if CopiedTo(r, c, env, p) {
        var q := CopyOf(r, c, env, p);
        assert false;
      }
      if InConflict(r, c, p) {
        ConflictChanged(r, c, p);
        var i := ConflictAt(r, c, env, p);
        PickIs(r, c, env, i);
      } else {
        PickFrame(r, c, env, p);
        if CopiedTo(r, c, env, s) {
          var q := CopyOf(r, c, env, s);
          SiblingInjective(q, p);
          assert false;
        }
        PickFrame(r, c, env, s);
      }
    }
  }

  /** No local commit changes the path's sibling, or a path whose sibling it is. */
  ghost predicate Apart(todo: seq<Commit>, p: Path) {
    !ChangedIn(todo, Sibling(p)) && forall q :: ChangedIn(todo, q) ==> Sibling(q) != p
  }

  lemma ApartTail(todo: seq<Commit>, p: Path)
    requires todo != [] && Apart(todo, p)
    ensures Apart(todo[1..], p) && !ChangedBy(todo[0], Sibling(p)) && forall q :: ChangedBy(todo[0], q) ==> Sibling(q) != p
  {
    hide ChangedBy, ChangedIn, Sibling;
    forall q
      ensures ChangedIn(todo, q) <==> ChangedBy(todo[0], q) || ChangedIn(todo[1..], q)
    {
      ChangedTail(todo, q);
    }
  }

  lemma {:induction false} KeepBothPath(
    r: Replay, base: Option<Commit>, todo: seq<Commit>, env: Env, up: Tree, p: Path, touched: bool)
    requires Lawful(env.git) && PlainReplay(r, todo, env) && Answers(env, KeepBoth) && Chained(base, todo)
    requires Apart(todo, p) && !r.stopped
    requires Kept(r.head.tree, up, TreeAfter(base, []), p, touched)
    ensures !Replayed(r, todo, env).stopped ==> Kept(Replayed(r, todo, env).head.tree, up, TreeAfter(base, todo), p, touched || ChangedIn(todo, p))
    decreases |todo|
  {
    hide Pick, Lawful, Plain, PathWise, Answers, ChangedIn, ChangedBy, TreeAfter, Kept, Sibling, Apart;
    if todo == [] {
      NothingChanged(p);
    } else {
      var c := todo[0];
      ChainedBase(base, todo);
      ChangedTail(todo, p);
      ApartTail(todo, p);
      PlainFirst(r, todo, env);
      PickKeepBoth(r, c, env, up, p, touched);
      if !Pick(r, c, env).stopped {
        KeepBothPath(Pick(r, c, env), Some(c), todo[1..], env, up, p, touched || ChangedBy(c, p));
      } else {
        assert Replayed(Pick(r, c, env), todo[1..], env) == Pick(r, c, env);
      }
    }
  }

  /** The local commits never met the blob `v` at `p` where they changed it. */
  ghost predicate Unseen(todo: seq<Commit>, p: Path, v: Option<Blob>) {
    forall i :: 0 <= i < |todo| && ChangedBy(todo[i], p) ==> At(BaseTree(todo[i]), p) != v && At(todo[i].tree, p) != v
  }

  lemma UnseenTail(todo: seq<Commit>, p: Path, v: Option<Blob>)
    requires todo != [] && Unseen(todo, p, v)
    ensures Unseen(todo[1..], p, v)
    ensures ChangedBy(todo[0], p) ==> At(BaseTree(todo[0]), p) != v && At(todo[0].tree, p) != v
  {
    hide ChangedBy;
    assert forall i :: 0 <= i < |todo| - 1 ==> todo[1..][i] == todo[i + 1];
  }

  /** A remote blob that no local change replaces knowingly stays, unless the answer is to
      keep local or a sibling takes its place. */
  lemma {:induction false} RemoteStays(r: Replay, todo: seq<Commit>, env: Env, p: Path)
    requires Lawful(env.git) && PlainReplay(r, todo, env)
    requires p in r.head.tree && Unseen(todo, p, At(r.head.tree, p))
    requires forall asked :: env.resolver(asked, p) != KeepLocal
    requires forall q :: ChangedIn(todo, q) ==> Sibling(q) != p
    ensures At(Replayed(r, todo, env).head.tree, p) == At(r.head.tree, p)
    decreases |todo|
  {
    hide Pick, Lawful, Plain, PathWise, ChangedIn, Unseen, Sibling;
    if todo != [] && !r.stopped {
      var c := todo[0];
      PlainFirst(r, todo, env);
      UnseenTail(todo, p, At(r.head.tree, p));
      forall q
        ensures ChangedIn(todo, q) <==> ChangedBy(c, q) || ChangedIn(todo[1..], q)
      {
        ChangedTail(todo, q);
      }
      PickRemoteStays(r, c, env, p);
      RemoteStays(Pick(r, c, env), todo[1..], env, p);
    }
  }

  lemma PickRemoteStays(r: Replay, c: Commit, env: Env, p: Path)
    requires PathWise(r, c, env) && p in r.head.tree
    requires ChangedBy(c, p) ==> At(BaseTree(c), p) != At(r.head.tree, p) && At(c.tree, p) != At(r.head.tree, p)
    requires forall asked :: env.resolver(asked, p) != KeepLocal
    requires forall q :: ChangedBy(c, q) ==> Sibling(q) != p
    ensures At(Pick(r, c, env).head.tree, p) == At(r.head.tree, p)
  {
    hide Pick, PathWise, CopiedTo, MergeOf, Sibling, Leq;
    PickHead(r, c, env);
    if !Pick(r, c, env).stopped {
      if CopiedTo(r, c, env, p) {
        var q := CopyOf(r, c, env, p);
        assert false;
      }
      if InConflict(r, c, p) {
        var i := ConflictAt(r, c, env, p);
        PickIs(r, c, env, i);
      } else {
        PickFrame(r, c, env, p);
      }
    }
  }

  /** The remote tree has no sibling of a locally changed path. */
  ghost predicate SiblingsAbsent(todo: seq<Commit>, up: Tree) {
    forall q :: ChangedIn(todo, q) ==> Sibling(q) !in up
  }

  /** With both always kept, where no local commit changes a path's sibling, or a path whose
      sibling it is: if locally changed, it ends with the local head's blob, or with the remote
      blob and the local head's blob beside it. And where the remote tree holds no sibling of a
      changed path, every remote blob the local commits did not replace knowingly stays. */
  lemma RebaseKeepBoth(head: Commit, upstream: Commit, env: Env, p: Path)
    requires Linear(head) && Lawful(env.git) && Answers(env, KeepBoth)
    requires PlainReplay(Start(upstream), Todo(head, upstream), env)
    ensures var todo, t := Todo(head, upstream), RebaseOf(head, upstream, env).head.tree;
      && (!RebaseOf(head, upstream, env).stopped && ChangedIn(todo, p) && Apart(todo, p) ==>
            || At(t, p) == At(head.tree, p)
            || (At(t, p) == At(upstream.tree, p) && (p in head.tree ==> At(t, Sibling(p)) == At(head.tree, p))))
      && (SiblingsAbsent(todo, upstream.tree) && p in upstream.tree && Unseen(todo, p, At(upstream.tree, p)) ==>
            At(t, p) == At(upstream.tree, p))
  {
    hide Replayed, ChangedIn, PlainReplay, Sibling, Lawful, Unseen, Apart;
    var todo := Todo(head, upstream);
    var base := TodoChained(head, upstream);
    if ChangedIn(todo, p) && Apart(todo, p) {
      KeepBothPath(Start(upstream), base, todo, env, upstream.tree, p, false);
      assert todo != [] by {
        if todo == [] { NothingChanged(p); }
      }
    }
    if SiblingsAbsent(todo, upstream.tree) && p in upstream.tree && Unseen(todo, p, At(upstream.tree, p)) {
      RemoteStays(Start(upstream), todo, env, p);
    }
  }
}
