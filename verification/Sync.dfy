/** A store's git repository and its remote (git.rs `GitStore`). The transport, credentials
    and error texts are not part of this model. */
module Sync {
  import opened Text
  import opened Commits
  import opened Rebase

  datatype GitError = NoRepository | NoRemote | NoHead | DirtyWorkdir | NonFastForward | CannotStage

  datatype Outcome =
    | UpToDate
    | FastForwarded
    | Rebased(replayed: nat)
    | ResolvedConflicts(resolved: seq<Path>, keptBoth: seq<Path>)

  datatype Status = Status(hasRemote: bool, dirty: bool, ahead: nat, behind: nat)

  /** The refs that matter: the branch and what was last seen of the remote's. */
  datatype Refs = Refs(head: Option<Commit>, tracking: Option<Commit>)

  // --- what the operations do to the refs --------------------------------------------

  function Fetched(d: Refs, remote: Option<Commit>): Refs {
    if remote.Some? then d.(tracking := remote) else d
  }

  /** `sync` after the fetch; the branch moves when it succeeds. */
  function Integrated(d: Refs, env: Env): (Refs, Result<Outcome, GitError>) {
    if d.tracking.None? || d.head.None? then (d, Ok(UpToDate))
    else
      var here, there := d.head.value, d.tracking.value;
      if here == there || Ahead(there, here) == 0 then (d, Ok(UpToDate))
      else if Ahead(here, there) == 0 then (d.(head := d.tracking), Ok(FastForwarded))
      else
        var r := RebaseOf(here, there, env);
        (if r.stopped then d else d.(head := Some(r.head)), OutcomeOf(r))
  }

  function OutcomeOf(r: Replay): Result<Outcome, GitError> {
    if r.stopped then Err(CannotStage)
    else if r.resolved == [] then Ok(Rebased(r.replayed))
    else Ok(ResolvedConflicts(r.resolved, r.keptBoth))
  }

  /** The remote takes only a fast-forward. */
  predicate Accepts(remote: Option<Commit>, head: Commit) {
    remote.None? || remote.value in Anc(head)
  }

  function StatusOf(d: Refs, hasRemote: bool, dirty: bool): Status {
    if d.head.Some? && d.tracking.Some? then
      Status(hasRemote, dirty, Ahead(d.head.value, d.tracking.value), Ahead(d.tracking.value, d.head.value))
    else if d.head.Some? && hasRemote then Status(hasRemote, dirty, |Anc(d.head.value)|, 0)
    else Status(hasRemote, dirty, 0, 0)
  }

  /** Additions and deletions both. */
  function Staged(index: Tree, workdir: Tree, paths: seq<Path>): Tree
    decreases |paths|
  {
    if paths == [] then index
    else Staged(if paths[0] in workdir then index[paths[0] := workdir[paths[0]]] else index - {paths[0]}, workdir, paths[1..])
  }

  function HeadTree(head: Option<Commit>): Tree {
    if head.Some? then head.value.tree else map[]
  }

  const ATTRIBUTES: Path := ".gitattributes"
  const INITIAL: string := "Add current contents of password store."
  const CONFIGURE: string := "Configure git repository for age file diff."

  // --- the repository ----------------------------------------------------------------

  class Remote {
    var head: Option<Commit>

    constructor ()
      ensures head == None
    {
      head := None;
    }
  }

  /** What is on disk. */
  datatype Repository = Repository(origin: Remote?, head: Option<Commit>, tracking: Option<Commit>, index: Tree, workdir: Tree)

  class GitStore {
    var origin: Remote?
    var head: Option<Commit>
    var tracking: Option<Commit>
    var index: Tree
    var workdir: Tree

    ghost function State(): Refs
      reads this
    {
      Refs(head, tracking)
    }

    /** Nothing staged and nothing edited. */
    predicate Clean()
      reads this
    {
      index == HeadTree(head) && workdir == index
    }

    ghost predicate Holds(found: Repository)
      reads this
    {
      && origin == found.origin && State() == Refs(found.head, found.tracking)
      && index == found.index && workdir == found.workdir
    }

    constructor (found: Repository)
      ensures Holds(found)
    {
      origin, head, tracking := found.origin, found.head, found.tracking;
      index, workdir := found.index, found.workdir;
    }

    /** `open` on a path: the repository found there in whatever state it is in, if any. */
    static method Open(found: Option<Repository>) returns (r: Result<GitStore, GitError>)
      ensures found.None? ==> r == Err(NoRepository)
      ensures found.Some? ==> r.Ok? && fresh(r.value) && r.value.Holds(found.value)
    {
      if found.None? {
        return Err(NoRepository);
      }
      var store := new GitStore(found.value);
      return Ok(store);
    }

    /** `init` in a directory without a repository: its contents committed, then the
        attributes file. */
    constructor Init(contents: Tree, attributes: Blob, stamp: nat)
      ensures origin == null && tracking == None && Clean()
      ensures var first := Commit([], contents, INITIAL, stamp);
        head == Some(Commit([first], contents[ATTRIBUTES := attributes], CONFIGURE, stamp))
    {
      origin, tracking := null, None;
      var first := Commit([], contents, INITIAL, stamp);
      var all := contents[ATTRIBUTES := attributes];
      head := Some(Commit([first], all, CONFIGURE, stamp));
      index, workdir := all, all;
    }

    /** `status`. */
    method GetStatus() returns (s: Status)
      ensures s == StatusOf(State(), origin != null, !Clean())
      ensures s.hasRemote <==> origin != null
      ensures s.dirty <==> workdir != index || index != if head.Some? then head.value.tree else map[]
    {
      var hasRemote, dirty := origin != null, !(index == HeadTree(head) && workdir == index);
      if head.Some? && tracking.Some? {
        return Status(hasRemote, dirty, Ahead(head.value, tracking.value), Ahead(tracking.value, head.value));
      } else if head.Some? && hasRemote {
        return Status(hasRemote, dirty, |Anc(head.value)|, 0);
      }
      return Status(hasRemote, dirty, 0, 0);
    }

    /** `commit_index`. */
    method CommitIndex(message: string, stamp: nat) returns (c: Commit)
      modifies this`head
      ensures c == Commit(if old(head).Some? then [old(head).value] else [], index, message, stamp)
      ensures head == Some(c)
    {
      var parents := if head.Some? then [head.value] else [];
      c := Commit(parents, index, message, stamp);
      head := Some(c);
    }

    /** `commit_paths`. */
    method CommitPaths(paths: seq<Path>, message: string, stamp: nat) returns (c: Commit)
      modifies this`head, this`index
      ensures index == Staged(old(index), workdir, paths)
      ensures c == Commit(if old(head).Some? then [old(head).value] else [], index, message, stamp)
      ensures head == Some(c)
    {
      var rest := paths;
      while rest != []
        invariant Staged(old(index), workdir, paths) == Staged(index, workdir, rest)
        invariant head == old(head)
        decreases |rest|
      {
        if rest[0] in workdir {
          index := index[rest[0] := workdir[rest[0]]];
        } else {
          index := index - {rest[0]};
        }
        rest := rest[1..];
      }
      c := CommitIndex(message, stamp);
    }

    method SetRemote(remote: Remote)
      modifies this`origin
      ensures origin == remote
    {
      origin := remote;
    }

    /** `fetch`. */
    method Fetch() returns (error: Option<GitError>)
      modifies this`tracking
      ensures error == if origin == null then Some(NoRemote) else if head.None? then Some(NoHead) else None
      ensures State() == if error.Some? then old(State()) else Fetched(old(State()), origin.head)
    {
      if origin == null {
        return Some(NoRemote);
      }
      if head.None? {
        return Some(NoHead);
      }
      if origin.head.Some? {
        tracking := origin.head;
      }
      return None;
    }

    /** `sync`. */
    method Pull(env: Env) returns (r: Result<Outcome, GitError>)
      modifies this`head, this`tracking, this`index, this`workdir
      ensures !old(Clean()) ==> r == Err(DirtyWorkdir) && State() == old(State()) && index == old(index) && workdir == old(workdir)
      ensures r.Ok? ==> Clean()
      ensures old(Clean()) && origin == null ==> r == Err(NoRemote) && State() == old(State())
      ensures old(Clean()) && origin != null && old(head).None? ==> r == Err(NoHead) && State() == old(State())
      ensures old(Clean()) && origin != null && old(head).Some? ==>
        (State(), r) == Integrated(Fetched(old(State()), origin.head), env)
    {
      hide Ahead, RebaseOf, OutcomeOf;
      var pre := GetStatus();
      if pre.dirty {
        return Err(DirtyWorkdir);
      }
      var error := Fetch();
      if error.Some? {
        return Err(error.value);
      }
      if tracking.None? {
        return Ok(UpToDate);
      }
      var here, there := head.value, tracking.value;
      if here == there {
        return Ok(UpToDate);
      }
      var ahead, behind := Ahead(here, there), Ahead(there, here);
      if behind == 0 {
        return Ok(UpToDate);
      }
      if ahead == 0 {
        head := Some(there);
        index, workdir := there.tree, there.tree;
        return Ok(FastForwarded);
      }
      r := RebaseOnto(there, env);
    }

    /** `rebase_onto`: branch and working tree move when the rebase finishes. */
    method RebaseOnto(upstream: Commit, env: Env) returns (outcome: Result<Outcome, GitError>)
      requires head.Some?
      modifies this`head, this`index, this`workdir
      ensures var r := RebaseOf(old(head).value, upstream, env);
        outcome == OutcomeOf(r) && head == if r.stopped then old(head) else Some(r.head)
      ensures outcome.Ok? ==> Clean()
    {
      hide ResolveAll, MergeOf;
      var rest := Todo(head.value, upstream);
      var onto, replayed, resolved, keptBoth := upstream, 0, [], [];
      while rest != []
        invariant head == old(head)
        invariant RebaseOf(old(head).value, upstream, env)
               == Replayed(Replay(onto, replayed, resolved, keptBoth, false), rest, env)
        decreases |rest|
      {
        var c := rest[0];
        ghost var r := Replay(onto, replayed, resolved, keptBoth, false);
        var merge := env.git.merge(BaseTree(c), onto.tree, c.tree);
        assert merge == MergeOf(r, c, env) by { MergeOfIs(r, c, env); }
        index, workdir := merge.clean, Checkout(merge.clean, merge.conflicts);
        var staged;
        resolved, keptBoth, staged := ResolveConflicts(merge.conflicts, env.resolver, resolved, keptBoth);
        if !staged {
          PickHead(r, c, env);
          assert Replayed(Pick(r, c, env), rest[1..], env) == Pick(r, c, env);
          return Err(CannotStage);
        }
        if index != onto.tree {
          onto := Commit([onto], index, c.message, env.stamp);
          replayed := replayed + 1;
        }
        rest := rest[1..];
      }
      head := Some(onto);
      index, workdir := onto.tree, onto.tree;
      return Ok(if resolved == [] then Rebased(replayed) else ResolvedConflicts(resolved, keptBoth));
    }

    /** The loop over one commit's conflicts, on the index and the working tree. */
    method ResolveConflicts(conflicts: seq<Conflict>, resolver: Resolver, asked: seq<Path>, kept: seq<Path>)
      returns (resolved: seq<Path>, keptBoth: seq<Path>, staged: bool)
      modifies this`index, this`workdir
      ensures var r := ResolveAll(Progress(old(index), old(workdir), asked, kept, false), conflicts, resolver);
        && staged == !r.stopped
        && (staged ==> Progress(index, workdir, resolved, keptBoth, false) == r)
    {
      hide ResolveOne;
      resolved, keptBoth, staged := asked, kept, true;
      var rest := conflicts;
      while rest != [] && staged
        invariant var r := ResolveAll(Progress(old(index), old(workdir), asked, kept, false), conflicts, resolver);
          if staged then r == ResolveAll(Progress(index, workdir, resolved, keptBoth, false), rest, resolver) else r.stopped
        decreases |rest|
      {
        var choice := resolver(resolved, rest[0].path);
        resolved, keptBoth, staged := ResolveConflict(rest[0], choice, resolved, keptBoth);
        rest := rest[1..];
      }
    }

    method ResolveConflict(c: Conflict, choice: Choice, asked: seq<Path>, kept: seq<Path>)
      returns (resolved: seq<Path>, keptBoth: seq<Path>, staged: bool)
      modifies this`index, this`workdir
      ensures var r := ResolveOne(Progress(old(index), old(workdir), asked, kept, false), c, choice);
        && staged == !r.stopped
        && (staged ==> Progress(index, workdir, resolved, keptBoth, false) == r)
    {
      hide Sibling, Stage;
      resolved, keptBoth := asked + [c.path], kept;
      index := index - {c.path};
      staged := StageBlob(c.path, Chosen(c, choice), Progress(index, workdir, resolved, keptBoth, false));
      if staged && choice == KeepBoth {
        staged := StageBlob(Sibling(c.path), c.local, Progress(index, workdir, resolved, keptBoth, false));
        if staged {
          keptBoth := keptBoth + [Sibling(c.path)];
        }
      }
    }

    /** `write_blob_to_workdir`, which does nothing without a blob, and `add_path`. */
    method StageBlob(path: Path, blob: Option<Blob>, ghost s: Progress) returns (ok: bool)
      requires s == Progress(index, workdir, s.resolved, s.keptBoth, false)
      modifies this`index, this`workdir
      ensures var t := Stage(s, path, blob);
        ok == !t.stopped && t == Progress(index, workdir, s.resolved, s.keptBoth, !ok)
    {
      hide Blocked;
      if blob.Some? {
        if Blocked(workdir, path) {
          return false;
        }
        workdir := workdir[path := blob.value];
      }
      if path !in workdir {
        return false;
      }
      index := index[path := workdir[path]];
      return true;
    }

    /** `push`: fast-forward only, and the tracking ref follows. */
    method Push() returns (error: Option<GitError>)
      modifies this`tracking, origin
      ensures origin == null ==> error == Some(NoRemote)
      ensures origin != null && head.None? ==> error == Some(NoHead)
      ensures origin != null && head.Some? ==>
        error == if Accepts(old(origin.head), head.value) then None else Some(NonFastForward)
      ensures error.Some? ==> tracking == old(tracking) && (origin != null ==> origin.head == old(origin.head))
      ensures error.None? ==> origin != null && tracking == head && origin.head == head
    {
      hide Anc;
      if origin == null {
        return Some(NoRemote);
      }
      if head.None? {
        return Some(NoHead);
      }
      if !Accepts(origin.head, head.value) {
        return Some(NonFastForward);
      }
      origin.head := head;
      tracking := head;
      return None;
    }
  }

  // --- committing ----------------------------------------------------------------

  /** Exactly the named paths are staged. */
  lemma {:induction false} StagedAt(index: Tree, workdir: Tree, paths: seq<Path>, p: Path)
    ensures At(Staged(index, workdir, paths), p) == At(if p in paths then workdir else index, p)
    decreases |paths|
  {
    if paths != [] {
      var next := if paths[0] in workdir then index[paths[0] := workdir[paths[0]]] else index - {paths[0]};
      StagedAt(next, workdir, paths[1..], p);
      assert p in paths <==> p == paths[0] || p in paths[1..];
    }
  }

  /** Naming every edited path leaves the tree clean: what is committed is what is there. */
  lemma CommitCleans(index: Tree, workdir: Tree, paths: seq<Path>)
    requires forall p :: At(index, p) != At(workdir, p) ==> p in paths
    ensures Staged(index, workdir, paths) == workdir
  {
    var t := Staged(index, workdir, paths);
    forall p
      ensures At(t, p) == At(workdir, p)
    {
      StagedAt(index, workdir, paths, p);
    }
    assert forall p :: p in t <==> At(t, p).Some?;
    assert forall p :: p in workdir <==> At(workdir, p).Some?;
    assert forall p :: p in t ==> At(t, p) == Some(t[p]) && At(workdir, p) == Some(workdir[p]);
    assert t.Keys == workdir.Keys;
  }

  lemma MergeOfIs(r: Replay, c: Commit, env: Env)
    ensures MergeOf(r, c, env) == env.git.merge(BaseTree(c), r.head.tree, c.tree)
  {
  }

  // --- one sync --------------------------------------------------------------------

  /** After a successful sync, whichever branch it took, the remote head it saw is an ancestor
      of the local one: nothing is behind. */
  lemma IntegratedReaches(d: Refs, env: Env)
    requires d.head.Some? && Integrated(d, env).1.Ok?
    ensures var e := Integrated(d, env).0;
      && e.head.Some? && e.tracking == d.tracking
      && (e.tracking.Some? ==> e.tracking.value in Anc(e.head.value) && Ahead(e.tracking.value, e.head.value) == 0)
      && (e.head == d.head || (e.tracking.Some? && d.tracking.value !in Anc(d.head.value)))
  {
    hide Anc, Replayed, Ahead;
    if d.tracking.Some? {
      var here, there := d.head.value, d.tracking.value;
      NotAhead(there, here);
      AncSelf(there);
      ReplayedBuilds(Start(there), Todo(here, there), env);
      NotAhead(there, Integrated(d, env).0.head.value);
    }
  }

  /** A sync ends with an error exactly when the histories have diverged and the replay comes
      to a commit it is stuck at; the branch is then where it was. */
  lemma StoppedSync(d: Refs, env: Env)
    requires d.head.Some? && d.tracking.Some? && Lawful(env.git)
    requires PlainReplay(Start(d.tracking.value), Todo(d.head.value, d.tracking.value), env)
    ensures var here, there := d.head.value, d.tracking.value; var todo := Todo(here, there);
      Integrated(d, env).1.Err? <==>
        && there !in Anc(here) && here !in Anc(there)
        && exists k :: 0 <= k < |todo| && !Replayed(Start(there), todo[..k], env).stopped
             && Stuck(Replayed(Start(there), todo[..k], env), todo[k], env)
    ensures Integrated(d, env).1.Err? ==> Integrated(d, env) == (d, Err(CannotStage))
  {
    hide Anc, Replayed, Ahead, PlainReplay, Lawful, Stuck, Todo;
    var here, there := d.head.value, d.tracking.value;
    OutcomeIs(d, env);
    ReplayStopsIff(Start(there), Todo(here, there), env);
  }

  lemma IntegratedLinear(d: Refs, env: Env)
    requires (d.head.Some? ==> Linear(d.head.value)) && (d.tracking.Some? ==> Linear(d.tracking.value))
    ensures var e := Integrated(d, env).0; e.head.Some? ==> Linear(e.head.value)
  {
    hide Anc, Replayed, Ahead, Linear;
    if d.head.Some? && d.tracking.Some? {
      var here, there := d.head.value, d.tracking.value;
      ReplayedBuilds(Start(there), Todo(here, there), env);
    }
  }

  /** What a sync reports: up to date exactly when nothing was behind, a fast-forward
      exactly when nothing was ahead either, otherwise what the rebase came to. */
  lemma OutcomeIs(d: Refs, env: Env)
    requires d.head.Some? && d.tracking.Some?
    ensures var here, there, (e, outcome) := d.head.value, d.tracking.value, Integrated(d, env);
      && (outcome == Ok(UpToDate) <==> there in Anc(here))
      && (outcome == Ok(FastForwarded) <==> here in Anc(there) && here != there)
      && (outcome == Ok(FastForwarded) ==> e.head == d.tracking)
      && (outcome == Ok(UpToDate) ==> e == d)
      && (there !in Anc(here) && here !in Anc(there) ==> outcome == OutcomeOf(RebaseOf(here, there, env)))
  {
    hide Anc, Replayed, Ahead;
    var here, there := d.head.value, d.tracking.value;
    NotAhead(there, here);
    NotAhead(here, there);
    AncSelf(here);
    if here in Anc(there) && there in Anc(here) {
      AncAntisymmetric(here, there);
    }
  }

  /** What a finished rebase reports: every path that was in conflict, commit by commit and in
      byte order, and beside them the siblings of those kept twice; or, with no conflict at all,
      how many commits are new on the remote head. */
  lemma OutcomeReports(d: Refs, env: Env)
    requires d.head.Some? && d.tracking.Some? && Lawful(env.git)
    requires d.tracking.value !in Anc(d.head.value) && d.head.value !in Anc(d.tracking.value)
    requires PlainReplay(Start(d.tracking.value), Todo(d.head.value, d.tracking.value), env)
    requires Integrated(d, env).1.Ok?
    ensures var here, there, (e, outcome) := d.head.value, d.tracking.value, Integrated(d, env);
      var ps := AskedOf(Start(there), Todo(here, there), env);
      && e.head == Some(RebaseOf(here, there, env).head) && e.tracking == d.tracking
      && (ps == [] ==> outcome == Ok(Rebased(|Anc(e.head.value) - Anc(there)|)))
      && (ps != [] ==>
            && outcome.value.ResolvedConflicts? && outcome.value.resolved == ps
            && forall q :: q in outcome.value.keptBoth <==>
                 exists i :: 0 <= i < |ps| && env.resolver(ps[..i], ps[i]) == KeepBoth && Sibling(ps[i]) == q)
  {
    hide Anc, Replayed, AskedOf, CopiesOf, PlainReplay, Lawful, Todo, Sibling;
    var here, there := d.head.value, d.tracking.value;
    var todo, r := Todo(here, there), RebaseOf(here, there, env);
    var ps := AskedOf(Start(there), todo, env);
    OutcomeIs(d, env);
    ReplayReports(Start(there), todo, env);
    AncSelf(there);
    ReplayCounts(Start(there), todo, env, there);
    NotAhead(there, there);
    forall q
      ensures q in CopiesOf([], ps, env.resolver) <==>
        exists i :: 0 <= i < |ps| && env.resolver(ps[..i], ps[i]) == KeepBoth && Sibling(ps[i]) == q
    {
      CopiesAre([], ps, env.resolver, q);
      assert forall i :: 0 <= i <= |ps| ==> [] + ps[..i] == ps[..i];
    }
    assert [] + ps == ps;
  }

  // --- what a status counts ----------------------------------------------------------

  /** Committing on top raises what is ahead by one, and what the remote gains on top of what
      was seen, once fetched, raises what is behind. */
  lemma StatusCounts(d: Refs, c: Commit, dirty: bool)
    requires d.head.Some? && d.tracking.Some?
    ensures var s := StatusOf(d, true, dirty);
      && (c.parents == [d.head.value] && c !in Anc(d.tracking.value) ==>
            StatusOf(d.(head := Some(c)), true, dirty) == s.(ahead := s.ahead + 1))
      && (c.parents == [d.tracking.value] && c !in Anc(d.head.value) ==>
            StatusOf(Fetched(d, Some(c)), true, dirty) == s.(behind := s.behind + 1))
      && (d.head == d.tracking ==> s == Status(true, dirty, 0, 0))
  {
    hide Anc, Ahead;
    var here, there := d.head.value, d.tracking.value;
    if c.parents == [here] { ChildAhead(here, c, there); }
    if c.parents == [there] { ChildAhead(there, c, here); }
    AncSelf(here);
    NotAhead(here, here);
  }

  /** While the remote was never seen, the whole history is ahead, if there is a remote. */
  lemma StatusUnseen(d: Refs, hasRemote: bool, dirty: bool)
    requires d.tracking.None?
    ensures StatusOf(d, hasRemote, dirty) ==
            Status(hasRemote, dirty, if d.head.Some? && hasRemote then |Anc(d.head.value)| else 0, 0)
  {
  }

  /** A rewritten upstream is not noticed: when the remote head no longer holds the commit
      last seen there, a sync does not report it. If the remote was only wound back it is up
      to date and the next push republishes the commit; otherwise the commit is replayed with
      the local ones. */
  lemma RewrittenUpstream(d: Refs, remote: Commit, env: Env)
    requires d.head.Some? && d.tracking.Some? && Linear(d.head.value)
    requires d.tracking.value in Anc(d.head.value) && d.tracking.value !in Anc(remote)
    ensures var here, gone, (e, outcome) := d.head.value, d.tracking.value, Integrated(Fetched(d, Some(remote)), env);
      && (outcome == Ok(UpToDate) <==> remote in Anc(here))
      && (outcome == Ok(UpToDate) ==> e.head == d.head && Accepts(Some(remote), here))
      && (outcome != Ok(UpToDate) ==> outcome == OutcomeOf(RebaseOf(here, remote, env)) && gone in Todo(here, remote))
  {
    hide Anc, RebaseOf, Ahead, Todo, Integrated, OutcomeOf;
    var here, gone := d.head.value, d.tracking.value;
    OutcomeIs(Fetched(d, Some(remote)), env);
    TodoIsUnreached(here, remote);
    assert gone in Todo(here, remote);
    assert here !in Anc(remote) by {
      if here in Anc(remote) {
        AncTransitive(gone, here, remote);
      }
    }
  }

  /** Such a history: `gone` was pushed and synced, then the remote was forced to `forced`,
      and the sync replays `gone` on it. */
  lemma RewrittenReplayed(env: Env)
    ensures var root := Root(map[]);
      var gone, forced := Commit([root], map["a.age" := 1], "", 1), Commit([root], map[], "", 2);
      var d := Refs(Some(gone), Some(gone));
      && d.tracking.value in Anc(d.head.value) && d.tracking.value !in Anc(forced) && forced !in Anc(gone)
      && Integrated(Fetched(d, Some(forced)), env).1 == OutcomeOf(RebaseOf(gone, forced, env))
      && Todo(gone, forced) == [gone]
  {
    hide RebaseOf, Ahead, Integrated, OutcomeOf, Anc;
    var root := Root(map[]);
    var gone, forced := Commit([root], map["a.age" := 1], "", 1), Commit([root], map[], "", 2);
    ChildAnc(root, gone);
    ChildAnc(root, forced);
    assert Anc(root) == {root} by { RootAnc(map[]); }
    AncSelf(gone);
    OutcomeIs(Refs(Some(gone), Some(forced)), env);
    RewrittenUpstream(Refs(Some(gone), Some(gone)), forced, env);
    assert Todo(root, forced) == [];
    assert [] + [gone] == [gone];
  }

  lemma RootAnc(tree: Tree)
    ensures Anc(Root(tree)) == {Root(tree)}
  {
  }

  /** A second sync with nothing new finds nothing to do. */
  lemma SyncTwice(d: Refs, remote: Option<Commit>, env: Env, again: Env)
    requires d.head.Some? && Integrated(Fetched(d, remote), env).1.Ok?
    ensures var e := Integrated(Fetched(d, remote), env).0;
      Integrated(Fetched(e, remote), again) == (e, Ok(UpToDate))
  {
    hide Ahead, RebaseOf;
    IntegratedReaches(Fetched(d, remote), env);
  }

  /** A successful sync puts the device where a push is accepted, as long as the remote
      stands still. */
  lemma SyncThenPush(d: Refs, remote: Option<Commit>, env: Env)
    requires d.head.Some? && Integrated(Fetched(d, remote), env).1.Ok?
    ensures var e := Integrated(Fetched(d, remote), env).0;
      && e.head.Some? && Accepts(remote, e.head.value)
      && StatusOf(e.(tracking := e.head), true, false) == Status(true, false, 0, 0)
  {
    hide Ahead, RebaseOf, Anc;
    IntegratedReaches(Fetched(d, remote), env);
    var e := Integrated(Fetched(d, remote), env).0;
    AncSelf(e.head.value);
    NotAhead(e.head.value, e.head.value);
  }
}
