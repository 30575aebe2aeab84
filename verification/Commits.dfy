/** Commits as git sees them: a tree, the parents and the ancestry they span (git.rs). */
module Commits {
  import opened Text

  type Path = string

  /** A blob is known by its object id. */
  type Blob = nat

  type Tree = map<Path, Blob>

  datatype Commit = Commit(parents: seq<Commit>, tree: Tree, message: string, stamp: nat)

  // --- ancestry ----------------------------------------------------------------

  /** The commit and everything it descends from. */
  function Anc(c: Commit): set<Commit>
    decreases c, 1
  {
    {c} + AncAll(c.parents)
  }

  function AncAll(cs: seq<Commit>): set<Commit>
    decreases cs, 0
  {
    if cs == [] then {} else Anc(cs[0]) + AncAll(cs[1..])
  }

  function Size(c: Commit): nat
    decreases c, 1
  {
    1 + SizeAll(c.parents)
  }

  function SizeAll(cs: seq<Commit>): nat
    decreases cs, 0
  {
    if cs == [] then 0 else Size(cs[0]) + SizeAll(cs[1..])
  }

  /** No commit descends from itself, and ancestors of an ancestor are ancestors. */
  lemma {:induction false} AncSmaller(c: Commit, a: Commit)
    requires a in Anc(c)
    ensures a == c || Size(a) < Size(c)
    ensures Anc(a) <= Anc(c)
    decreases c, 1
  {
    if a != c {
      AncAllSmaller(c.parents, a);
    }
  }

  lemma {:induction false} AncAllSmaller(cs: seq<Commit>, a: Commit)
    requires a in AncAll(cs)
    ensures Size(a) <= SizeAll(cs)
    ensures Anc(a) <= AncAll(cs)
    decreases cs, 0
  {
    if a in Anc(cs[0]) {
      AncSmaller(cs[0], a);
    } else {
      AncAllSmaller(cs[1..], a);
    }
  }

  lemma AncTransitive(a: Commit, b: Commit, c: Commit)
    requires a in Anc(b) && b in Anc(c)
    ensures a in Anc(c)
  {
    AncSmaller(c, b);
  }

  lemma AncAntisymmetric(a: Commit, b: Commit)
    requires a in Anc(b) && b in Anc(a)
    ensures a == b
  {
    AncSmaller(b, a);
    AncSmaller(a, b);
  }

  /** Every parent counts, a merge commit's too. */
  lemma AncIs(c: Commit, a: Commit)
    ensures a in Anc(c) <==> a == c || exists i :: 0 <= i < |c.parents| && a in Anc(c.parents[i])
  {
    AncAllIs(c.parents, a);
  }

  lemma {:induction false} AncAllIs(cs: seq<Commit>, a: Commit)
    ensures a in AncAll(cs) <==> exists i :: 0 <= i < |cs| && a in Anc(cs[i])
  {
    hide Anc;
    if cs != [] {
      AncAllIs(cs[1..], a);
      if i :| 0 <= i < |cs| && a in Anc(cs[i]) {
        if i > 0 { assert a in Anc(cs[1..][i - 1]); }
      }
      if i :| 0 <= i < |cs| - 1 && a in Anc(cs[1..][i]) {
        assert a in Anc(cs[i + 1]);
      }
    }
  }

  lemma AncSelf(c: Commit)
    ensures c in Anc(c)
  {
  }

  lemma ChildAnc(parent: Commit, c: Commit)
    requires c.parents == [parent]
    ensures Anc(c) == {c} + Anc(parent)
  {
    assert AncAll([parent]) == Anc(parent) + AncAll([parent][1..]);
  }

  /** `graph_ahead_behind`: what one side reaches and the other does not. */
  function Ahead(here: Commit, there: Commit): nat {
    |Anc(here) - Anc(there)|
  }

  lemma NotAhead(here: Commit, there: Commit)
    ensures Ahead(here, there) == 0 <==> here in Anc(there)
  {
    hide Anc;
    AncSelf(here);
    var left := Anc(here) - Anc(there);
    if here in Anc(there) {
      AncSmaller(there, here);
      assert left == {};
    } else {
      assert here in left;
    }
  }

  /** A child is one more commit to count, and no other count of its kind changes. */
  lemma ChildAhead(parent: Commit, c: Commit, u: Commit)
    requires c.parents == [parent]
    ensures c !in Anc(u) ==> Ahead(c, u) == Ahead(parent, u) + 1 && Ahead(u, c) == Ahead(u, parent)
  {
    hide Anc;
    ChildAnc(parent, c);
    assert c !in Anc(parent) by {
      if c in Anc(parent) {
        AncSelf(parent);
        AncAntisymmetric(parent, c);
        ParentDiffers(parent, c);
      }
    }
    if c !in Anc(u) {
      assert Anc(c) - Anc(u) == {c} + (Anc(parent) - Anc(u));
      assert Anc(u) - Anc(c) == Anc(u) - Anc(parent);
    }
  }

  lemma ParentDiffers(parent: Commit, c: Commit)
    requires c.parents == [parent]
    ensures c != parent
  {
    assert c.parents[0] == parent;
  }

  // --- linear histories ----------------------------------------------------------

  /** No merge commits anywhere. */
  predicate Linear(c: Commit)
    decreases c
  {
    |c.parents| <= 1 && (|c.parents| == 1 ==> Linear(c.parents[0]))
  }

  /** The commits not reachable from `upstream`, oldest first: what a rebase replays. */
  function Todo(c: Commit, upstream: Commit): seq<Commit>
    decreases c
  {
    if c in Anc(upstream) then []
    else if c.parents == [] then [c]
    else Todo(c.parents[0], upstream) + [c]
  }

  /** On linear histories the walk is complete: exactly the unreachable commits. */
  lemma {:induction false} TodoIsUnreached(c: Commit, upstream: Commit)
    requires Linear(c)
    ensures forall x :: x in Todo(c, upstream) <==> x in Anc(c) && x !in Anc(upstream)
    ensures forall i :: 0 <= i < |Todo(c, upstream)| ==> Linear(Todo(c, upstream)[i])
    decreases c
  {
    if c in Anc(upstream) {
      AncSmaller(upstream, c);
    } else if c.parents != [] {
      var p := c.parents[0];
      TodoIsUnreached(p, upstream);
      assert c.parents == [p];
      ChildAnc(p, c);
    }
  }

  /** Each commit to replay builds on the one before it; the first on a shared commit,
      or on nothing. */
  ghost predicate Chained(base: Option<Commit>, todo: seq<Commit>)
    decreases |todo|
  {
    todo == [] ||
    (todo[0].parents == (if base.Some? then [base.value] else []) && Chained(Some(todo[0]), todo[1..]))
  }

  lemma {:induction false} ChainedSnoc(base: Option<Commit>, todo: seq<Commit>, c: Commit)
    requires Chained(base, todo)
    requires c.parents == if todo != [] then [todo[|todo| - 1]] else if base.Some? then [base.value] else []
    ensures Chained(base, todo + [c])
    decreases |todo|
  {
    if todo != [] {
      assert (todo + [c])[1..] == todo[1..] + [c];
      ChainedSnoc(Some(todo[0]), todo[1..], c);
    } else {
      assert (todo + [c])[1..] == [];
    }
  }

  lemma {:induction false} TodoChained(c: Commit, upstream: Commit) returns (base: Option<Commit>)
    requires Linear(c)
    ensures base.Some? ==> base.value in Anc(upstream)
    ensures Chained(base, Todo(c, upstream))
    ensures Todo(c, upstream) == [] ==> base == Some(c)
    ensures Todo(c, upstream) != [] ==> Todo(c, upstream)[|Todo(c, upstream)| - 1] == c
    decreases c
  {
    if c in Anc(upstream) {
      base := Some(c);
    } else if c.parents == [] {
      base := None;
      assert [c][1..] == [];
    } else {
      base := TodoChained(c.parents[0], upstream);
      ChainedSnoc(base, Todo(c.parents[0], upstream), c);
    }
  }
}
