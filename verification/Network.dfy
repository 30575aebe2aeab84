/** Any number of devices and one remote nobody force-pushes, stepping in any order. */
module Network {
  import opened Text
  import opened Commits
  import opened Rebase
  import opened Sync

  datatype Net = Net(remote: Option<Commit>, devices: seq<Refs>)

  /** A sync is two steps, so that others may push between its fetch and its rebase. */
  datatype Op =
    | Commit(tree: Tree, message: string, stamp: nat)
    | Fetch
    | Integrate(env: Env)
    | Push

  datatype Event = On(device: nat, op: Op) | Clone

  function Committed(d: Refs, tree: Tree, message: string, stamp: nat): Refs {
    var parents := if d.head.Some? then [d.head.value] else [];
    d.(head := Some(Commits.Commit(parents, tree, message, stamp)))
  }

  function Local(d: Refs, remote: Option<Commit>, op: Op): Refs {
    match op
    case Commit(tree, message, stamp) => Committed(d, tree, message, stamp)
    case Fetch => if d.head.Some? then Fetched(d, remote) else d
    case Integrate(env) => Integrated(d, env).0
    case Push => if d.head.Some? && Accepts(remote, d.head.value) then d.(tracking := d.head) else d
  }

  function RemoteAfter(d: Refs, remote: Option<Commit>, op: Op): Option<Commit> {
    if op.Push? && d.head.Some? && Accepts(remote, d.head.value) then d.head else remote
  }

  function Step(net: Net, e: Event): Net {
    match e
    case Clone => net.(devices := net.devices + [Refs(net.remote, net.remote)])
    case On(i, op) =>
      if i >= |net.devices| then net
      else
        var d := net.devices[i];
        Net(RemoteAfter(d, net.remote, op), net.devices[i := Local(d, net.remote, op)])
  }

  /** A device that clones joins the others with what the remote has; every other step is one
      device's, and no other device notices. */
  lemma StepFrame(net: Net, e: Event, j: nat)
    requires j < |net.devices|
    ensures var next := Step(net, e);
      && j < |next.devices|
      && (e.Clone? ==> |next.devices| == |net.devices| + 1)
      && (e.Clone? ==> next.devices[|net.devices|] == Refs(net.remote, net.remote) && next.devices[j] == net.devices[j])
      && (e.On? ==> |next.devices| == |net.devices| && (j != e.device ==> next.devices[j] == net.devices[j]))
      && (!(e.On? && e.op.Push?) ==> next.remote == net.remote)
      && (e.On? && e.op.Commit? && j == e.device ==>
            next.devices[j] == net.devices[j].(head := Some(Commits.Commit(
              if net.devices[j].head.Some? then [net.devices[j].head.value] else [], e.op.tree, e.op.message, e.op.stamp))))
  {
  }

  function Run(net: Net, es: seq<Event>): Net
    decreases |es|
  {
    if es == [] then net else Run(Step(net, es[0]), es[1..])
  }

  lemma {:induction false} RunConcat(net: Net, a: seq<Event>, b: seq<Event>)
    ensures Run(net, a + b) == Run(Run(net, a), b)
    decreases |a|
  {
    hide Step;
    if a == [] {
      assert a + b == b;
    } else {
      assert (a + b)[1..] == a[1..] + b;
      RunConcat(Step(net, a[0]), a[1..], b);
    }
  }

  lemma RunOne(net: Net, e: Event)
    ensures Run(net, [e]) == Step(net, e)
  {
    hide Step;
    assert Run(Step(net, e), [e][1..]) == Step(net, e);
  }

  /** No sync among the events stops with an error. */
  ghost predicate AllSucceed(net: Net, es: seq<Event>)
    decreases |es|
  {
    es == [] || (Succeeds(net, es[0]) && AllSucceed(Step(net, es[0]), es[1..]))
  }

  predicate Succeeds(net: Net, e: Event) {
    e.On? && e.device < |net.devices| && e.op.Integrate? ==> Integrated(net.devices[e.device], e.op.env).1.Ok?
  }

  lemma {:induction false} SucceedConcat(net: Net, a: seq<Event>, b: seq<Event>)
    requires AllSucceed(net, a + b)
    ensures AllSucceed(net, a) && AllSucceed(Run(net, a), b)
    decreases |a|
  {
    hide Step, Succeeds;
    if a == [] {
      assert a + b == b;
    } else {
      assert (a + b)[1..] == a[1..] + b;
      SucceedConcat(Step(net, a[0]), a[1..], b);
    }
  }

  // --- safety --------------------------------------------------------------------

  ghost predicate Reaches(a: Option<Commit>, b: Option<Commit>) {
    a.Some? ==> b.Some? && a.value in Anc(b.value)
  }

  lemma ReachesSelf(a: Option<Commit>)
    ensures Reaches(a, a)
  {
  }

  lemma ReachesTransitive(a: Option<Commit>, b: Option<Commit>, c: Option<Commit>)
    requires Reaches(a, b) && Reaches(b, c)
    ensures Reaches(a, c)
  {
    if a.Some? {
      AncTransitive(a.value, b.value, c.value);
    }
  }

  lemma {:induction false} RemoteGrows(net: Net, es: seq<Event>)
    ensures Reaches(net.remote, Run(net, es).remote)
    ensures |net.devices| <= |Run(net, es).devices|
    decreases |es|
  {
    hide Anc, Integrated;
    ReachesSelf(net.remote);
    if es != [] {
      var next := Step(net, es[0]);
      ReachesSelf(next.remote);
      RemoteGrows(next, es[1..]);
      ReachesTransitive(net.remote, next.remote, Run(net, es).remote);
    }
  }

  /** Whatever anybody does, a commit that was ever the remote head stays an ancestor of
      the remote head. */
  lemma NothingPublishedIsLost(net: Net, before: seq<Event>, after: seq<Event>)
    ensures Reaches(Run(net, before).remote, Run(net, before + after).remote)
  {
    hide Run, Reaches;
    RunConcat(net, before, after);
    RemoteGrows(Run(net, before), after);
  }

  ghost predicate LinearRef(c: Option<Commit>) {
    c.Some? ==> Linear(c.value)
  }

  /** No merge commit anywhere, and what a device saw of the remote is still in it. */
  ghost predicate Good(net: Net) {
    && LinearRef(net.remote)
    && forall i :: 0 <= i < |net.devices| ==> GoodDevice(net.devices[i], net.remote)
  }

  ghost predicate GoodDevice(d: Refs, remote: Option<Commit>) {
    LinearRef(d.head) && LinearRef(d.tracking) && Reaches(d.tracking, remote)
  }

  lemma LocalGood(d: Refs, remote: Option<Commit>, op: Op)
    requires GoodDevice(d, remote) && LinearRef(remote)
    ensures GoodDevice(Local(d, remote, op), RemoteAfter(d, remote, op)) && LinearRef(RemoteAfter(d, remote, op))
    ensures Reaches(remote, RemoteAfter(d, remote, op))
  {
    hide Anc, Integrated, Fetched;
    ReachesSelf(remote);
    ReachesSelf(d.head);
    match op
    case Commit(tree, message, stamp) =>
    case Fetch =>
      assert Fetched(d, remote) == if remote.Some? then d.(tracking := remote) else d by { FetchedIs(d, remote); }
    case Integrate(env) =>
      IntegratedLinear(d, env);
      IntegratedTracking(d, env);
    case Push =>
  }

  lemma FetchedIs(d: Refs, remote: Option<Commit>)
    ensures Fetched(d, remote) == if remote.Some? then d.(tracking := remote) else d
  {
  }

  lemma IntegratedTracking(d: Refs, env: Env)
    ensures Integrated(d, env).0.tracking == d.tracking
    ensures d.head.Some? <==> Integrated(d, env).0.head.Some?
  {
    hide Ahead, RebaseOf;
  }

  lemma StepGood(net: Net, e: Event)
    requires Good(net)
    ensures Good(Step(net, e))
  {
    hide Anc, Local, RemoteAfter, Linear;
    ReachesSelf(net.remote);
    if e.On? && e.device < |net.devices| {
      var next := Step(net, e);
      LocalGood(net.devices[e.device], net.remote, e.op);
      forall i | 0 <= i < |next.devices|
        ensures GoodDevice(next.devices[i], next.remote)
      {
        if i != e.device {
          ReachesTransitive(net.devices[i].tracking, net.remote, next.remote);
        }
      }
    }
  }

  /** Every run keeps histories linear and tracking refs behind the remote. */
  lemma {:induction false} RunGood(net: Net, es: seq<Event>)
    requires Good(net)
    ensures Good(Run(net, es))
    decreases |es|
  {
    hide Step, Good;
    if es != [] {
      StepGood(net, es[0]);
      RunGood(Step(net, es[0]), es[1..]);
    }
  }

  // --- a sync leads to an accepted push -------------------------------------------

  /** Nobody pushes, and device `i` does nothing but commit. */
  ghost predicate Quiet(es: seq<Event>, i: nat) {
    forall k :: 0 <= k < |es| && es[k].On? ==> !es[k].op.Push? && (es[k].device == i ==> es[k].op.Commit?)
  }

  lemma {:induction false} QuietRun(net: Net, es: seq<Event>, i: nat)
    requires Quiet(es, i) && i < |net.devices|
    ensures var after := Run(net, es);
      && after.remote == net.remote && i < |after.devices|
      && after.devices[i].tracking == net.devices[i].tracking
      && Reaches(net.devices[i].head, after.devices[i].head)
    decreases |es|
  {
    hide Anc, Integrated, Fetched;
    ReachesSelf(net.devices[i].head);
    if es != [] {
      var next := Step(net, es[0]);
      QuietStep(net, es[0], i);
      QuietRun(next, es[1..], i);
      ReachesTransitive(net.devices[i].head, next.devices[i].head, Run(net, es).devices[i].head);
    }
  }

  lemma QuietStep(net: Net, e: Event, i: nat)
    requires i < |net.devices| && Quiet([e], i)
    ensures var next := Step(net, e);
      && next.remote == net.remote && i < |next.devices|
      && next.devices[i].tracking == net.devices[i].tracking
      && Reaches(net.devices[i].head, next.devices[i].head)
  {
    hide Integrated, Fetched;
    assert [e][0] == e;
    ReachesSelf(net.devices[i].head);
    var d := net.devices[i];
    if e.On? && e.device == i && d.head.Some? {
      var c := Commits.Commit([d.head.value], e.op.tree, e.op.message, e.op.stamp);
      ChildAnc(d.head.value, c);
      AncSelf(d.head.value);
    }
  }

  /** With no push in between, a device whose sync succeeded has its next push accepted, however the
      others step and whatever it commits meanwhile; then nothing is ahead or behind. */
  lemma PushAfterSync(net: Net, i: nat, first: seq<Event>, env: Env, second: seq<Event>)
    requires i < |net.devices| && net.devices[i].head.Some?
    requires Quiet(first, i) && Quiet(second, i)
    requires Succeeds(Run(net, [On(i, Fetch)] + first), On(i, Integrate(env)))
    ensures var before := Run(net, [On(i, Fetch)] + first + [On(i, Integrate(env))] + second);
      var after := Step(before, On(i, Push));
      && i < |before.devices| && before.devices[i].head.Some?
      && before.remote == net.remote && Accepts(before.remote, before.devices[i].head.value)
      && after.remote == after.devices[i].head == after.devices[i].tracking == before.devices[i].head
      && StatusOf(after.devices[i], true, false) == Status(true, false, 0, 0)
  {
    hide Run, Quiet, Integrated, Anc, Ahead;
    var n1 := Step(net, On(i, Fetch));
    var n2 := Run(n1, first);
    var n3 := Step(n2, On(i, Integrate(env)));
    var n4 := Run(n3, second);
    RunOne(net, On(i, Fetch));
    RunConcat(net, [On(i, Fetch)], first);
    RunOne(n2, On(i, Integrate(env)));
    RunConcat(net, [On(i, Fetch)] + first, [On(i, Integrate(env))]);
    RunConcat(net, [On(i, Fetch)] + first + [On(i, Integrate(env))], second);
    QuietRun(n1, first, i);
    IntegratedReaches(n2.devices[i], env);
    IntegratedTracking(n2.devices[i], env);
    QuietRun(n3, second, i);
    assert Reaches(net.remote, n3.devices[i].head);
    ReachesTransitive(net.remote, n3.devices[i].head, n4.devices[i].head);
    AncSelf(n4.devices[i].head.value);
    NotAhead(n4.devices[i].head.value, n4.devices[i].head.value);
  }

  // --- convergence ---------------------------------------------------------------

  /** Two ancestors of one commit in a linear history are ancestors of each other. */
  lemma {:induction false} LinearOrder(c: Commit, a: Commit, b: Commit)
    requires Linear(c) && a in Anc(c) && b in Anc(c)
    ensures a in Anc(b) || b in Anc(a)
    decreases c
  {
    if a != c && b != c {
      ChildAnc(c.parents[0], Commits.Commit([c.parents[0]], c.tree, c.message, c.stamp));
      assert c.parents == [c.parents[0]];
      LinearOrder(c.parents[0], a, b);
    }
  }

  /** A device with nothing unpushed ends at the remote head it fetched. */
  lemma NothingUnpushed(d: Refs, env: Env)
    requires d.head.Some? && Reaches(d.head, d.tracking)
    ensures Integrated(d, env).0 == Refs(d.tracking, d.tracking)
  {
    hide Anc, RebaseOf, Ahead;
    var here, there := d.head.value, d.tracking.value;
    NotAhead(here, there);
    NotAhead(there, here);
    if there in Anc(here) {
      AncAntisymmetric(here, there);
    }
  }

  /** Nobody commits or pushes. */
  ghost predicate Still(es: seq<Event>) {
    forall k :: 0 <= k < |es| && es[k].On? ==> !es[k].op.Push? && !es[k].op.Commit?
  }

  /** Device `i` has pushed all it has. */
  ghost predicate Published(net: Net, i: nat) {
    i < |net.devices| && net.devices[i].head.Some? && Reaches(net.devices[i].head, net.remote)
  }

  lemma StillStep(net: Net, e: Event, i: nat)
    requires Good(net) && Published(net, i) && Still([e])
    ensures var next := Step(net, e);
      && next.remote == net.remote && Published(next, i)
      && (net.devices[i].tracking == net.remote ==> next.devices[i].tracking == net.remote)
      && (net.devices[i] == Refs(net.remote, net.remote) ==> next.devices[i] == net.devices[i])
  {
    hide Anc, Integrated, Linear;
    assert [e][0] == e;
    var d := net.devices[i];
    if e.On? && e.device == i && e.op.Integrate? && d.tracking.Some? {
      IntegratedTracking(d, e.op.env);
      LinearOrder(net.remote.value, d.head.value, d.tracking.value);
      OutcomeIs(d, e.op.env);
      AncSelf(d.head.value);
      IntegrateComparable(d, e.op.env);
    } else if e.On? && e.device == i && e.op.Integrate? {
      NoTracking(d, e.op.env);
    }
  }

  lemma NoTracking(d: Refs, env: Env)
    requires d.tracking.None?
    ensures Integrated(d, env).0 == d
  {
  }

  lemma IntegrateComparable(d: Refs, env: Env)
    requires d.head.Some? && d.tracking.Some?
    requires d.head.value in Anc(d.tracking.value) || d.tracking.value in Anc(d.head.value)
    ensures Integrated(d, env).0.head in {d.head, d.tracking}
  {
    hide Anc, Integrated, Ahead;
    OutcomeIs(d, env);
    AncSelf(d.head.value);
  }

  lemma {:induction false} StillRun(net: Net, es: seq<Event>, i: nat)
    requires Good(net) && Published(net, i) && Still(es)
    ensures var after := Run(net, es);
      && after.remote == net.remote && Good(after) && Published(after, i)
      && (net.devices[i].tracking == net.remote ==> after.devices[i].tracking == net.remote)
      && (net.devices[i] == Refs(net.remote, net.remote) ==> after.devices[i] == net.devices[i])
    decreases |es|
  {
    hide Step, Good, Published;
    if es != [] {
      assert Still([es[0]]);
      StillStep(net, es[0], i);
      StepGood(net, es[0]);
      assert Published(Step(net, es[0]), i);
      StillRun(Step(net, es[0]), es[1..], i);
    }
    PublishedMeans(net, i);
    PublishedMeans(Run(net, es), i);
  }

  lemma PublishedMeans(net: Net, i: nat)
    ensures Published(net, i) ==> i < |net.devices| && net.devices[i].head.Some? && net.remote.Some?
    ensures Published(net, i) && net.devices[i].tracking == net.remote ==> Reaches(net.devices[i].head, net.devices[i].tracking)
  {
  }

  /** While nobody commits or pushes, a device with nothing unpushed that fetches and later
      integrates stands at the remote head for good, however the others step. So all such
      devices reach the same head. */
  lemma Settles(net: Net, i: nat, a: seq<Event>, b: seq<Event>, env: Env, c: seq<Event>)
    requires Good(net) && Published(net, i) && Still(a) && Still(b) && Still(c)
    ensures var after := Run(net, a + [On(i, Fetch)] + b + [On(i, Integrate(env))] + c);
      && i < |after.devices| && after.remote == net.remote
      && after.devices[i] == Refs(net.remote, net.remote)
  {
    hide Run, Step, Good, Still, Reaches, Published;
    var n1 := Run(net, a);
    var n2 := Step(n1, On(i, Fetch));
    var n3 := Run(n2, b);
    var n4 := Step(n3, On(i, Integrate(env)));
    StillRun(net, a, i);
    FetchSettles(n1, i);
    StillRun(n2, b, i);
    IntegrateSettles(n3, i, env);
    StillRun(n4, c, i);
    PublishedMeans(Run(n4, c), i);
    RunFive(net, a, On(i, Fetch), b, On(i, Integrate(env)), c);
  }

  lemma FetchSettles(net: Net, i: nat)
    requires Good(net) && Published(net, i)
    ensures var next := Step(net, On(i, Fetch));
      && Good(next) && Published(next, i) && next.remote == net.remote
      && next.devices[i].tracking == net.remote
  {
    hide Good;
    StillOne(On(i, Fetch));
    StillStep(net, On(i, Fetch), i);
    StepGood(net, On(i, Fetch));
  }

  lemma IntegrateSettles(net: Net, i: nat, env: Env)
    requires Good(net) && Published(net, i) && net.devices[i].tracking == net.remote
    ensures var next := Step(net, On(i, Integrate(env)));
      && Good(next) && Published(next, i) && next.remote == net.remote
      && next.devices[i] == Refs(net.remote, net.remote)
  {
    hide Good, Integrated;
    StillOne(On(i, Integrate(env)));
    StillStep(net, On(i, Integrate(env)), i);
    StepGood(net, On(i, Integrate(env)));
    NothingUnpushed(net.devices[i], env);
  }

  lemma RunFive(net: Net, a: seq<Event>, e: Event, b: seq<Event>, f: Event, c: seq<Event>)
    ensures Run(net, a + [e] + b + [f] + c) == Run(Step(Run(Step(Run(net, a), e), b), f), c)
  {
    hide Run, Step;
    RunConcat(net, a, [e]);
    RunOne(Run(net, a), e);
    RunConcat(net, a + [e], b);
    RunConcat(net, a + [e] + b, [f]);
    RunOne(Run(net, a + [e] + b), f);
    RunConcat(net, a + [e] + b + [f], c);
  }

  lemma StillOne(e: Event)
    requires e.On? ==> !e.op.Push? && !e.op.Commit?
    ensures Still([e])
  {
  }

  // --- everybody syncs and pushes, then everybody syncs ------------------------------

  /** Device by device from the first to the `n`th: sync and push. */
  function PublishAll(n: nat, envs: nat -> Env): seq<Event> {
    if n == 0 then []
    else PublishAll(n - 1, envs) +
         [On(n - 1, Fetch), On(n - 1, Integrate(envs(n - 1))), On(n - 1, Push)]
  }

  function CollectAll(n: nat, envs: nat -> Env): seq<Event> {
    if n == 0 then []
    else CollectAll(n - 1, envs) + [On(n - 1, Fetch), On(n - 1, Integrate(envs(n - 1)))]
  }

  ghost predicate AllHaveHeads(net: Net) {
    forall i :: 0 <= i < |net.devices| ==> net.devices[i].head.Some?
  }

  lemma RunThree(net: Net, a: Event, b: Event, c: Event)
    ensures Run(net, [a, b, c]) == Step(Step(Step(net, a), b), c)
    ensures Run(net, [a, b]) == Step(Step(net, a), b)
  {
    hide Step;
    RunOne(Step(Step(net, a), b), c);
    RunOne(Step(net, a), b);
    assert [a, b, c][1..] == [b, c] && [b, c][1..] == [c] && [a, b][1..] == [b];
  }

  lemma PublishOne(net: Net, i: nat, env: Env)
    requires i < |net.devices| && net.devices[i].head.Some?
    requires AllSucceed(net, [On(i, Fetch), On(i, Integrate(env)), On(i, Push)])
    ensures var after := Run(net, [On(i, Fetch), On(i, Integrate(env)), On(i, Push)]);
      && |after.devices| == |net.devices| && Reaches(net.remote, after.remote)
      && after.devices[i].head == after.remote && after.remote.Some?
      && forall j :: 0 <= j < |net.devices| && j != i ==> after.devices[j] == net.devices[j]
  {
    hide Run, Integrated, Anc;
    RunThree(net, On(i, Fetch), On(i, Integrate(env)), On(i, Push));
    var n1 := Step(net, On(i, Fetch));
    SecondSucceeds(net, On(i, Fetch), On(i, Integrate(env)), On(i, Push));
    IntegratedReaches(n1.devices[i], env);
  }

  lemma SecondSucceeds(net: Net, a: Event, b: Event, c: Event)
    requires AllSucceed(net, [a, b, c])
    ensures Succeeds(Step(net, a), b)
  {
    hide Step, Succeeds;
    assert [a, b, c][1..] == [b, c];
  }

  lemma {:induction false} PublishAllIs(net: Net, n: nat, envs: nat -> Env)
    requires AllHaveHeads(net) && n <= |net.devices| && AllSucceed(net, PublishAll(n, envs))
    ensures var after := Run(net, PublishAll(n, envs));
      && |after.devices| == |net.devices| && AllHaveHeads(after)
      && (forall j :: 0 <= j < n ==> Reaches(after.devices[j].head, after.remote))
  {
    hide Reaches, Step, AllSucceed;
    if n > 0 {
      var i := n - 1;
      var es := [On(i, Fetch), On(i, Integrate(envs(i))), On(i, Push)];
      SucceedConcat(net, PublishAll(i, envs), es);
      PublishAllIs(net, i, envs);
      var mid := Run(net, PublishAll(i, envs));
      RunConcat(net, PublishAll(i, envs), es);
      PublishOne(mid, i, envs(i));
      var after := Run(mid, es);
      ReachesSelf(after.remote);
      forall j | 0 <= j < i
        ensures Reaches(after.devices[j].head, after.remote)
      {
        ReachesTransitive(mid.devices[j].head, mid.remote, after.remote);
      }
    }
  }

  lemma CollectOne(net: Net, i: nat, env: Env)
    requires i < |net.devices| && net.devices[i].head.Some? && Reaches(net.devices[i].head, net.remote)
    ensures Run(net, [On(i, Fetch), On(i, Integrate(env))])
         == Net(net.remote, net.devices[i := Refs(net.remote, net.remote)])
  {
    hide Run, Integrated, Anc;
    RunThree(net, On(i, Fetch), On(i, Integrate(env)), On(i, Push));
    var d := net.devices[i];
    NothingUnpushed(d.(tracking := net.remote), env);
  }

  lemma {:induction false} CollectAllIs(net: Net, n: nat, envs: nat -> Env)
    requires AllHaveHeads(net) && n <= |net.devices|
    requires forall j :: 0 <= j < |net.devices| ==> Reaches(net.devices[j].head, net.remote)
    ensures var after := Run(net, CollectAll(n, envs));
      && |after.devices| == |net.devices| && after.remote == net.remote && AllHaveHeads(after)
      && (forall j :: 0 <= j < |net.devices| ==> Reaches(after.devices[j].head, after.remote))
      && (forall j :: 0 <= j < n ==> after.devices[j] == Refs(net.remote, net.remote))
  {
    hide Reaches, Step;
    if n > 0 {
      var i := n - 1;
      CollectAllIs(net, i, envs);
      var mid := Run(net, CollectAll(i, envs));
      RunConcat(net, CollectAll(i, envs), [On(i, Fetch), On(i, Integrate(envs(i)))]);
      CollectOne(mid, i, envs(i));
      ReachesSelf(net.remote);
      assert net.remote.Some? by { ReachesSome(mid.devices[i].head, net.remote); }
    }
  }

  lemma ReachesSome(a: Option<Commit>, b: Option<Commit>)
    requires Reaches(a, b) && a.Some?
    ensures b.Some?
  {
  }

  /** From any state, after every device syncs and pushes in turn and then syncs once more,
      all of them and the remote stand at one head, whatever conflicts were resolved how, as
      long as none of the first syncs stops; the second ones cannot. */
  lemma Converges(net: Net, envs: nat -> Env, again: nat -> Env)
    requires AllHaveHeads(net) && AllSucceed(net, PublishAll(|net.devices|, envs))
    ensures var n := |net.devices|;
      var after := Run(net, PublishAll(n, envs) + CollectAll(n, again));
      && |after.devices| == n && Reaches(net.remote, after.remote)
      && forall i :: 0 <= i < n ==> after.devices[i] == Refs(after.remote, after.remote)
  {
    hide Run, Reaches, PublishAll, CollectAll, AllHaveHeads;
    var n := |net.devices|;
    var es := PublishAll(n, envs);
    PublishAllIs(net, n, envs);
    CollectAllIs(Run(net, es), n, again);
    RunConcat(net, es, CollectAll(n, again));
    RemoteGrows(net, es);
  }
}
