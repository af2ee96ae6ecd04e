/** What the pending count is taken for, the number of executed states that wait for their commit,
    and how far it is from that: a commit from the block subscription never counts down. */
module Backlog {
  import opened Bits
  import opened Scheduler
  import opened Pipeline

  // ----- states waiting for their commit -----

  ghost function One(o: Obj): nat {
    if o.phase == Executed then 1 else 0
  }

  ghost function Waiting(objs: seq<Obj>): nat {
    if objs == [] then 0 else Waiting(objs[..|objs| - 1]) + One(objs[|objs| - 1])
  }

  lemma {:induction false} WaitingUpdate(objs: seq<Obj>, i: nat, o: Obj)
    requires i < |objs|
    ensures Waiting(objs[i := o]) == Waiting(objs) - One(objs[i]) + One(o)
    ensures Waiting(objs) >= One(objs[i])
  {
    var n := |objs| - 1;
    if i < n {
      WaitingUpdate(objs[..n], i, o);
      assert objs[i := o][..n] == objs[..n][i := o];
    } else {
      assert objs[i := o][..n] == objs[..n];
    }
  }

  lemma {:induction false} WaitingAppend(objs: seq<Obj>, o: Obj)
    ensures Waiting(objs + [o]) == Waiting(objs) + One(o)
  {
    assert (objs + [o])[..|objs|] == objs;
  }

  lemma {:induction false} WaitingBound(objs: seq<Obj>)
    ensures Waiting(objs) <= |objs|
  {
    if objs != [] {
      WaitingBound(objs[..|objs| - 1]);
    }
  }

  // ----- when the count is the number of waiting states -----

  ghost predicate CountsWaiting(n: Node) {
    n.sched.count == Waiting(n.objs)
  }

  /** The phase of the state that was executed for a version. */
  ghost function PhaseIn(n: Node, version: nat): Option<Phase>
    requires Consecutive(n.sched)
  {
    var comp := CompOf(n.sched, version);
    if comp.Some? && comp.value < |n.objs| then Some(n.objs[comp.value].phase) else None
  }

  /** The commit of a waiting state that is not counted, or a counted commit of one already committed. */
  ghost predicate Drifts(n: Node, step: Step) {
    && Consecutive(n.sched)
    && match step
       case Create(_) => false
       case ExecuteOn(_, _, _) => false
       case CommitVersion(v, h, c, p) =>
         var reply := Commit(n.sched, v, h, n.ledger, c, p);
         || (reply.PublishFailed? && PhaseIn(n, v) == Some(Executed))
         || (reply.Committed? && PhaseIn(n, v) == Some(Commited))
       case CommitFromSubscription(h, c) =>
         Subscribe(n.sched, h, n.ledger, c).Committed? && PhaseIn(n, h) == Some(Executed)
  }

  /** How a commit that reaches the state of a version changes the number of waiting states. */
  lemma WaitingAfterCommit(n: Node, version: nat)
    requires Inv(n) && CompOf(n.sched, version).Some?
    ensures PhaseIn(n, version).Some? && PhaseIn(n, version).value != Idle
    ensures Waiting(SetPhase(n, CompOf(n.sched, version).value, Commited).objs)
            == Waiting(n.objs) - if PhaseIn(n, version) == Some(Executed) then 1 else 0
  {
    WindowHolds(n.sched, version);
    var id := CompOf(n.sched, version).value;
    assert n.sched.window[version - n.sched.window[0].version] in n.sched.window;
    WaitingUpdate(n.objs, id, n.objs[id].(phase := Commited));
  }

  lemma WaitingAfterExecute(n: Node, version: nat, obj: nat, run: Option<Bytes>)
    requires Inv(n)
    ensures var n' := ExecuteStep(n, version, obj, run);
            Waiting(n'.objs) - Waiting(n.objs) == |n'.executed| - |n.executed|
  {
    if (version, obj) in n.answers && Execute(n.sched, n.limit, version, obj, run).1.Ran? {
      ExecutedIsNew(n, version);
      assert version !in n.executed;
      assert n.objs[obj].phase == Idle;
      WaitingUpdate(n.objs, obj, n.objs[obj].(phase := Executed));
    }
  }

  lemma WaitingAfterCreate(n: Node, version: nat)
    ensures Waiting(CreateStep(n, version).objs) == Waiting(n.objs)
  {
    WaitingAppend(n.objs, Obj(version, Idle));
  }

  lemma CountsWaitingCommit(n: Node, v: nat, h: nat, c: bool, p: bool)
    requires Inv(n) && CountsWaiting(n)
    ensures CountsWaiting(CommitStep(n, v, h, c, p)) <==> !Drifts(n, CommitVersion(v, h, c, p))
  {
    if CompOf(n.sched, v).Some? {
      WaitingAfterCommit(n, v);
    }
  }

  lemma CountsWaitingSubscription(n: Node, h: nat, c: bool)
    requires Inv(n) && CountsWaiting(n)
    ensures CountsWaiting(SubscriptionStep(n, h, c)) <==> !Drifts(n, CommitFromSubscription(h, c))
  {
    if CompOf(n.sched, h).Some? {
      WaitingAfterCommit(n, h);
    }
  }

  lemma CountsWaitingExecute(n: Node, version: nat, obj: nat, run: Option<Bytes>)
    requires Inv(n) && CountsWaiting(n) && |n.objs| < TWO_32
    ensures CountsWaiting(ExecuteStep(n, version, obj, run))
  {
    WaitingAfterExecute(n, version, obj, run);
    WaitingBound(ExecuteStep(n, version, obj, run).objs);
  }

  lemma CountsWaitingStep(n: Node, step: Step)
    requires Inv(n) && CountsWaiting(n) && |Next(n, step).objs| < TWO_32
    ensures CountsWaiting(Next(n, step)) <==> !Drifts(n, step)
  {
    match step
    case Create(v) => WaitingAfterCreate(n, v);
    case ExecuteOn(v, obj, run) => CountsWaitingExecute(n, v, obj, run);
    case CommitVersion(v, h, c, p) => CountsWaitingCommit(n, v, h, c, p);
    case CommitFromSubscription(h, c) => CountsWaitingSubscription(n, h, c);
  }

  ghost predicate AlwaysCountsWaiting(start: Node, steps: seq<Step>) {
    forall k :: 0 <= k <= |steps| ==> CountsWaiting(Run(start, steps[..k]))
  }

  ghost predicate NeverDrifts(start: Node, steps: seq<Step>) {
    forall k :: 0 <= k < |steps| ==> !Drifts(Run(start, steps[..k]), steps[k])
  }

  lemma {:induction false} CountsWaitingAt(limit: nat, height: nat, genesis: bool, steps: seq<Step>, k: nat)
    requires k < |steps| && |Run(Start(limit, height, genesis), steps).objs| < TWO_32
    requires CountsWaiting(Run(Start(limit, height, genesis), steps[..k]))
    ensures var start := Start(limit, height, genesis);
            CountsWaiting(Run(start, steps[..k + 1])) <==> !Drifts(Run(start, steps[..k]), steps[k])
  {
    var start := Start(limit, height, genesis);
    RunKeeps(limit, height, genesis, steps[..k]);
    RunPrefix(start, steps, k);
    PrefixesAreFewer(start, steps, k + 1);
    CountsWaitingStep(Run(start, steps[..k]), steps[k]);
  }

  lemma {:induction false} CountsWaitingForward(limit: nat, height: nat, genesis: bool, steps: seq<Step>, k: nat)
    requires k <= |steps| && |Run(Start(limit, height, genesis), steps).objs| < TWO_32
    requires NeverDrifts(Start(limit, height, genesis), steps)
    ensures CountsWaiting(Run(Start(limit, height, genesis), steps[..k]))
  {
    if k > 0 {
      CountsWaitingForward(limit, height, genesis, steps, k - 1);
      CountsWaitingAt(limit, height, genesis, steps, k - 1);
    } else {
      assert Waiting(Start(limit, height, genesis).objs[..0]) == 0;
    }
  }

  /** Along a run the pending count is the number of executed states waiting for their commit if and
      only if no step commits a waiting state without counting, or counts one committed before. */
  lemma {:induction false} CountIsBacklog(limit: nat, height: nat, genesis: bool, steps: seq<Step>)
    requires |Run(Start(limit, height, genesis), steps).objs| < TWO_32
    ensures AlwaysCountsWaiting(Start(limit, height, genesis), steps)
            <==> NeverDrifts(Start(limit, height, genesis), steps)
  {
    var start := Start(limit, height, genesis);
    if NeverDrifts(start, steps) {
      forall k | 0 <= k <= |steps|
        ensures CountsWaiting(Run(start, steps[..k]))
      {
        CountsWaitingForward(limit, height, genesis, steps, k);
      }
    }
    if AlwaysCountsWaiting(start, steps) {
      forall k | 0 <= k < |steps|
        ensures !Drifts(Run(start, steps[..k]), steps[k])
      {
        CountsWaitingAt(limit, height, genesis, steps, k);
      }
    }
  }

  // ----- what is lost stays lost -----

  /** Executions that are neither counted as completed nor waiting any more. */
  ghost function Lost(n: Node): int {
    |n.executed| - |n.completed| - Waiting(n.objs)
  }

  /** A counted commit under its own version is of a waiting state. */
  lemma LostAfterCommit(n: Node, v: nat, c: bool, p: bool)
    requires Inv(n) && CommitInv(n)
    ensures Lost(CommitStep(n, v, v, c, p)) >= Lost(n)
  {
    if CompOf(n.sched, v).Some? {
      WaitingAfterCommit(n, v);
      WindowHolds(n.sched, v);
    }
  }

  lemma LostAfterSubscription(n: Node, h: nat, c: bool)
    requires Inv(n)
    ensures Lost(SubscriptionStep(n, h, c)) >= Lost(n)
  {
    if CompOf(n.sched, h).Some? {
      WaitingAfterCommit(n, h);
    }
  }

  lemma LostNeverFalls(n: Node, step: Step)
    requires Inv(n) && CommitInv(n) && Regular(step)
    ensures Lost(Next(n, step)) >= Lost(n)
  {
    match step
    case Create(v) => WaitingAfterCreate(n, v);
    case ExecuteOn(v, obj, run) => WaitingAfterExecute(n, v, obj, run);
    case CommitVersion(v, h, c, p) => LostAfterCommit(n, v, c, p);
    case CommitFromSubscription(h, c) => LostAfterSubscription(n, h, c);
  }

  lemma {:induction false} LostNeverFallsInRun(limit: nat, height: nat, genesis: bool, steps: seq<Step>, k: nat)
    requires RegularRun(steps) && k <= |steps|
    ensures Lost(Run(Start(limit, height, genesis), steps)) >= Lost(Run(Start(limit, height, genesis), steps[..k]))
    decreases |steps| - k
  {
    if k == |steps| {
      assert steps[..k] == steps;
    } else {
      LostNeverFallsInRun(limit, height, genesis, steps, k + 1);
      RunKeeps(limit, height, genesis, steps[..k]);
      RunKeepsCommits(limit, height, genesis, steps[..k]);
      RunPrefix(Start(limit, height, genesis), steps, k);
      LostNeverFalls(Run(Start(limit, height, genesis), steps[..k]), steps[k]);
    }
  }

  /** Once as many executions are lost as may be pending, a node whose heads carry the state version
      as height never again finds a version to prepare. */
  lemma {:induction false} LostBlocksPreparing(limit: nat, height: nat, genesis: bool, steps: seq<Step>, k: nat)
    requires RegularRun(steps) && k <= |steps| && |Run(Start(limit, height, genesis), steps).executed| < TWO_32
    requires Lost(Run(Start(limit, height, genesis), steps[..k])) >= MAX_AVAIL_COUNT
    ensures var n := Run(Start(limit, height, genesis), steps);
            MaxStateVersion(n.sched, n.ledger) == None
  {
    LostNeverFallsInRun(limit, height, genesis, steps, k);
    PendingCount(limit, height, genesis, steps);
    assert steps[..|steps|] == steps;
    assert Exact(Run(Start(limit, height, genesis), steps));
  }

  // ----- a run that loses every execution -----

  /** Versions 1 to `k`, each executed and then committed from the subscription. */
  function Subscribed(k: nat): seq<Step> {
    if k == 0 then []
    else Subscribed(k - 1) + [Create(k)] + [ExecuteOn(k, k - 1, Some([]))] + [CommitFromSubscription(k, true)]
  }

  ghost predicate LosesAll(n: Node, k: nat) {
    && Inv(n) && |n.objs| == k && (forall v :: v in n.builder.created ==> v <= k)
    && n.ledger == k && n.sched.last == k && |n.executed| == k && n.completed == [] && Waiting(n.objs) == 0
  }

  lemma LoseCreate(n: Node, k: nat, c: Node)
    requires LosesAll(n, k) && c == CreateStep(n, k + 1)
    ensures Inv(c) && (k + 1, k) in c.answers && |c.objs| == k + 1 && Waiting(c.objs) == 0
    ensures c.sched == n.sched && c.executed == n.executed && c.completed == [] && c.ledger == k
    ensures forall v :: v in c.builder.created ==> v <= k + 1
  {
    CreateKeeps(n, k + 1);
    WaitingAfterCreate(n, k + 1);
  }

  lemma LoseExecute(c: Node, k: nat, m: Node)
    requires Inv(c) && (k + 1, k) in c.answers && Waiting(c.objs) == 0
    requires c.sched.last == k && |c.executed| == k
    requires m == ExecuteStep(c, k + 1, k, Some([]))
    ensures Inv(m) && m.sched.last == k + 1 && InWindow(m.sched, k + 1) && Waiting(m.objs) == 1
    ensures |m.executed| == k + 1 && m.completed == c.completed && m.ledger == c.ledger
    ensures m.builder == c.builder && |m.objs| == |c.objs|
  {
    ExecuteKeeps(c, k + 1, k, Some([]));
    WaitingAfterExecute(c, k + 1, k, Some([]));
    ExecuteKeepsWindow(c.sched, c.limit, k + 1, k, Some([]));
  }

  lemma LoseCommit(m: Node, k: nat, n': Node)
    requires Inv(m) && m.sched.last == k + 1 && InWindow(m.sched, k + 1) && Waiting(m.objs) == 1
    requires m.ledger == k && n' == SubscriptionStep(m, k + 1, true)
    requires forall i :: 0 <= i < |m.objs| && m.objs[i].phase == Commited ==> m.objs[i].version <= k
    ensures Inv(n') && Waiting(n'.objs) == 0 && n'.ledger == k + 1
    ensures n' == m.(objs := n'.objs, ledger := k + 1) && |n'.objs| == |m.objs|
  {
    SubscriptionKeeps(m, k + 1, true);
    WaitingAfterCommit(m, k + 1);
    WindowHolds(m.sched, k + 1);
    assert m.sched.window[k + 1 - m.sched.window[0].version] in m.sched.window;
  }

  lemma LoseOneMore(n: Node, k: nat, c: Node, m: Node, n': Node)
    requires LosesAll(n, k) && c == CreateStep(n, k + 1) && m == ExecuteStep(c, k + 1, k, Some([]))
    requires n' == SubscriptionStep(m, k + 1, true)
    ensures LosesAll(n', k + 1)
  {
    LoseCreate(n, k, c);
    LoseExecute(c, k, m);
    LoseCommit(m, k, n');
  }

  lemma {:induction false} RunThree(start: Node, steps: seq<Step>, a: Step, b: Step, c: Step)
    ensures Run(start, steps + [a] + [b] + [c]) == Next(Next(Next(Run(start, steps), a), b), c)
  {
    RunMore(start, steps, a);
    RunMore(start, steps + [a], b);
    RunMore(start, steps + [a] + [b], c);
  }

  lemma {:induction false} SubscribedLosesAll(limit: nat, k: nat)
    ensures LosesAll(Run(Start(limit, 0, false), Subscribed(k)), k)
  {
    if k > 0 {
      SubscribedLosesAll(limit, k - 1);
      var n := Run(Start(limit, 0, false), Subscribed(k - 1));
      var a, b, c := Create(k), ExecuteOn(k, k - 1, Some([])), CommitFromSubscription(k, true);
      RunThree(Start(limit, 0, false), Subscribed(k - 1), a, b, c);
      LoseOneMore(n, k - 1, Next(n, a), Next(Next(n, a), b), Next(Next(Next(n, a), b), c));
    }
  }

  lemma LosesCount(n: Node, k: nat)
    requires LosesAll(n, k) && k < TWO_32
    ensures Lost(n) == n.sched.count == k
    ensures MaxStateVersion(n.sched, n.ledger) == None <==> k >= MAX_AVAIL_COUNT
  {
    assert CountInv(n);
    DivModUnique(k, TWO_32, 0, k);
  }

  /** No state waits, yet all `k` executions count as pending; from five on nothing is prepared. */
  lemma {:induction false} SubscriptionsAreLost(limit: nat, k: nat)
    requires k < TWO_32
    ensures var n := Run(Start(limit, 0, false), Subscribed(k));
            && Waiting(n.objs) == 0 && Lost(n) == n.sched.count == k
            && (MaxStateVersion(n.sched, n.ledger) == None <==> k >= MAX_AVAIL_COUNT)
  {
    SubscribedLosesAll(limit, k);
    LosesCount(Run(Start(limit, 0, false), Subscribed(k)), k);
  }
}
