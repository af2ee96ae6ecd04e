/** The execution pipeline of one node: the builder that hands out one mutable state per version,
    the scheduler that executes on it, and the two ways of committing it. */
module Pipeline {
  import opened Bits
  import opened Scheduler

  // ----- the state builder -----

  /** The builder's record of the versions it made a state for, and the last state it made. */
  datatype Builder<T> = Builder(created: set<nat>, last: Option<T>)

  /** Asking for the state of a version: a new one, `made`, for a version not seen before; otherwise
      the last one again, if it may be used. */
  function Build<T>(b: Builder<T>, version: nat, usable: bool, made: Option<T>): (Builder<T>, Option<T>) {
    if version !in b.created then (Builder(b.created + {version}, made), made)
    else (b, if usable then b.last else None)
  }

  class StateBuilder {
    var createdRecord: set<nat>
    var lastCompositionState: Option<CompState>

    ghost function Val(): Builder<CompState>
      reads this
    {
      Builder(createdRecord, lastCompositionState)
    }

    /** The last state is of this version and not committed. */
    ghost predicate Usable(version: nat)
      reads this, if lastCompositionState.Some? then {lastCompositionState.value} else {}
    {
      && lastCompositionState.Some?
      && lastCompositionState.value.version == version && lastCompositionState.value.phase != Commited
    }

    method CreateCompositionState(version: nat) returns (r: Option<CompState>)
      modifies this
      ensures (Val(), r) == Build(old(Val()), version, old(Usable(version)), r)
      ensures version !in old(createdRecord) ==>
                r.Some? && fresh(r.value) && r.value.version == version && r.value.phase == Idle
    {
      r := None;
      if version !in createdRecord {
        createdRecord := createdRecord + {version};
        var comp := new CompState(version);
        r := Some(comp);
        lastCompositionState := r;
      } else {
        if lastCompositionState.Some? && lastCompositionState.value.version == version
           && lastCompositionState.value.phase != Commited {
          r := lastCompositionState;
        }
      }
    }

    method CompositionStateExist(version: nat) returns (r: bool)
      ensures r == (version in createdRecord)
    {
      r := version in createdRecord;
    }
  }

  // ----- the node as a state machine -----

  /** A state the builder made: a number stands for the object. */
  datatype Obj = Obj(version: nat, phase: Phase)

  /** The node, and what has happened to it so far: the builder's non-nil answers, the versions
      executed, and the versions whose commit was carried through, in order. */
  datatype Node = Node(
    limit: nat, builder: Builder<nat>, objs: seq<Obj>, sched: Sched<nat>, ledger: nat,
    answers: set<(nat, nat)>, executed: seq<nat>, completed: seq<nat>)

  /** One atomic step of a handler. A preparer or receiver asks for a state and later executes on
      one it was given; commits come from commit messages and from the block subscription. */
  datatype Step =
    | Create(version: nat)
    | ExecuteOn(version: nat, obj: nat, run: Option<Bytes>)
    | CommitVersion(version: nat, height: nat, commitOk: bool, publishOk: bool)
    | CommitFromSubscription(height: nat, commitOk: bool)

  ghost predicate BuilderAnswers(n: Node, version: nat) {
    && n.builder.last.Some? && n.builder.last.value < |n.objs|
    && var o := n.objs[n.builder.last.value];
       o.version == version && o.phase != Commited
  }

  ghost function CreateStep(n: Node, version: nat): Node {
    var (b, answer) := Build(n.builder, version, BuilderAnswers(n, version), Some(|n.objs|));
    n.(builder := b,
       objs := if version in n.builder.created then n.objs else n.objs + [Obj(version, Idle)],
       answers := if answer.None? then n.answers else n.answers + {(version, answer.value)})
  }

  ghost function SetPhase(n: Node, id: nat, p: Phase): Node {
    if id < |n.objs| then n.(objs := n.objs[id := n.objs[id].(phase := p)]) else n
  }

  ghost function ExecuteStep(n: Node, version: nat, obj: nat, run: Option<Bytes>): Node {
    if !Consecutive(n.sched) || (version, obj) !in n.answers then n else
    var (s, reply) := Execute(n.sched, n.limit, version, obj, run);
    if reply.Ran? then SetPhase(n, obj, Executed).(sched := s, executed := n.executed + [version])
    else n
  }

  ghost function CommitStep(n: Node, version: nat, height: nat, commitOk: bool, publishOk: bool): Node {
    if !Consecutive(n.sched) then n else
    match Commit(n.sched, version, height, n.ledger, commitOk, publishOk)
    case PublishFailed => SetPhase(n, CompOf(n.sched, version).value, Commited).(ledger := height)
    case Committed =>
      SetPhase(n, CompOf(n.sched, version).value, Commited)
      .(ledger := height, sched := n.sched.(count := CountDown(n.sched.count)), completed := n.completed + [version])
    case _ => n
  }

  ghost function SubscriptionStep(n: Node, height: nat, commitOk: bool): Node {
    if !Consecutive(n.sched) || n.ledger >= height || CompOf(n.sched, height).None? || !commitOk then n
    else SetPhase(n, CompOf(n.sched, height).value, Commited).(ledger := height)
  }

  ghost function Next(n: Node, step: Step): Node {
    match step
    case Create(v) => CreateStep(n, v)
    case ExecuteOn(v, obj, run) => ExecuteStep(n, v, obj, run)
    case CommitVersion(v, h, c, p) => CommitStep(n, v, h, c, p)
    case CommitFromSubscription(h, c) => SubscriptionStep(n, h, c)
  }

  /** A node starts on an existing ledger, or right after it committed the genesis state. */
  ghost function Start(limit: nat, height: nat, genesis: bool): Node {
    if genesis then
      Node(limit, Builder({1}, Some(0)), [Obj(1, Commited)], Sched([], 0, 0), height, {}, [], [])
    else
      Node(limit, Builder({}, None), [], Sched([], 0, 0), height, {}, [], [])
  }

  ghost function Run(start: Node, steps: seq<Step>): Node {
    if steps == [] then start else Next(Run(start, steps[..|steps| - 1]), steps[|steps| - 1])
  }

  // ----- what every run keeps -----

  ghost predicate Increasing(s: seq<nat>) {
    forall i, j :: 0 <= i < j < |s| ==> s[i] < s[j]
  }

  /** There is one object per version the builder has made, and its answers name that object. */
  ghost predicate BuilderInv(n: Node) {
    && (forall i, j :: 0 <= i < j < |n.objs| ==> n.objs[i].version != n.objs[j].version)
    && (forall i :: 0 <= i < |n.objs| ==> n.objs[i].version in n.builder.created)
    && (forall a :: a in n.answers ==> a.1 < |n.objs| && n.objs[a.1].version == a.0)
  }

  /** The window is a run of versions ending at the last one executed; it stays below the limit
      and never becomes empty again. */
  ghost predicate WindowInv(n: Node) {
    && Consecutive(n.sched)
    && (n.limit >= 5 ==> |n.sched.window| < n.limit)
    && (n.executed != [] <==> n.sched.window != [])
    && (n.executed == [] ==> n.sched.last == 0)
    && (n.executed != [] ==> n.executed[|n.executed| - 1] == n.sched.last)
    && Increasing(n.executed)
    && (forall e :: e in n.sched.window ==> e.version in n.executed)
  }

  /** Every window entry sits on the object of its version, which has been executed; and an object
      that was handed out has left the idle phase only by being executed. */
  ghost predicate PhaseInv(n: Node) {
    && (forall e :: e in n.sched.window ==>
          e.comp < |n.objs| && n.objs[e.comp].version == e.version && n.objs[e.comp].phase != Idle)
    && (forall i :: 0 <= i < |n.objs| && n.objs[i].phase == Executed ==> n.objs[i].version in n.executed)
    && (forall a :: a in n.answers && a.1 < |n.objs| && n.objs[a.1].phase != Idle ==> a.0 in n.executed)
  }

  /** The pending count is executions minus completed commits, as a 32-bit word. */
  ghost predicate CountInv(n: Node) {
    n.sched.count == (|n.executed| - |n.completed|) % TWO_32
  }

  ghost predicate Inv(n: Node) {
    BuilderInv(n) && WindowInv(n) && PhaseInv(n) && CountInv(n)
  }

  /** A phase moves from idle to executed and from executed to committed, and versions are fixed. */
  ghost predicate PhasesMove(n: Node, n': Node) {
    && |n.objs| <= |n'.objs|
    && forall i :: 0 <= i < |n.objs| ==>
         && n.objs[i].version == n'.objs[i].version
         && (n.objs[i].phase == n'.objs[i].phase
             || (n.objs[i].phase == Idle && n'.objs[i].phase == Executed)
             || (n.objs[i].phase == Executed && n'.objs[i].phase == Commited))
  }

  lemma CreateKeeps(n: Node, version: nat)
    requires Inv(n)
    ensures Inv(CreateStep(n, version)) && PhasesMove(n, CreateStep(n, version))
  {
    if version !in n.builder.created {
      CreateNew(n, version, CreateStep(n, version));
    } else if BuilderAnswers(n, version) {
      assert n.objs[n.builder.last.value].phase == Executed ==> version in n.executed;
    }
  }

  lemma CreateNew(n: Node, version: nat, n': Node)
    requires Inv(n) && version !in n.builder.created && n' == CreateStep(n, version)
    ensures BuilderInv(n') && PhaseInv(n') && PhasesMove(n, n')
  {
    assert forall i :: 0 <= i < |n.objs| ==> n'.objs[i] == n.objs[i];
    assert n'.objs[|n.objs|] == Obj(version, Idle);
  }

  lemma SetPhaseKeepsObjects(n: Node, id: nat, p: Phase)
    requires BuilderInv(n)
    ensures BuilderInv(SetPhase(n, id, p))
  {
  }

  /** A version that executes is later than every one executed before. */
  lemma ExecutedIsNew(n: Node, version: nat)
    requires WindowInv(n) && !InWindow(n.sched, version) && Accepts(n.sched, version)
    ensures forall v :: v in n.executed ==> v < version
  {
  }

  lemma IncreasingAppend(s: seq<nat>, v: nat)
    requires Increasing(s) && forall x :: x in s ==> x < v
    ensures Increasing(s + [v])
  {
    assert forall i :: 0 <= i < |s| ==> s[i] in s;
  }

  lemma ExecuteKeeps(n: Node, version: nat, obj: nat, run: Option<Bytes>)
    requires Inv(n)
    ensures Inv(ExecuteStep(n, version, obj, run)) && PhasesMove(n, ExecuteStep(n, version, obj, run))
  {
    if (version, obj) in n.answers && !InWindow(n.sched, version) && Accepts(n.sched, version) && run.Some? {
      var n' := ExecuteStep(n, version, obj, run);
      ExecutedIsNew(n, version);
      ExecutedPhases(n, n', version, obj, run.value);
      ExecutedWindow(n, n', version, obj, run.value);
      ExecutedRest(n, n', version, obj, run.value);
    }
  }

  lemma ExecutedRest(n: Node, n': Node, version: nat, obj: nat, result: Bytes)
    requires BuilderInv(n) && CountInv(n) && Consecutive(n.sched) && (version, obj) in n.answers
    requires !InWindow(n.sched, version) && Accepts(n.sched, version)
    requires n' == ExecuteStep(n, version, obj, Some(result))
    ensures BuilderInv(n') && CountInv(n')
  {
    SetPhaseKeepsObjects(n, obj, Executed);
    CountUp(n.sched.count, |n.executed| - |n.completed|);
  }

  lemma CountUp(count: nat, diff: int)
    requires count == diff % TWO_32
    ensures (count + 1) % TWO_32 == (diff + 1) % TWO_32
  {
  }

  lemma CountDownIsMod(count: nat, diff: int)
    requires count == diff % TWO_32
    ensures CountDown(count) == (diff - 1) % TWO_32
  {
  }

  /** The window after an execution: old entries and the new one. */
  lemma ExecutedWindow(n: Node, n': Node, version: nat, obj: nat, result: Bytes)
    requires WindowInv(n) && (version, obj) in n.answers && forall v :: v in n.executed ==> v < version
    requires !InWindow(n.sched, version) && Accepts(n.sched, version)
    requires n' == ExecuteStep(n, version, obj, Some(result))
    ensures WindowInv(n')
  {
    ExecuteKeepsWindow(n.sched, n.limit, version, obj, Some(result));
    IncreasingAppend(n.executed, version);
    assert forall e :: e in n'.sched.window ==> e in n.sched.window || e == Entry(version, result, obj);
    assert version in n'.executed && forall v :: v in n.executed ==> v in n'.executed;
  }

  /** The phases after an execution: only the executed state has moved, from idle. */
  lemma ExecutedPhases(n: Node, n': Node, version: nat, obj: nat, result: Bytes)
    requires BuilderInv(n) && PhaseInv(n) && Consecutive(n.sched) && (version, obj) in n.answers && version !in n.executed
    requires !InWindow(n.sched, version) && Accepts(n.sched, version)
    requires n' == ExecuteStep(n, version, obj, Some(result))
    ensures PhaseInv(n') && PhasesMove(n, n')
  {
    assert forall e :: e in n'.sched.window ==> e in n.sched.window || e == Entry(version, result, obj);
    assert n.objs[obj].phase == Idle;
    assert version in n'.executed && forall v :: v in n.executed ==> v in n'.executed;
  }

  /** Committing the state of a window entry. */
  lemma CommitKeepsPhases(n: Node, version: nat, n': Node)
    requires Inv(n) && CompOf(n.sched, version).Some?
    requires n'.objs == SetPhase(n, CompOf(n.sched, version).value, Commited).objs
    requires n'.sched.window == n.sched.window && n'.answers == n.answers && n'.executed == n.executed
    requires n'.builder == n.builder
    ensures PhaseInv(n') && PhasesMove(n, n') && BuilderInv(n')
  {
    WindowHolds(n.sched, version);
    var e := n.sched.window[version - n.sched.window[0].version];
    assert e in n.sched.window && e.comp == CompOf(n.sched, version).value;
    assert e.version in n.executed;
  }

  lemma SameWindow(n: Node, n': Node)
    requires WindowInv(n) && n'.sched == n.sched.(count := n'.sched.count) && n'.sched.count < TWO_32
    requires n'.limit == n.limit && n'.executed == n.executed
    ensures WindowInv(n')
  {
  }

  lemma CountKeeps(n: Node, n': Node, counted: bool)
    requires CountInv(n) && n.sched.count < TWO_32 && n'.executed == n.executed
    requires n'.sched.count == (if counted then CountDown(n.sched.count) else n.sched.count)
    requires |n'.completed| == |n.completed| + if counted then 1 else 0
    ensures CountInv(n') && n'.sched.count < TWO_32
  {
    CountDownIsMod(n.sched.count, |n.executed| - |n.completed|);
  }

  /** Committing the state of a version, counted or not. */
  lemma CommittedKeeps(n: Node, version: nat, n': Node, counted: bool)
    requires Inv(n) && CompOf(n.sched, version).Some?
    requires n' == n.(objs := SetPhase(n, CompOf(n.sched, version).value, Commited).objs,
                      sched := n.sched.(count := if counted then CountDown(n.sched.count) else n.sched.count),
                      ledger := n'.ledger, completed := if counted then n.completed + [version] else n.completed)
    ensures Inv(n') && PhasesMove(n, n')
  {
    CommitKeepsPhases(n, version, n');
    CountKeeps(n, n', counted);
    SameWindow(n, n');
  }

  lemma CommitKeeps(n: Node, version: nat, height: nat, commitOk: bool, publishOk: bool)
    requires Inv(n)
    ensures var n' := CommitStep(n, version, height, commitOk, publishOk);
            Inv(n') && PhasesMove(n, n')
  {
    var reply := Commit(n.sched, version, height, n.ledger, commitOk, publishOk);
    if reply.PublishFailed? || reply.Committed? {
      CommittedKeeps(n, version, CommitStep(n, version, height, commitOk, publishOk), reply.Committed?);
    }
  }

  lemma SubscriptionKeeps(n: Node, height: nat, commitOk: bool)
    requires Inv(n)
    ensures Inv(SubscriptionStep(n, height, commitOk)) && PhasesMove(n, SubscriptionStep(n, height, commitOk))
  {
    if n.ledger < height && CompOf(n.sched, height).Some? && commitOk {
      CommittedKeeps(n, height, SubscriptionStep(n, height, commitOk), false);
    }
  }

  lemma NextKeeps(n: Node, step: Step)
    requires Inv(n)
    ensures Inv(Next(n, step)) && PhasesMove(n, Next(n, step))
  {
    match step
    case Create(v) => CreateKeeps(n, v);
    case ExecuteOn(v, obj, run) => ExecuteKeeps(n, v, obj, run);
    case CommitVersion(v, h, c, p) => CommitKeeps(n, v, h, c, p);
    case CommitFromSubscription(h, c) => SubscriptionKeeps(n, h, c);
  }

  /** The pipeline invariant holds after every run, from either start. */
  lemma {:induction false} RunKeeps(limit: nat, height: nat, genesis: bool, steps: seq<Step>)
    ensures Inv(Run(Start(limit, height, genesis), steps))
    decreases |steps|
  {
    if steps != [] {
      RunKeeps(limit, height, genesis, steps[..|steps| - 1]);
      NextKeeps(Run(Start(limit, height, genesis), steps[..|steps| - 1]), steps[|steps| - 1]);
    }
  }

  /** Over every run: the builder makes at most one state per version and all its answers for a
      version are that state, and no version is executed twice. */
  lemma {:induction false} ExecuteOnce(limit: nat, height: nat, genesis: bool, steps: seq<Step>)
    ensures var n := Run(Start(limit, height, genesis), steps);
            && (forall i, j :: 0 <= i < j < |n.objs| ==> n.objs[i].version != n.objs[j].version)
            && (forall a, b :: a in n.answers && b in n.answers && a.0 == b.0 ==> a.1 == b.1)
            && (forall i, j :: 0 <= i < j < |n.executed| ==> n.executed[i] != n.executed[j])
  {
    RunKeeps(limit, height, genesis, steps);
  }

  /** Every further step moves phases forward only. */
  lemma {:induction false} PhasesOnlyAdvance(limit: nat, height: nat, genesis: bool, steps: seq<Step>, step: Step)
    ensures PhasesMove(Run(Start(limit, height, genesis), steps), Run(Start(limit, height, genesis), steps + [step]))
  {
    RunKeeps(limit, height, genesis, steps);
    assert (steps + [step])[..|steps|] == steps;
    NextKeeps(Run(Start(limit, height, genesis), steps), step);
  }

  /** The phases of the objects when the state of one version, if the window has it, is committed
      with the given reply. */
  ghost predicate CommitMoves(n: Node, version: nat, reply: CommitReply, n': Node)
    requires Consecutive(n.sched)
  {
    && |n'.objs| == |n.objs|
    && forall i :: 0 <= i < |n.objs| ==>
         n'.objs[i] == if CompOf(n.sched, version) == Some(i)
                       then n.objs[i].(phase := PhaseAfterCommit(reply, n.objs[i].phase)) else n.objs[i]
  }

  /** A create step is what the builder's method does. */
  lemma CreateFollowsBuilder(n: Node, version: nat)
    requires Inv(n)
    ensures var n' := CreateStep(n, version);
            var (b, answer) := Build(n.builder, version, BuilderAnswers(n, version), Some(|n.objs|));
            && n'.builder == b && n'.sched == n.sched
            && (answer.Some? ==> (version, answer.value) in n'.answers && answer.value < |n'.objs|)
            && n'.objs == if version in n.builder.created then n.objs else n.objs + [Obj(version, Idle)]
  {
  }

  /** An execute step is what the scheduler's method does. */
  lemma ExecuteFollowsScheduler(n: Node, version: nat, obj: nat, run: Option<Bytes>)
    requires Inv(n) && (version, obj) in n.answers
    ensures var n' := ExecuteStep(n, version, obj, run);
            var (s, reply) := Execute(n.sched, n.limit, version, obj, run);
            && n'.sched == s && obj < |n.objs|
            && n'.objs == n.objs[obj := n.objs[obj].(phase := PhaseAfterExecute(reply, n.objs[obj].phase))]
  {
    assert n.objs[obj := n.objs[obj]] == n.objs;
  }

  /** A commit step is what the scheduler's method does. */
  lemma CommitFollowsScheduler(n: Node, version: nat, height: nat, commitOk: bool, publishOk: bool)
    requires Inv(n)
    ensures var n' := CommitStep(n, version, height, commitOk, publishOk);
            var reply := Commit(n.sched, version, height, n.ledger, commitOk, publishOk);
            && n'.sched == n.sched.(count := CountAfterCommit(reply, n.sched.count))
            && CommitMoves(n, version, reply, n')
  {
    WindowHolds(n.sched, version);
  }

  /** A subscription step is what the processor's method does. */
  lemma SubscriptionFollowsProcessor(n: Node, height: nat, commitOk: bool)
    requires Inv(n)
    ensures var n' := SubscriptionStep(n, height, commitOk);
            n'.sched == n.sched && CommitMoves(n, height, Subscribe(n.sched, height, n.ledger, commitOk), n')
  {
    WindowHolds(n.sched, height);
  }

  lemma {:induction false} RunMore(start: Node, steps: seq<Step>, step: Step)
    ensures Run(start, steps + [step]) == Next(Run(start, steps), step)
  {
    assert (steps + [step])[..|steps|] == steps;
  }

  lemma {:induction false} RunPrefix(start: Node, steps: seq<Step>, k: nat)
    requires k < |steps|
    ensures Run(start, steps[..k + 1]) == Next(Run(start, steps[..k]), steps[k])
  {
    assert steps[..k] + [steps[k]] == steps[..k + 1];
    RunMore(start, steps[..k], steps[k]);
  }

  // ----- the pending count -----

  /** The pending count is executions minus commits that the scheduler completed. */
  ghost predicate Exact(n: Node) {
    n.sched.count == |n.executed| - |n.completed|
  }

  /** A commit reaches the end although nothing is pending. */
  ghost predicate Underflows(n: Node, step: Step) {
    && Consecutive(n.sched) && n.sched.count == 0 && step.CommitVersion?
    && Commit(n.sched, step.version, step.height, n.ledger, step.commitOk, step.publishOk).Committed?
  }

  lemma ExactStep(n: Node, step: Step)
    requires Inv(n) && Exact(n) && |Next(n, step).executed| < TWO_32
    ensures Exact(Next(n, step)) <==> !Underflows(n, step)
  {
  }

  lemma NeverFewer(n: Node, step: Step)
    ensures |n.executed| <= |Next(n, step).executed| && |n.objs| <= |Next(n, step).objs|
  {
  }

  lemma {:induction false} PrefixesAreFewer(start: Node, steps: seq<Step>, k: nat)
    requires k <= |steps|
    ensures |Run(start, steps[..k]).executed| <= |Run(start, steps).executed|
    ensures |Run(start, steps[..k]).objs| <= |Run(start, steps).objs|
    decreases |steps| - k
  {
    if k == |steps| {
      assert steps[..k] == steps;
    } else {
      PrefixesAreFewer(start, steps, k + 1);
      RunPrefix(start, steps, k);
      NeverFewer(Run(start, steps[..k]), steps[k]);
    }
  }

  ghost predicate AlwaysExact(start: Node, steps: seq<Step>) {
    forall k :: 0 <= k <= |steps| ==> Exact(Run(start, steps[..k]))
  }

  ghost predicate NeverUnderflows(start: Node, steps: seq<Step>) {
    forall k :: 0 <= k < |steps| ==> !Underflows(Run(start, steps[..k]), steps[k])
  }

  lemma {:induction false} ExactAt(limit: nat, height: nat, genesis: bool, steps: seq<Step>, k: nat)
    requires k < |steps| && |Run(Start(limit, height, genesis), steps).executed| < TWO_32
    requires Exact(Run(Start(limit, height, genesis), steps[..k]))
    ensures var start := Start(limit, height, genesis);
            Exact(Run(start, steps[..k + 1])) <==> !Underflows(Run(start, steps[..k]), steps[k])
  {
    var start := Start(limit, height, genesis);
    RunKeeps(limit, height, genesis, steps[..k]);
    RunPrefix(start, steps, k);
    PrefixesAreFewer(start, steps, k + 1);
    ExactStep(Run(start, steps[..k]), steps[k]);
  }

  lemma {:induction false} ExactForward(limit: nat, height: nat, genesis: bool, steps: seq<Step>, k: nat)
    requires k <= |steps| && |Run(Start(limit, height, genesis), steps).executed| < TWO_32
    requires NeverUnderflows(Start(limit, height, genesis), steps)
    ensures Exact(Run(Start(limit, height, genesis), steps[..k]))
  {
    if k > 0 {
      ExactForward(limit, height, genesis, steps, k - 1);
      ExactAt(limit, height, genesis, steps, k - 1);
    }
  }

  /** Along a run the pending count stays exact, and so never wraps, if and only if no commit reaches
      its end while the count is zero. */
  lemma {:induction false} PendingCountExact(limit: nat, height: nat, genesis: bool, steps: seq<Step>)
    requires |Run(Start(limit, height, genesis), steps).executed| < TWO_32
    ensures AlwaysExact(Start(limit, height, genesis), steps) <==> NeverUnderflows(Start(limit, height, genesis), steps)
  {
    var start := Start(limit, height, genesis);
    if NeverUnderflows(start, steps) {
      forall k | 0 <= k <= |steps|
        ensures Exact(Run(start, steps[..k]))
      {
        ExactForward(limit, height, genesis, steps, k);
      }
    }
    if AlwaysExact(start, steps) {
      forall k | 0 <= k < |steps|
        ensures !Underflows(Run(start, steps[..k]), steps[k])
      {
        ExactAt(limit, height, genesis, steps, k);
      }
    }
  }

  /** A step as the proposers' blocks make them: the head's height is the state version. */
  predicate Regular(step: Step) {
    step.CommitVersion? ==> step.height == step.version
  }

  predicate RegularRun(steps: seq<Step>) {
    forall i :: 0 <= i < |steps| ==> Regular(steps[i])
  }

  /** Completed commits are of executed versions, each later than the one before; a window entry
      that is committed is not above the ledger. */
  ghost predicate CommitInv(n: Node) {
    && Increasing(n.completed)
    && (forall v :: v in n.completed ==> v in n.executed && v <= n.ledger)
    && (forall e :: e in n.sched.window && e.comp < |n.objs| && n.objs[e.comp].phase == Commited ==>
          e.version <= n.ledger)
  }

  lemma CommitKeepsCommits(n: Node, version: nat, commitOk: bool, publishOk: bool)
    requires Inv(n) && CommitInv(n)
    ensures CommitInv(CommitStep(n, version, version, commitOk, publishOk))
  {
    var reply := Commit(n.sched, version, version, n.ledger, commitOk, publishOk);
    if reply.Committed? || reply.PublishFailed? {
      WindowHolds(n.sched, version);
      if reply.Committed? {
        IncreasingAppend(n.completed, version);
      }
      CommittedBelow(n, version, CommitStep(n, version, version, commitOk, publishOk));
    }
  }

  /** Committing a version raises the ledger to it, and to every version committed before. */
  lemma CommittedBelow(n: Node, version: nat, n': Node)
    requires Inv(n) && CommitInv(n) && CompOf(n.sched, version).Some? && n.ledger < version == n'.ledger
    requires n'.objs == SetPhase(n, CompOf(n.sched, version).value, Commited).objs
    requires n'.sched.window == n.sched.window
    ensures forall e :: e in n'.sched.window && e.comp < |n'.objs| && n'.objs[e.comp].phase == Commited ==>
              e.version <= n'.ledger
  {
    WindowHolds(n.sched, version);
  }

  lemma ExecuteKeepsCommits(n: Node, version: nat, obj: nat, run: Option<Bytes>)
    requires Inv(n) && CommitInv(n)
    ensures CommitInv(ExecuteStep(n, version, obj, run))
  {
    var n' := ExecuteStep(n, version, obj, run);
    assert forall e :: e in n'.sched.window ==> e in n.sched.window || e.comp == obj;
    assert forall v :: v in n.executed ==> v in n'.executed;
  }

  lemma NextKeepsCommits(n: Node, step: Step)
    requires Inv(n) && CommitInv(n) && Regular(step)
    ensures CommitInv(Next(n, step))
  {
    match step
    case Create(_) =>
    case ExecuteOn(v, obj, run) => ExecuteKeepsCommits(n, v, obj, run);
    case CommitVersion(v, h, c, p) => CommitKeepsCommits(n, v, c, p);
    case CommitFromSubscription(h, c) =>
      if n.ledger < h && CompOf(n.sched, h).Some? && c {
        CommittedBelow(n, h, SubscriptionStep(n, h, c));
      }
  }

  lemma {:induction false} RunKeepsCommits(limit: nat, height: nat, genesis: bool, steps: seq<Step>)
    requires RegularRun(steps)
    ensures CommitInv(Run(Start(limit, height, genesis), steps))
    decreases |steps|
  {
    if steps != [] {
      RunKeeps(limit, height, genesis, steps[..|steps| - 1]);
      RunKeepsCommits(limit, height, genesis, steps[..|steps| - 1]);
      NextKeepsCommits(Run(Start(limit, height, genesis), steps[..|steps| - 1]), steps[|steps| - 1]);
    }
  }

  lemma {:induction false} SubsetIsNoLonger(a: seq<nat>, b: seq<nat>)
    requires Increasing(a) && Increasing(b) && forall v :: v in a ==> v in b
    ensures |a| <= |b|
    decreases |a|
  {
    if a != [] {
      var last := a[|a| - 1];
      assert last in a;
      var k :| 0 <= k < |b| && b[k] == last;
      forall v | v in a[..|a| - 1]
        ensures v in b[..k]
      {
        assert v in a && v < last;
        var j :| 0 <= j < |b| && b[j] == v;
        assert j < k;
      }
      SubsetIsNoLonger(a[..|a| - 1], b[..k]);
    }
  }

  /** With the version as height, a commit that reaches its end is of a version still pending. */
  lemma RegularNeverUnderflows(n: Node, step: Step)
    requires Inv(n) && CommitInv(n) && Regular(step) && |n.executed| < TWO_32
    ensures !Underflows(n, step)
  {
    if Underflows(n, step) {
      SubsetIsNoLonger(n.completed, n.executed);
      NothingPending(n);
      CommitKeepsCommits(n, step.version, step.commitOk, step.publishOk);
      SubsetIsNoLonger(n.completed + [step.version], n.executed);
    }
  }

  lemma NothingPending(n: Node)
    requires CountInv(n) && n.sched.count == 0 && |n.completed| <= |n.executed| < TWO_32
    ensures |n.completed| == |n.executed|
  {
  }

  lemma {:induction false} RegularRunNeverUnderflows(limit: nat, height: nat, genesis: bool, steps: seq<Step>)
    requires RegularRun(steps) && |Run(Start(limit, height, genesis), steps).executed| < TWO_32
    ensures NeverUnderflows(Start(limit, height, genesis), steps)
  {
    var start := Start(limit, height, genesis);
    forall k | 0 <= k < |steps|
      ensures !Underflows(Run(start, steps[..k]), steps[k])
    {
      RunKeeps(limit, height, genesis, steps[..k]);
      RunKeepsCommits(limit, height, genesis, steps[..k]);
      PrefixesAreFewer(start, steps, k);
      RegularNeverUnderflows(Run(start, steps[..k]), steps[k]);
    }
  }

  /** On every run whose block heads carry the state version as height, there are no more completed
      commits than executions, and the pending count is their difference at every point. */
  lemma {:induction false} PendingCount(limit: nat, height: nat, genesis: bool, steps: seq<Step>)
    requires RegularRun(steps)
    ensures var start := Start(limit, height, genesis);
            && |Run(start, steps).completed| <= |Run(start, steps).executed|
            && (|Run(start, steps).executed| < TWO_32 ==> AlwaysExact(start, steps))
  {
    RunKeeps(limit, height, genesis, steps);
    RunKeepsCommits(limit, height, genesis, steps);
    var n := Run(Start(limit, height, genesis), steps);
    SubsetIsNoLonger(n.completed, n.executed);
    if |n.executed| < TWO_32 {
      RegularRunNeverUnderflows(limit, height, genesis, steps);
      PendingCountExact(limit, height, genesis, steps);
    }
  }

  /** A version executed and committed once, and then committed again under a higher head. */
  const TWICE: seq<Step> :=
    [Create(1)] + [ExecuteOn(1, 0, Some([]))] + [CommitVersion(1, 1, true, true)] + [CommitVersion(1, 2, true, true)]

  /** The two commits of the one version in the window count down twice. */
  lemma CommitTwice(n: Node)
    requires n.sched == Sched([Entry(1, [], 0)], 1, 1) && n.ledger == 0
    ensures CommitStep(CommitStep(n, 1, 1, true, true), 1, 2, true, true).sched.count == TWO_32 - 1
  {
    var m := CommitStep(n, 1, 1, true, true);
    assert m.sched == Sched([Entry(1, [], 0)], 1, 0) && m.ledger == 1;
  }

  /** The count can wrap below zero. */
  lemma PendingCountCanWrap(limit: nat)
    requires limit > 1
    ensures Run(Start(limit, 0, false), TWICE).sched.count == TWO_32 - 1
  {
    var n := Start(limit, 0, false);
    var create, execute := Create(1), ExecuteOn(1, 0, Some([]));
    assert Run(n, []) == n && [] + [create] == [create];
    RunMore(n, [], create);
    RunMore(n, [create], execute);
    RunMore(n, [create] + [execute], CommitVersion(1, 1, true, true));
    RunMore(n, [create] + [execute] + [CommitVersion(1, 1, true, true)], CommitVersion(1, 2, true, true));
    var m := CreateStep(n, 1);
    assert (1, 0) in m.answers;
    CommitTwice(ExecuteStep(m, 1, 0, Some([])));
  }

  /** The version the preparer would choose is new, and it is accepted exactly when nothing has
      been executed yet or the ledger is not ahead of the last execution. */
  ghost predicate ChoiceFits(n: Node) {
    MaxStateVersion(n.sched, n.ledger).Some? ==>
      var v := MaxStateVersion(n.sched, n.ledger).value + 1;
      !InWindow(n.sched, v) && (Accepts(n.sched, v) <==> n.executed == [] || n.ledger <= n.sched.last)
  }

  lemma ChoiceAt(n: Node)
    requires WindowInv(n)
    ensures ChoiceFits(n)
  {
    if MaxStateVersion(n.sched, n.ledger).Some? {
      NextVersionAccepted(n.sched, n.ledger);
    }
  }

  lemma {:induction false} ChosenVersionAccepted(limit: nat, height: nat, genesis: bool, steps: seq<Step>)
    ensures ChoiceFits(Run(Start(limit, height, genesis), steps))
  {
    RunKeeps(limit, height, genesis, steps);
    ChoiceAt(Run(Start(limit, height, genesis), steps));
  }
}
