/** What the executions of a run returned, and that the scheduler answers with exactly that for as long as
    it remembers. */
module Results {
  import opened Bits
  import opened Scheduler
  import opened Pipeline

  /** The step executes: it is on a state the node was given, and of a version that is accepted. */
  ghost predicate Runs(n: Node, step: Step) {
    && step.ExecuteOn? && step.run.Some? && (step.version, step.obj) in n.answers
    && !InWindow(n.sched, step.version) && Accepts(n.sched, step.version)
  }

  /** The result each version was first executed with, read off the steps. */
  ghost function Outcomes(start: Node, steps: seq<Step>): map<nat, Bytes> {
    if steps == [] then map[]
    else
      var k := |steps| - 1;
      var before := Outcomes(start, steps[..k]);
      if Runs(Run(start, steps[..k]), steps[k]) && steps[k].version !in before
      then before[steps[k].version := steps[k].run.value] else before
  }

  /** Every entry holds the result its version was executed with; executed versions have one. */
  ghost predicate Remembers(n: Node, o: map<nat, Bytes>) {
    && (forall e :: e in n.sched.window ==> e.version in o && e.result == o[e.version])
    && (forall v :: v in o <==> v in n.executed)
  }

  lemma AddOutcome(window: seq<Entry<nat>>, k: nat, executed: seq<nat>, o: map<nat, Bytes>, version: nat, result: Bytes, obj: nat)
    requires (forall e :: e in window ==> e.version in o && e.result == o[e.version])
    requires (forall v :: v in o <==> v in executed) && version !in executed && k <= |window|
    ensures var o', window' := o[version := result], window[k..] + [Entry(version, result, obj)];
            && (forall e :: e in window' ==> e.version in o' && e.result == o'[e.version])
            && (forall v :: v in o' <==> v in executed + [version])
  {
    forall e | e in window[k..] + [Entry(version, result, obj)]
      ensures e in window || e == Entry(version, result, obj)
    {
    }
  }

  /** What an execution that runs does to window and versions. */
  lemma RunsAppends(n: Node, step: Step) returns (k: nat)
    requires Inv(n) && Runs(n, step)
    ensures k <= |n.sched.window| && step.version !in n.executed
    ensures Next(n, step).sched.window == n.sched.window[k..] + [Entry(step.version, step.run.value, step.obj)]
    ensures Next(n, step).executed == n.executed + [step.version]
  {
    k := |n.sched.window| - Stay(|n.sched.window|, n.limit);
    ExecuteAnswers(n.sched, n.limit, step.version, step.obj, step.run);
    ExecutedIsNew(n, step.version);
  }

  lemma OthersKeep(n: Node, step: Step)
    requires Consecutive(n.sched) && !Runs(n, step)
    ensures Next(n, step).sched.window == n.sched.window && Next(n, step).executed == n.executed
  {
  }

  lemma NextRemembers(n: Node, o: map<nat, Bytes>, step: Step)
    requires Inv(n) && Remembers(n, o)
    ensures Remembers(Next(n, step), if Runs(n, step) && step.version !in o then o[step.version := step.run.value] else o)
  {
    if Runs(n, step) {
      var k := RunsAppends(n, step);
      AddOutcome(n.sched.window, k, n.executed, o, step.version, step.run.value, step.obj);
    } else {
      OthersKeep(n, step);
    }
  }

  lemma {:induction false} RunRemembers(limit: nat, height: nat, genesis: bool, steps: seq<Step>)
    ensures Remembers(Run(Start(limit, height, genesis), steps), Outcomes(Start(limit, height, genesis), steps))
    decreases |steps|
  {
    if steps != [] {
      var k, start := |steps| - 1, Start(limit, height, genesis);
      RunRemembers(limit, height, genesis, steps[..k]);
      RunKeeps(limit, height, genesis, steps[..k]);
      NextRemembers(Run(start, steps[..k]), Outcomes(start, steps[..k]), steps[k]);
    }
  }

  /** After every run, executing answers with the result just given, or, for a version in the window,
      with the result its first execution was given. */
  lemma {:induction false} RepeatsAnswerFirst(limit: nat, height: nat, genesis: bool, steps: seq<Step>,
                                              version: nat, obj: nat, run: Option<Bytes>)
    ensures var start := Start(limit, height, genesis);
            var n, o := Run(start, steps), Outcomes(start, steps);
            && Consecutive(n.sched)
            && var reply := Execute(n.sched, limit, version, obj, run).1;
               && (reply.Ran? ==> run == Some(reply.result))
               && (reply.Stored? ==> version in o && reply.result == o[version])
               && (InWindow(n.sched, version) ==> reply.Stored?)
  {
    RunKeeps(limit, height, genesis, steps);
    RunRemembers(limit, height, genesis, steps);
    ExecuteAnswers(Run(Start(limit, height, genesis), steps).sched, limit, version, obj, run);
  }

  /** An outcome is the run of the one step that executed the version, and it never changes. */
  lemma {:induction false} OutcomesComeFromSteps(start: Node, steps: seq<Step>, version: nat)
    requires version in Outcomes(start, steps)
    ensures exists k :: 0 <= k < |steps| && Runs(Run(start, steps[..k]), steps[k]) && steps[k].version == version
                        && steps[k].run == Some(Outcomes(start, steps)[version])
    decreases |steps|
  {
    var k := |steps| - 1;
    if version in Outcomes(start, steps[..k]) {
      OutcomesComeFromSteps(start, steps[..k], version);
      var j :| 0 <= j < k && Runs(Run(start, steps[..k][..j]), steps[..k][j]) && steps[..k][j].version == version
               && steps[..k][j].run == Some(Outcomes(start, steps[..k])[version]);
      assert steps[..k][..j] == steps[..j] && steps[..k][j] == steps[j];
    } else {
      assert steps[..k] == steps[..k];
    }
  }

  lemma {:induction false} OutcomesStay(start: Node, steps: seq<Step>, step: Step, version: nat)
    requires version in Outcomes(start, steps)
    ensures version in Outcomes(start, steps + [step])
    ensures Outcomes(start, steps + [step])[version] == Outcomes(start, steps)[version]
  {
    assert (steps + [step])[..|steps|] == steps;
  }

  // ----- how far back the scheduler remembers -----

  /** The window has all executed versions, or at least four fifths of the limit of the last ones. */
  ghost predicate Retains(n: Node) {
    |n.sched.window| == |n.executed| || |n.sched.window| >= n.limit - n.limit / 5
  }

  lemma NextRetains(n: Node, step: Step)
    requires Inv(n) && Retains(n) && n.limit >= 5
    ensures Retains(Next(n, step)) && Next(n, step).limit == n.limit
  {
    if Runs(n, step) {
      ExecuteAnswers(n.sched, n.limit, step.version, step.obj, step.run);
      var k := RunsAppends(n, step);
    } else {
      OthersKeep(n, step);
    }
  }

  /** After every run the last executed versions, up to four fifths of the limit, are in the window. */
  lemma {:induction false} WindowRetains(limit: nat, height: nat, genesis: bool, steps: seq<Step>)
    requires limit >= 5
    ensures var n := Run(Start(limit, height, genesis), steps);
            n.limit == limit && Retains(n) && |n.sched.window| < limit
    decreases |steps|
  {
    RunKeeps(limit, height, genesis, steps);
    if steps != [] {
      var k := |steps| - 1;
      WindowRetains(limit, height, genesis, steps[..k]);
      RunKeeps(limit, height, genesis, steps[..k]);
      NextRetains(Run(Start(limit, height, genesis), steps[..k]), steps[k]);
    }
  }

  // ----- asking the builder again -----

  /** The last state the builder made is the newest object. */
  ghost predicate LastIsNewest(n: Node) {
    n.builder.last == (if n.objs == [] then None else Some(|n.objs| - 1))
  }

  lemma {:induction false} RunKeepsLast(limit: nat, height: nat, genesis: bool, steps: seq<Step>)
    ensures LastIsNewest(Run(Start(limit, height, genesis), steps))
    decreases |steps|
  {
    if steps != [] {
      var k := |steps| - 1;
      RunKeepsLast(limit, height, genesis, steps[..k]);
      NextKeepsLast(Run(Start(limit, height, genesis), steps[..k]), steps[k]);
    }
  }

  lemma NextKeepsLast(n: Node, step: Step)
    requires LastIsNewest(n)
    ensures LastIsNewest(Next(n, step))
  {
  }

  /** What the builder answers for a version. */
  ghost function AnswerFor(n: Node, version: nat): Option<nat> {
    Build(n.builder, version, BuilderAnswers(n, version), Some(|n.objs|)).1
  }

  /** After every run, a version not seen before gets a new state; the version asked for last gets the
      same state again until it is committed; every other one gets none. */
  lemma {:induction false} AskingAgain(limit: nat, height: nat, genesis: bool, steps: seq<Step>, version: nat)
    ensures var n := Run(Start(limit, height, genesis), steps);
            var newest := |n.objs| - 1;
            AnswerFor(n, version) ==
            if version !in n.builder.created then Some(|n.objs|)
            else if n.objs != [] && n.objs[newest].version == version && n.objs[newest].phase != Commited then Some(newest)
            else None
  {
    RunKeepsLast(limit, height, genesis, steps);
  }
}
