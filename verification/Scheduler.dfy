/** The execution scheduler: a window of the most recently executed state versions, with the
    state each was executed on and its result, and a count of executions that the scheduler itself has
    not committed. */
module Scheduler {
  import opened Bits

  const MAX_AVAIL_COUNT: nat := 5

  /** One executed packet of transactions; `T` identifies the state it was executed on. */
  datatype Entry<T> = Entry(version: nat, result: Bytes, comp: T)

  datatype Sched<T> = Sched(window: seq<Entry<T>>, last: nat, count: nat)

  /** What executing a packet of transactions answers. */
  datatype Reply = Ran(result: Bytes) | Stored(result: Bytes) | BadVersion | RunFailed

  /** The versions in the window follow one another and end at the last version executed. */
  ghost predicate Consecutive<T>(s: Sched<T>) {
    && (forall i :: 0 <= i < |s.window| ==> s.window[i].version == s.window[0].version + i)
    && (s.window != [] ==> s.window[|s.window| - 1].version == s.last)
    && s.count < TWO_32
  }

  /** How many entries are dropped when the window has reached the limit. */
  function Evictions(limit: nat): nat {
    limit / 5
  }

  predicate InWindow<T>(s: Sched<T>, version: nat) {
    s.window != [] && s.window[0].version <= version <= s.window[|s.window| - 1].version
  }

  /** A new version must follow the window, or exceed the last version if there is no window. */
  predicate Accepts<T>(s: Sched<T>, version: nat) {
    if s.window != [] then version == s.window[|s.window| - 1].version + 1
    else s.last == 0 || version > s.last
  }

  function Evict<T>(window: seq<Entry<T>>, limit: nat): seq<Entry<T>> {
    if |window| >= limit then window[Evictions(limit)..] else window
  }

  /** `ExecutePackedTx`; `run` is the result of executing the transactions, if it succeeds. */
  ghost function Execute<T>(s: Sched<T>, limit: nat, version: nat, comp: T, run: Option<Bytes>): (Sched<T>, Reply)
    requires Consecutive(s)
  {
    if InWindow(s, version) then (s, Stored(s.window[version - s.window[0].version].result))
    else if !Accepts(s, version) then (s, BadVersion)
    else if run.None? then (s, RunFailed)
    else (Sched(Evict(s.window + [Entry(version, run.value, comp)], limit), version, (s.count + 1) % TWO_32),
          Ran(run.value))
  }

  /** `CompositionStateOfExePackedTxs`. */
  ghost function CompOf<T>(s: Sched<T>, version: nat): Option<T>
    requires Consecutive(s)
  {
    if InWindow(s, version) then Some(s.window[version - s.window[0].version].comp) else None
  }

  /** What committing a version answers. */
  datatype CommitReply = NoSuchVersion | Delayed | CommitFailed | PublishFailed | Committed

  /** Whether a commit gets as far as committing the state, and whether it is then counted. */
  ghost function Commit<T>(s: Sched<T>, version: nat, height: nat, ledger: nat, commitOk: bool, publishOk: bool): CommitReply
    requires Consecutive(s)
  {
    if CompOf(s, version).None? then NoSuchVersion
    else if ledger >= height then Delayed
    else if !commitOk then CommitFailed
    else if !publishOk then PublishFailed
    else Committed
  }

  /** The atomic `Sub(1)` on a 32-bit counter. */
  function CountDown(count: nat): nat {
    if count == 0 then TWO_32 - 1 else count - 1
  }

  /** `MaxStateVersion`. */
  function MaxStateVersion<T>(s: Sched<T>, height: nat): Option<nat> {
    if s.count >= MAX_AVAIL_COUNT then None
    else Some(if height > s.last then height else s.last)
  }

  lemma ExecuteKeepsWindow<T>(s: Sched<T>, limit: nat, version: nat, comp: T, run: Option<Bytes>)
    requires Consecutive(s)
    ensures var (s', reply) := Execute(s, limit, version, comp, run);
            && Consecutive(s')
            && (reply.Ran? ==> s'.last == version && s'.window != []
                                    && s'.window[|s'.window| - 1] == Entry(version, reply.result, comp))
            && (limit >= 5 && |s.window| < limit ==> |s'.window| < limit)
            && (s.window != [] ==> s'.window != [])
            && (!reply.Ran? ==> s' == s)
  {
  }

  /** How many entries stay when one is added: all, or, at the limit, all but a fifth of the limit. */
  function Stay(size: nat, limit: nat): nat {
    if size + 1 < limit then size else size - limit / 5
  }

  /** What an execution answers and leaves behind: the result it was given, appended to older entries
      that are untouched; or the result of the entry of that version. */
  lemma ExecuteAnswers<T>(s: Sched<T>, limit: nat, version: nat, comp: T, run: Option<Bytes>)
    requires Consecutive(s)
    ensures var (s', reply) := Execute(s, limit, version, comp, run);
            var k := Stay(|s.window|, limit);
            && (reply.Ran? ==> && run == Some(reply.result) && k <= |s.window|
                               && s'.window == s.window[|s.window| - k..] + [Entry(version, reply.result, comp)])
            && (reply.Stored? ==> exists e :: e in s.window && e.version == version && e.result == reply.result)
            && (reply.RunFailed? ==> run.None?)
  {
    WindowHolds(s, version);
  }

  /** The next version to prepare follows the larger of the ledger's height and the last version; there
      is none exactly while five or more executions are pending. */
  lemma MaxStateVersionIsMax<T>(s: Sched<T>, height: nat)
    ensures MaxStateVersion(s, height).None? <==> s.count >= 5
    ensures MaxStateVersion(s, height).Some? ==>
              var v := MaxStateVersion(s, height).value;
              v >= height && v >= s.last && v in {height, s.last}
  {
  }

  /** A version between the first and the last of the window has its entry in it. */
  lemma WindowHolds<T>(s: Sched<T>, version: nat)
    requires Consecutive(s)
    ensures InWindow(s, version) ==>
              var i := version - s.window[0].version;
              0 <= i < |s.window| && s.window[i].version == version && s.window[i] in s.window
  {
  }

  /** Asking again for a version in the window gives the result stored for it. */
  lemma RepeatsAreStored<T>(s: Sched<T>, limit: nat, i: nat, comp: T, run: Option<Bytes>)
    requires Consecutive(s) && i < |s.window|
    ensures Execute(s, limit, s.window[i].version, comp, run) == (s, Stored(s.window[i].result))
  {
  }

  /** The version the preparer chooses next is accepted exactly when there is no window or the
      ledger is not ahead of the last version executed. */
  lemma NextVersionAccepted<T>(s: Sched<T>, height: nat)
    requires Consecutive(s) && MaxStateVersion(s, height).Some?
    requires s.window == [] ==> s.last == 0
    ensures var v := MaxStateVersion(s, height).value + 1;
            !InWindow(s, v) && (Accepts(s, v) <==> s.window == [] || height <= s.last)
  {
  }

  /** Committing from the block subscription: the delay is tested before the state is looked up,
      and nothing is counted. */
  ghost function Subscribe<T>(s: Sched<T>, height: nat, ledger: nat, commitOk: bool): CommitReply
    requires Consecutive(s)
  {
    if ledger >= height then Delayed
    else if CompOf(s, height).None? then NoSuchVersion
    else if !commitOk then CommitFailed
    else Committed
  }

  // ----- phases -----

  datatype Phase = Idle | Executed | Commited

  function PhaseAfterExecute(reply: Reply, phase: Phase): Phase {
    if reply.Ran? then Executed else phase
  }

  /** A state is committed although the commit then fails to be published. */
  function PhaseAfterCommit(reply: CommitReply, phase: Phase): Phase {
    if reply.Committed? || reply.PublishFailed? then Commited else phase
  }

  function CountAfterCommit(reply: CommitReply, count: nat): nat {
    if reply.Committed? then CountDown(count) else count
  }

  // ----- the scheduler on the heap -----

  /** A composition state, as far as the pipeline is concerned. */
  class CompState {
    const version: nat
    var phase: Phase

    constructor (version: nat)
      ensures this.version == version && phase == Idle
    {
      this.version := version;
      phase := Idle;
    }
  }

  class Scheduler {
    const limit: nat
    var exePackedTxsList: seq<Entry<CompState>>
    var lastStateVersion: nat
    var exePackedCount: nat

    ghost function Val(): Sched<CompState>
      reads this
    {
      Sched(exePackedTxsList, lastStateVersion, exePackedCount)
    }

    ghost predicate Valid()
      reads this
    {
      Consecutive(Val())
    }

    constructor (limit: nat)
      ensures Valid() && this.limit == limit && Val() == Sched([], 0, 0)
    {
      this.limit := limit;
      exePackedTxsList, lastStateVersion, exePackedCount := [], 0, 0;
    }

    /** The scan from the front for a version that lies in the window: it always finds it. */
    method FindInWindow(version: nat) returns (item: Entry<CompState>)
      requires Valid() && InWindow(Val(), version)
      ensures item == exePackedTxsList[version - exePackedTxsList[0].version]
    {
      var i := 0;
      while exePackedTxsList[i].version != version
        invariant 0 <= i < |exePackedTxsList| && exePackedTxsList[i].version <= version
        decreases |exePackedTxsList| - i
      {
        i := i + 1;
      }
      item := exePackedTxsList[i];
    }

    /** The scan over the whole list. */
    method CompositionStateOfExePackedTxs(version: nat) returns (comp: Option<CompState>)
      requires Valid()
      ensures comp == CompOf(Val(), version)
    {
      WindowHolds(Val(), version);
      for i := 0 to |exePackedTxsList|
        invariant forall j :: 0 <= j < i ==> exePackedTxsList[j].version != version
      {
        if exePackedTxsList[i].version == version {
          return Some(exePackedTxsList[i].comp);
        }
      }
      return None;
    }

    method ExecutePackedTx(version: nat, comp: CompState, run: Option<Bytes>) returns (reply: Reply)
      requires Valid()
      modifies this, comp`phase
      ensures Valid() && (Val(), reply) == Execute(old(Val()), limit, version, comp, run)
      ensures comp.phase == PhaseAfterExecute(reply, old(comp.phase))
    {
      ExecuteKeepsWindow(Val(), limit, version, comp, run);
      if |exePackedTxsList| != 0 {
        var front, back := exePackedTxsList[0], exePackedTxsList[|exePackedTxsList| - 1];
        if front.version <= version <= back.version {
          var item := FindInWindow(version);
          return Stored(item.result);
        }
        if version != back.version + 1 {
          return BadVersion;
        }
      } else {
        if lastStateVersion != 0 && version <= lastStateVersion {
          return BadVersion;
        }
      }
      if run.None? {
        return RunFailed;
      }
      comp.phase := Executed;
      Append(Entry(version, run.value, comp));
      return Ran(run.value);
    }

    /** The bookkeeping of a successful execution. */
    method Append(entry: Entry<CompState>)
      modifies this
      ensures Val() == Sched(Evict(old(exePackedTxsList) + [entry], limit), entry.version, (old(exePackedCount) + 1) % TWO_32)
    {
      lastStateVersion := entry.version;
      exePackedCount := (exePackedCount + 1) % TWO_32;
      exePackedTxsList := exePackedTxsList + [entry];
      Trim();
    }

    /** Drops the oldest entries once the list has reached the limit. */
    method Trim()
      modifies this`exePackedTxsList
      ensures exePackedTxsList == Evict(old(exePackedTxsList), limit)
    {
      ghost var full := exePackedTxsList;
      if |exePackedTxsList| >= limit {
        var iCycle := Evictions(limit);
        while iCycle > 0
          invariant 0 <= iCycle <= Evictions(limit) <= |full|
          invariant exePackedTxsList == full[Evictions(limit) - iCycle..]
        {
          exePackedTxsList := exePackedTxsList[1..];
          iCycle := iCycle - 1;
        }
      }
    }

    /** `CommitBlock`: the state takes the new latest block and moves on to committed. */
    method CommitBlock(comp: CompState, commitOk: bool) returns (ok: bool)
      modifies comp`phase
      ensures ok == commitOk && comp.phase == if ok then Commited else old(comp.phase)
    {
      if !commitOk {
        return false;
      }
      comp.phase := Commited;
      return true;
    }

    /** `CommitPackedTx`, given the latest height in the ledger. */
    method CommitPackedTx(version: nat, height: nat, ledger: nat, commitOk: bool, publishOk: bool) returns (reply: CommitReply)
      requires Valid()
      modifies this`exePackedCount, set e | e in exePackedTxsList :: e.comp
      ensures Valid() && reply == Commit(old(Val()), version, height, ledger, commitOk, publishOk)
      ensures Val() == old(Val()).(count := CountAfterCommit(reply, old(exePackedCount)))
      ensures forall e :: e in exePackedTxsList ==>
                e.comp.phase == if CompOf(old(Val()), version) == Some(e.comp)
                                then PhaseAfterCommit(reply, old(e.comp.phase)) else old(e.comp.phase)
    {
      var comp := CompositionStateOfExePackedTxs(version);
      if comp.None? {
        return NoSuchVersion;
      }
      if ledger >= height {
        return Delayed;
      }
      WindowHolds(Val(), version);
      var ok := CommitBlock(comp.value, commitOk);
      if !ok {
        return CommitFailed;
      }
      if !publishOk {
        return PublishFailed;
      }
      exePackedCount := CountDown(exePackedCount);
      return Committed;
    }
  }

  /** The processor of blocks that arrive by subscription. */
  class BlockInfoSub {
    const scheduler: Scheduler

    constructor (scheduler: Scheduler)
      ensures this.scheduler == scheduler
    {
      this.scheduler := scheduler;
    }

    /** Commits the state executed for the block's height, given the latest height in the ledger. */
    method Process(height: nat, ledger: nat, commitOk: bool) returns (reply: CommitReply)
      requires scheduler.Valid()
      modifies set e | e in scheduler.exePackedTxsList :: e.comp
      ensures reply == Subscribe(old(scheduler.Val()), height, ledger, commitOk)
      ensures scheduler.Val() == old(scheduler.Val())
      ensures forall e :: e in scheduler.exePackedTxsList ==>
                e.comp.phase == if CompOf(old(scheduler.Val()), height) == Some(e.comp)
                                then PhaseAfterCommit(reply, old(e.comp.phase)) else old(e.comp.phase)
    {
      if ledger >= height {
        return Delayed;
      }
      var comp := scheduler.CompositionStateOfExePackedTxs(height);
      if comp.None? {
        return NoSuchVersion;
      }
      WindowHolds(scheduler.Val(), height);
      var ok := scheduler.CommitBlock(comp.value, commitOk);
      return if ok then Committed else CommitFailed;
    }
  }
}
