/** The proposer's vote handling: the vote collector, the record of voters
    already heard, the record of state versions already committed, and the
    threshold over which a group signature is recovered.

    Signatures are opaque: whether a share verifies, what recovering a group
    signature answers and whether messages can be built and delivered are inputs
    of each step. */
module Voting {
  import opened Bits

  const VOTED_CAPACITY: nat := 200
  const COMMIT_CAPACITY: nat := 5

  datatype Vote = Vote(stateVersion: nat, voter: Bytes, blockHead: Bytes, signature: Bytes)

  // ---------------------------------------------------------------- record keys

  const AT: Byte := 64

  function Decimal(n: nat): Bytes {
    if n < 10 then [48 + n] else Decimal(n / 10) + [48 + n % 10]
  }

  /** The key under which a vote is remembered: `StateVersion@Voter`. */
  function VoteKey(version: nat, voter: Bytes): Bytes {
    Decimal(version) + [AT] + voter
  }

  lemma {:induction false} DecimalDigits(n: nat)
    ensures |Decimal(n)| > 0 && forall i :: 0 <= i < |Decimal(n)| ==> 48 <= Decimal(n)[i] < 58
  {
    if n >= 10 {
      DecimalDigits(n / 10);
    }
  }

  lemma {:induction false} DecimalInjective(a: nat, b: nat)
    requires Decimal(a) == Decimal(b)
    ensures a == b
  {
    DecimalDigits(a / 10);
    DecimalDigits(b / 10);
    var s, t := Decimal(a), Decimal(b);
    assert s[|s| - 1] == 48 + a % 10 && t[|t| - 1] == 48 + b % 10;
    if a >= 10 && b >= 10 {
      assert s[..|s| - 1] == Decimal(a / 10) && t[..|t| - 1] == Decimal(b / 10);
      DecimalInjective(a / 10, b / 10);
    }
  }

  /** Votes share a key only if they agree on state version and voter, even
      when a voter's name contains the separator. */
  lemma VoteKeyInjective(v: nat, x: Bytes, w: nat, y: Bytes)
    requires VoteKey(v, x) == VoteKey(w, y)
    ensures v == w && x == y
  {
    var d, e, k := Decimal(v), Decimal(w), VoteKey(v, x);
    DecimalDigits(v);
    DecimalDigits(w);
    assert k[|d|] == AT && k[|e|] == AT;
    assert d == k[..|d|] == e;
    assert x == k[|d| + 1..] == y;
    DecimalInjective(v, w);
  }

  // ------------------------------------------------------------ bounded records

  /** Adding an absent key to a bounded cache whose reads do not refresh
      entries: the oldest entry goes when the capacity is exceeded. */
  function Remember<K>(record: seq<K>, key: K, capacity: nat): seq<K> {
    if |record| < capacity then record + [key] else (record + [key])[1..]
  }

  /** The record holds the newest entries of everything ever added to it. */
  ghost predicate Newest<K(!new)>(record: seq<K>, added: seq<K>, capacity: nat) {
    record == if |added| <= capacity then added else added[|added| - capacity..]
  }

  /** A key is added again only after more than `capacity` later additions. */
  ghost predicate Spaced<K(!new)>(added: seq<K>, capacity: nat) {
    forall i, j :: 0 <= i < j < |added| && added[i] == added[j] ==> j - i > capacity
  }

  lemma RememberKeepsSpacing<K(!new)>(record: seq<K>, added: seq<K>, key: K, capacity: nat)
    requires Newest(record, added, capacity) && Spaced(added, capacity)
    requires key !in record
    ensures Newest(Remember(record, key, capacity), added + [key], capacity)
    ensures Spaced(added + [key], capacity)
  {
  }

  // ------------------------------------------------------------------- the tally

  datatype Collector = Collector(latestHeight: nat, threshold: nat, votes: seq<Vote>)

  datatype Recovery = Recovered(signature: Bytes) | Nothing | Failed

  function Signatures(votes: seq<Vote>): (r: seq<Bytes>)
    ensures |r| == |votes| && forall i :: 0 <= i < |votes| ==> r[i] == votes[i].signature
  {
    seq(|votes|, i requires 0 <= i < |votes| => votes[i].signature)
  }

  predicate SameHead(c: Collector, vote: Vote) {
    c.votes == [] || c.votes[0].blockHead == vote.blockHead
  }

  function Tally(c: Collector, vote: Vote): Collector {
    if SameHead(c, vote) then c.(votes := c.votes + [vote]) else c
  }

  /** Adding this vote makes the collector try to recover a group signature. */
  predicate Attempts(c: Collector, vote: Vote) {
    SameHead(c, vote) && |c.votes| + 1 >= c.threshold
  }

  function Recover(c: Collector, vote: Vote, recover: (Bytes, seq<Bytes>) -> Recovery): Recovery {
    if Attempts(c, vote) then recover(Tally(c, vote).votes[0].blockHead, Signatures(Tally(c, vote).votes))
    else Nothing
  }

  class VoteCollector {
    const latestHeight: nat
    const threshold: nat
    var votes: seq<Vote>

    ghost function State(): Collector
      reads this
    {
      Collector(latestHeight, threshold, votes)
    }

    constructor (latestHeight: nat, threshold: nat)
      ensures State() == Collector(latestHeight, threshold, [])
    {
      this.latestHeight := latestHeight;
      this.threshold := threshold;
      votes := [];
    }

    method TryAggregateSignAndAddVote(vote: Vote, recover: (Bytes, seq<Bytes>) -> Recovery) returns (r: Recovery)
      modifies this
      ensures State() == Tally(old(State()), vote)
      ensures r == Recover(old(State()), vote, recover)
    {
      if |votes| > 0 {
        if votes[0].blockHead != vote.blockHead {
          return Nothing;
        }
        votes := votes + [vote];
      } else {
        votes := votes + [vote];
      }
      if |votes| >= threshold {
        var signArr: seq<Bytes> := [];
        for i := 0 to |votes|
          invariant votes == old(votes) + [vote]
          invariant signArr == Signatures(votes[..i])
        {
          signArr := signArr + [votes[i].signature];
        }
        assert votes[..|votes|] == votes;
        r := recover(votes[0].blockHead, signArr);
      } else {
        r := Nothing;
      }
    }

    method Reset()
      modifies this
      ensures State() == old(State()).(votes := [])
    {
      votes := votes[..0];
    }
  }

  // ---------------------------------------------------------------- the proposer

  datatype Proposer = Proposer(collector: Option<Collector>, voted: seq<Bytes>, committed: seq<nat>)

  /** What the cryptography and the network answer during one step. */
  datatype Services = Services(recover: (Bytes, seq<Bytes>) -> Recovery, produced: bool, delivered: bool)

  datatype Disposal = Finished | NotReached | Error

  predicate Commits(p: Proposer, vote: Vote, s: Services)
    requires p.collector.Some?
  {
    Recover(p.collector.value, vote, s.recover).Recovered? && s.produced
  }

  function Disposed(p: Proposer, vote: Vote, s: Services): Proposer
    requires p.collector.Some?
  {
    var q := p.(collector := Some(Tally(p.collector.value, vote)));
    if Commits(p, vote, s) && vote.stateVersion !in p.committed
    then q.(committed := Remember(p.committed, vote.stateVersion, COMMIT_CAPACITY))
    else q
  }

  function Disposition(p: Proposer, vote: Vote, s: Services): Disposal
    requires p.collector.Some?
  {
    match Recover(p.collector.value, vote, s.recover)
    case Failed => Error
    case Nothing => NotReached
    case Recovered(_) =>
      if !s.produced then Error
      else if vote.stateVersion in p.committed || s.delivered then Finished
      else Error
  }

  /** The handler reaches the collector: the vote is new and its version is not committed. */
  predicate Heard(p: Proposer, selected: bool, vote: Vote) {
    selected && vote.stateVersion !in p.committed && VoteKey(vote.stateVersion, vote.voter) !in p.voted
  }

  function Record(p: Proposer, vote: Vote): Proposer {
    p.(voted := Remember(p.voted, VoteKey(vote.stateVersion, vote.voter), VOTED_CAPACITY))
  }

  /** The vote is counted: it is for the next height and its signature share verifies. */
  predicate Counted(c: Collector, vote: Vote, verified: bool) {
    vote.stateVersion == (c.latestHeight + 1) % TWO_64 && verified
  }

  function Emptied(p: Proposer): Proposer
    requires p.collector.Some?
  {
    p.(collector := Some(p.collector.value.(votes := [])))
  }

  /** One message of the vote channel; `None` is the nil dereference that occurs
      when a vote arrives before the node ever proposed. */
  function Receive(p: Proposer, selected: bool, vote: Vote, verified: bool, s: Services): Option<Proposer> {
    if !Heard(p, selected, vote) then Some(p)
    else if p.collector.None? then None
    else if !Counted(p.collector.value, vote, verified) then Some(Record(p, vote))
    else
      var q := Record(p, vote);
      if Disposition(q, vote, s).Finished? then Some(Emptied(Disposed(q, vote, s)))
      else Some(Disposed(q, vote, s))
  }

  /** Proposing starts a collector and counts the node's own vote, if it could be made. */
  function Propose(p: Proposer, height: nat, threshold: nat, own: Option<Vote>, s: Services): Proposer {
    var q := p.(collector := Some(Collector(height, threshold, [])));
    if own.None? then q else Disposed(q, own.value, s)
  }

  function HearCommit(p: Proposer, version: nat): Proposer {
    if version in p.committed then p
    else p.(committed := Remember(p.committed, version, COMMIT_CAPACITY))
  }

  class ConsensusProposer {
    var voteCollector: VoteCollector?
    var votedRecord: seq<Bytes>
    var commitMsg: seq<nat>

    ghost function State(): Proposer
      reads this, voteCollector
    {
      Proposer(if voteCollector == null then None else Some(voteCollector.State()), votedRecord, commitMsg)
    }

    constructor ()
      ensures State() == Proposer(None, [], [])
    {
      voteCollector := null;
      votedRecord := [];
      commitMsg := [];
    }

    method SetIfNotVoted(vote: Vote) returns (known: bool)
      modifies this`votedRecord
      ensures known == (VoteKey(vote.stateVersion, vote.voter) in old(votedRecord))
      ensures State() == if known then old(State()) else Record(old(State()), vote)
    {
      var key := VoteKey(vote.stateVersion, vote.voter);
      known := key in votedRecord;
      if !known {
        votedRecord := Remember(votedRecord, key, VOTED_CAPACITY);
      }
    }

    method AggSignDispose(vote: Vote, s: Services) returns (d: Disposal)
      requires voteCollector != null
      modifies this`commitMsg, voteCollector
      ensures State() == Disposed(old(State()), vote, s)
      ensures d == Disposition(old(State()), vote, s)
    {
      var aggSign := voteCollector.TryAggregateSignAndAddVote(vote, s.recover);
      if aggSign.Failed? {
        return Error;
      }
      if aggSign.Nothing? {
        return NotReached;
      }
      if !s.produced {
        return Error;
      }
      if vote.stateVersion in commitMsg {
        return Finished;
      }
      commitMsg := Remember(commitMsg, vote.stateVersion, COMMIT_CAPACITY);
      d := if s.delivered then Finished else Error;
    }

    /** The body of the vote channel's loop. */
    method ReceiveVote(selected: bool, vote: Vote, verified: bool, s: Services) returns (panicked: bool)
      modifies this`votedRecord, this`commitMsg, voteCollector
      ensures panicked == Receive(old(State()), selected, vote, verified, s).None?
      ensures !panicked ==> Some(State()) == Receive(old(State()), selected, vote, verified, s)
    {
      if !selected || vote.stateVersion in commitMsg {
        return false;
      }
      var known := SetIfNotVoted(vote);
      if known {
        return false;
      }
      if voteCollector == null {
        return true;
      }
      if vote.stateVersion != (voteCollector.latestHeight + 1) % TWO_64 || !verified {
        return false;
      }
      var d := AggSignDispose(vote, s);
      if d.Finished? {
        voteCollector.Reset();
      }
      panicked := false;
    }

    method ProposeBlock(height: nat, threshold: nat, own: Option<Vote>, s: Services) returns (ok: bool)
      modifies this
      ensures State() == Propose(old(State()), height, threshold, own, s)
    {
      voteCollector := new VoteCollector(height, threshold);
      if own.None? {
        return false;
      }
      var d := AggSignDispose(own.value, s);
      ok := !d.Error?;
    }

    method ReceiveCommit(version: nat) returns (known: bool)
      modifies this`commitMsg
      ensures known == (version in old(commitMsg))
      ensures State() == HearCommit(old(State()), version)
    {
      known := version in commitMsg;
      if !known {
        commitMsg := Remember(commitMsg, version, COMMIT_CAPACITY);
      }
    }
  }

  // ------------------------------------------------------------------- whole runs

  datatype Step =
    | NewProposal(height: nat, threshold: nat, own: Option<Vote>, s: Services)
    | VoteArrives(selected: bool, vote: Vote, verified: bool, s: Services)
    | CommitArrives(version: nat)

  /** A try at recovering a group signature. A vote's mark is its place, counted
      from one, among all records of votes heard; the node's own vote has mark zero. */
  datatype Attempt = Attempt(height: nat, threshold: nat, votes: seq<Vote>, marks: seq<nat>)

  /** The record keys of versions and voters. */
  function Keys(heard: seq<(nat, Bytes)>): (r: seq<Bytes>)
    ensures |r| == |heard| && forall i :: 0 <= i < |heard| ==> r[i] == VoteKey(heard[i].0, heard[i].1)
  {
    seq(|heard|, i requires 0 <= i < |heard| => VoteKey(heard[i].0, heard[i].1))
  }

  /** The proposer together with what it did so far: the voters and versions it
      recorded, the marks of the votes now in the collector, and its attempts. */
  datatype Trace = Trace(
    p: Proposer,
    heard: seq<(nat, Bytes)>,
    commits: seq<nat>,
    marks: seq<nat>,
    attempts: seq<Attempt>)

  function Start(): Trace {
    Trace(Proposer(None, [], []), [], [], [], [])
  }

  /** The bookkeeping of one vote handed to the collector of `p`. */
  function Noted(t: Trace, p: Proposer, vote: Vote, mark: nat, s: Services): Trace
    requires p.collector.Some?
  {
    var c := p.collector.value;
    var marks := if SameHead(c, vote) then t.marks + [mark] else t.marks;
    t.(p := Disposed(p, vote, s),
       commits := if Commits(p, vote, s) && vote.stateVersion !in p.committed
                  then t.commits + [vote.stateVersion] else t.commits,
       marks := marks,
       attempts := if Attempts(c, vote)
                   then t.attempts + [Attempt(c.latestHeight, c.threshold, Tally(c, vote).votes, marks)]
                   else t.attempts)
  }

  function AfterVote(t: Trace, vote: Vote, verified: bool, s: Services): Trace
    requires t.p.collector.Some?
  {
    var r := t.(p := Record(t.p, vote), heard := t.heard + [(vote.stateVersion, vote.voter)]);
    if !Counted(t.p.collector.value, vote, verified) then r
    else
      var n := Noted(r, r.p, vote, |r.heard|, s);
      if Disposition(r.p, vote, s).Finished? then n.(p := Emptied(n.p), marks := []) else n
  }

  function AfterProposal(t: Trace, height: nat, threshold: nat, own: Option<Vote>, s: Services): Trace {
    var r := t.(p := Propose(t.p, height, threshold, None, s), marks := []);
    if own.None? then r else Noted(r, r.p, own.value, 0, s)
  }

  function Next(t: Trace, step: Step): Trace {
    match step
    case NewProposal(height, threshold, own, s) => AfterProposal(t, height, threshold, own, s)
    case VoteArrives(selected, vote, verified, s) =>
      if !Heard(t.p, selected, vote) || t.p.collector.None? then t
      else AfterVote(t, vote, verified, s)
    case CommitArrives(version) =>
      t.(p := HearCommit(t.p, version),
         commits := if version in t.p.committed then t.commits else t.commits + [version])
  }

  function Run(steps: seq<Step>): Trace {
    if steps == [] then Start() else Next(Run(steps[..|steps| - 1]), steps[|steps| - 1])
  }

  /** The bookkeeping follows the handlers: the proposer inside a trace moves
      exactly as they do, except that nothing follows a panic. */
  lemma TraceFollowsHandlers(t: Trace, step: Step)
    ensures match step
            case NewProposal(h, k, own, s) => Next(t, step).p == Propose(t.p, h, k, own, s)
            case VoteArrives(sel, v, ok, s) =>
              Receive(t.p, sel, v, ok, s) ==
              if Heard(t.p, sel, v) && t.p.collector.None? then None else Some(Next(t, step).p)
            case CommitArrives(version) => Next(t, step).p == HearCommit(t.p, version)
  {
  }

  /** The steps are those of the node `self`: its own votes carry its own name. */
  ghost predicate OwnSteps(self: Bytes, steps: seq<Step>) {
    forall i :: 0 <= i < |steps| ==> OwnStep(self, steps[i])
  }

  ghost predicate OwnStep(self: Bytes, step: Step) {
    step.NewProposal? && step.own.Some? ==> step.own.value.voter == self
  }

  /** All votes name one head; only the first may be the node's own; every other
      is for the next height and was recorded at its mark; marks increase. */
  ghost predicate Sound(self: Bytes, heard: seq<(nat, Bytes)>, height: nat, votes: seq<Vote>, marks: seq<nat>) {
    && |marks| == |votes|
    && (forall i :: 0 <= i < |votes| ==> votes[i].blockHead == votes[0].blockHead)
    && (forall i :: 0 <= i < |marks| ==> SoundMark(self, heard, height, votes[i], marks[i]))
    && (forall i, j :: 0 <= i < j < |marks| ==> marks[i] < marks[j])
  }

  ghost predicate SoundMark(self: Bytes, heard: seq<(nat, Bytes)>, height: nat, vote: Vote, mark: nat) {
    if mark == 0 then vote.voter == self
    else
      && mark <= |heard|
      && heard[mark - 1] == (vote.stateVersion, vote.voter)
      && vote.stateVersion == (height + 1) % TWO_64
  }

  ghost predicate SoundAttempt(self: Bytes, heard: seq<(nat, Bytes)>, a: Attempt) {
    |a.votes| > 0 && |a.votes| >= a.threshold && Sound(self, heard, a.height, a.votes, a.marks)
  }

  ghost predicate Records(t: Trace) {
    && Newest(t.p.voted, Keys(t.heard), VOTED_CAPACITY) && Spaced(t.heard, VOTED_CAPACITY)
    && Newest(t.p.committed, t.commits, COMMIT_CAPACITY) && Spaced(t.commits, COMMIT_CAPACITY)
  }

  ghost predicate Tallies(self: Bytes, t: Trace) {
    && (t.p.collector.Some? ==>
          Sound(self, t.heard, t.p.collector.value.latestHeight, t.p.collector.value.votes, t.marks))
    && (forall a :: a in t.attempts ==> SoundAttempt(self, t.heard, a))
  }

  /** What is remembered of the votes heard, and how far apart equal ones are. */
  lemma HeardKeepsSpacing(voted: seq<Bytes>, heard: seq<(nat, Bytes)>, key: (nat, Bytes))
    requires Newest(voted, Keys(heard), VOTED_CAPACITY) && Spaced(heard, VOTED_CAPACITY)
    requires VoteKey(key.0, key.1) !in voted
    ensures Newest(Remember(voted, VoteKey(key.0, key.1), VOTED_CAPACITY), Keys(heard + [key]), VOTED_CAPACITY)
    ensures Spaced(heard + [key], VOTED_CAPACITY)
  {
    var n := |heard|;
    assert forall i :: n - |voted| <= i < n ==> Keys(heard)[i] == voted[i - (n - |voted|)];
    assert forall i :: n - |voted| <= i < n ==> heard[i] != key;
    NewestGrows(voted, Keys(heard), VoteKey(key.0, key.1));
    assert Keys(heard + [key]) == Keys(heard) + [VoteKey(key.0, key.1)];
  }

  lemma NewestGrows(voted: seq<Bytes>, keys: seq<Bytes>, key: Bytes)
    requires Newest(voted, keys, VOTED_CAPACITY)
    ensures Newest(Remember(voted, key, VOTED_CAPACITY), keys + [key], VOTED_CAPACITY)
  {
  }

  lemma HeardGrows(self: Bytes, heard: seq<(nat, Bytes)>, key: (nat, Bytes), height: nat, votes: seq<Vote>, marks: seq<nat>)
    requires Sound(self, heard, height, votes, marks)
    ensures Sound(self, heard + [key], height, votes, marks)
  {
  }

  lemma VoteGrows(self: Bytes, heard: seq<(nat, Bytes)>, c: Collector, marks: seq<nat>, vote: Vote, mark: nat)
    requires Sound(self, heard, c.latestHeight, c.votes, marks) && SameHead(c, vote)
    requires SoundMark(self, heard, c.latestHeight, vote, mark)
    requires forall i :: 0 <= i < |marks| ==> marks[i] < mark
    ensures Sound(self, heard, c.latestHeight, c.votes + [vote], marks + [mark])
  {
  }

  lemma NotedKeeps(self: Bytes, t: Trace, vote: Vote, mark: nat, s: Services)
    requires t.p.collector.Some? && Records(t) && Tallies(self, t)
    requires SoundMark(self, t.heard, t.p.collector.value.latestHeight, vote, mark)
    requires forall i :: 0 <= i < |t.marks| ==> t.marks[i] < mark
    ensures Records(Noted(t, t.p, vote, mark, s)) && Tallies(self, Noted(t, t.p, vote, mark, s))
  {
    var c := t.p.collector.value;
    if SameHead(c, vote) {
      VoteGrows(self, t.heard, c, t.marks, vote, mark);
    }
    if Commits(t.p, vote, s) && vote.stateVersion !in t.p.committed {
      RememberKeepsSpacing(t.p.committed, t.commits, vote.stateVersion, COMMIT_CAPACITY);
    }
  }

  lemma RecordKeeps(self: Bytes, t: Trace, vote: Vote)
    requires Records(t) && Tallies(self, t) && t.p.collector.Some?
    requires VoteKey(vote.stateVersion, vote.voter) !in t.p.voted
    ensures var r := t.(p := Record(t.p, vote), heard := t.heard + [(vote.stateVersion, vote.voter)]);
            Records(r) && Tallies(self, r)
  {
    var key, c := (vote.stateVersion, vote.voter), t.p.collector.value;
    HeardKeepsSpacing(t.p.voted, t.heard, key);
    HeardGrows(self, t.heard, key, c.latestHeight, c.votes, t.marks);
    forall a | a in t.attempts
      ensures SoundAttempt(self, t.heard + [key], a)
    {
      HeardGrows(self, t.heard, key, a.height, a.votes, a.marks);
    }
  }

  lemma VoteKeeps(self: Bytes, t: Trace, vote: Vote, verified: bool, s: Services)
    requires Records(t) && Tallies(self, t) && t.p.collector.Some?
    requires VoteKey(vote.stateVersion, vote.voter) !in t.p.voted
    ensures Records(AfterVote(t, vote, verified, s)) && Tallies(self, AfterVote(t, vote, verified, s))
  {
    RecordKeeps(self, t, vote);
    if Counted(t.p.collector.value, vote, verified) {
      var r := t.(p := Record(t.p, vote), heard := t.heard + [(vote.stateVersion, vote.voter)]);
      MarksAreHeard(self, t);
      NotedKeeps(self, r, vote, |r.heard|, s);
    }
  }

  lemma MarksAreHeard(self: Bytes, t: Trace)
    requires Tallies(self, t) && t.p.collector.Some?
    ensures forall i :: 0 <= i < |t.marks| ==> t.marks[i] <= |t.heard|
  {
  }

  lemma NextKeeps(self: Bytes, t: Trace, step: Step)
    requires Records(t) && Tallies(self, t) && OwnStep(self, step)
    ensures Records(Next(t, step)) && Tallies(self, Next(t, step))
  {
    match step
    case NewProposal(height, threshold, own, s) =>
      if own.Some? {
        NotedKeeps(self, t.(p := Propose(t.p, height, threshold, None, s), marks := []), own.value, 0, s);
      }
    case VoteArrives(selected, vote, verified, s) =>
      if Heard(t.p, selected, vote) && t.p.collector.Some? {
        VoteKeeps(self, t, vote, verified, s);
      }
    case CommitArrives(version) =>
      if version !in t.p.committed {
        RememberKeepsSpacing(t.p.committed, t.commits, version, COMMIT_CAPACITY);
      }
  }

  lemma {:induction false} RunKeeps(self: Bytes, steps: seq<Step>)
    requires OwnSteps(self, steps)
    ensures Records(Run(steps)) && Tallies(self, Run(steps))
  {
    if steps != [] {
      RunKeeps(self, steps[..|steps| - 1]);
      NextKeeps(self, Run(steps[..|steps| - 1]), steps[|steps| - 1]);
    }
  }

  lemma SpacedVoters(self: Bytes, heard: seq<(nat, Bytes)>, a: Attempt, i: nat, j: nat)
    requires SoundAttempt(self, heard, a) && Spaced(heard, VOTED_CAPACITY)
    requires i < j < |a.votes| && a.marks[i] > 0 && a.votes[i].voter == a.votes[j].voter
    ensures a.marks[j] - a.marks[i] > VOTED_CAPACITY
  {
  }

  lemma SoundVote(self: Bytes, heard: seq<(nat, Bytes)>, a: Attempt, i: nat)
    requires SoundAttempt(self, heard, a) && i < |a.votes|
    ensures |a.marks| == |a.votes| >= a.threshold
    ensures a.votes[i].blockHead == a.votes[0].blockHead
    ensures if a.marks[i] == 0 then i == 0 && a.votes[i].voter == self
            else a.votes[i].stateVersion == (a.height + 1) % TWO_64
  {
  }

  /** On every run a group signature is tried only over at least the threshold
      of votes, all for one block head; at most the first is the node's own, and
      all others are for the next height. */
  lemma {:induction false} AttemptsAreSound(self: Bytes, steps: seq<Step>, a: Attempt, i: nat)
    requires OwnSteps(self, steps) && a in Run(steps).attempts && i < |a.votes|
    ensures |a.marks| == |a.votes| >= a.threshold
    ensures a.votes[i].blockHead == a.votes[0].blockHead
    ensures if a.marks[i] == 0 then i == 0 && a.votes[i].voter == self
            else a.votes[i].stateVersion == (a.height + 1) % TWO_64
  {
    RunKeeps(self, steps);
    SoundVote(self, Run(steps).heard, a, i);
  }

  /** Two votes of one voter from the network are counted together only if more
      voters were recorded between them than the record holds. */
  lemma {:induction false} RepeatsAreSpaced(self: Bytes, steps: seq<Step>, a: Attempt, i: nat, j: nat)
    requires OwnSteps(self, steps) && a in Run(steps).attempts
    requires i < j < |a.votes| && i < |a.marks| && a.marks[i] > 0 && a.votes[i].voter == a.votes[j].voter
    ensures j < |a.marks| && a.marks[j] - a.marks[i] > VOTED_CAPACITY
  {
    RunKeeps(self, steps);
    SpacedVoters(self, Run(steps).heard, a, i, j);
  }

  /** One state version is committed again only after more commits than the
      record holds. */
  lemma {:induction false} CommitsAreSpaced(self: Bytes, steps: seq<Step>, i: nat, j: nat)
    requires OwnSteps(self, steps) && i < j < |Run(steps).commits|
    requires Run(steps).commits[i] == Run(steps).commits[j]
    ensures j - i > COMMIT_CAPACITY
  {
    RunKeeps(self, steps);
  }

  // ------------------------------------------------------------------ the quorum

  function Voters(votes: seq<Vote>): set<Bytes> {
    set v | v in votes :: v.voter
  }

  /** The threshold the key exchange sets up for `n` participants. */
  function Threshold(n: nat): nat {
    2 * n / 3 + 1
  }

  lemma {:induction false} DistinctVoters(votes: seq<Vote>)
    requires forall i, j :: 0 <= i < j < |votes| ==> votes[i].voter != votes[j].voter
    ensures |Voters(votes)| == |votes|
  {
    if votes != [] {
      var rest, last := votes[..|votes| - 1], votes[|votes| - 1];
      DistinctVoters(rest);
      assert votes == rest + [last];
      assert Voters(votes) == Voters(rest) + {last.voter};
      assert last.voter !in Voters(rest);
    }
  }

  /** The node's own vote is counted and so is one that arrived in its name. */
  ghost predicate OwnTwice(self: Bytes, a: Attempt) {
    |a.votes| > 0 && |a.marks| > 0 && a.marks[0] == 0 && self in Voters(a.votes[1..])
  }

  /** No two votes of the attempt have more records between them than the record holds. */
  ghost predicate Close(a: Attempt) {
    forall i, j :: 0 <= i < j < |a.marks| && a.marks[i] > 0 ==> a.marks[j] - a.marks[i] <= VOTED_CAPACITY
  }

  lemma NetworkVotersDiffer(self: Bytes, heard: seq<(nat, Bytes)>, a: Attempt)
    requires SoundAttempt(self, heard, a) && Spaced(heard, VOTED_CAPACITY) && Close(a)
    ensures forall i, j :: 0 <= i < j < |a.votes| && a.marks[i] > 0 ==> a.votes[i].voter != a.votes[j].voter
    ensures forall j :: 0 < j < |a.marks| ==> a.marks[j] > 0
  {
  }

  lemma VotersCounted(self: Bytes, heard: seq<(nat, Bytes)>, a: Attempt)
    requires SoundAttempt(self, heard, a) && Spaced(heard, VOTED_CAPACITY) && Close(a)
    ensures |Voters(a.votes)| == if OwnTwice(self, a) then |a.votes| - 1 else |a.votes|
  {
    NetworkVotersDiffer(self, heard, a);
    SoundVote(self, heard, a, 0);
    var first, rest := a.votes[0], a.votes[1..];
    DistinctVoters(rest);
    VotersOfFirst(a.votes);
    if a.marks[0] > 0 {
      assert first.voter !in Voters(rest);
    }
  }

  lemma VotersOfFirst(votes: seq<Vote>)
    requires votes != []
    ensures Voters(votes) == Voters(votes[1..]) + {votes[0].voter}
    ensures |Voters(votes)| == |Voters(votes[1..])| + if votes[0].voter in Voters(votes[1..]) then 0 else 1
  {
    var rest := Voters(votes[1..]);
    assert votes == [votes[0]] + votes[1..];
    assert Voters(votes) == rest + {votes[0].voter};
    if votes[0].voter in rest {
      assert rest + {votes[0].voter} == rest;
    }
  }

  /** An attempt over votes recorded close together counts each voter once, but for the node's own
      vote when one in its name arrives too: at least the threshold of voters, exactly when that
      does not happen at the threshold. */
  lemma {:induction false} AttemptVoters(self: Bytes, steps: seq<Step>, a: Attempt)
    requires OwnSteps(self, steps) && a in Run(steps).attempts && Close(a)
    ensures |Voters(a.votes)| >= a.threshold <==> !(OwnTwice(self, a) && |a.votes| == a.threshold)
    ensures |Voters(a.votes)| + 1 >= a.threshold
  {
    RunKeeps(self, steps);
    VotersCounted(self, Run(steps).heard, a);
  }

  /** The own vote and one arriving in the node's name reach a threshold of two
      with a single voter. */
  lemma OwnVoteCountsTwice(s: Services)
    ensures var self: Bytes := [7];
            var own := Vote(1, self, [], []);
            var r := Run([NewProposal(0, 2, Some(own), s), VoteArrives(true, own, true, s)]);
            && |r.attempts| == 1 && OwnTwice(self, r.attempts[0])
            && |r.attempts[0].votes| == r.attempts[0].threshold == 2
            && Voters(r.attempts[0].votes) == {self}
  {
    var own := Vote(1, [7], [], []);
    var first, second := NewProposal(0, 2, Some(own), s), VoteArrives(true, own, true, s);
    var steps := [first, second];
    assert steps[..1] == [first] && [first][..0] == [];
    assert Run([first]) == Next(Start(), first);
    assert Run(steps) == Next(Run([first]), second);
    assert Run(steps).attempts[0].votes == [own, own];
  }

  lemma {:induction false} SubsetIsSmaller<T>(a: set<T>, b: set<T>)
    requires a <= b
    ensures |a| <= |b|
  {
    if a != {} {
      var x :| x in a;
      SubsetIsSmaller(a - {x}, b - {x});
    }
  }

  /** Two quorums fit in the membership and share more than a third of it. */
  lemma QuorumsMeet<T>(members: set<T>, a: set<T>, b: set<T>)
    requires a <= members && b <= members
    requires |a| >= Threshold(|members|) && |b| >= Threshold(|members|)
    ensures 3 * |a * b| > |members|
  {
    SubsetIsSmaller(a + b, members);
    assert |a + b| == |a| + |b| - |a * b|;
  }

  /** The members numbered `lo` to `hi - 1`. */
  function Range(lo: nat, hi: nat): (s: set<nat>)
    requires lo <= hi
    ensures forall x :: x in s <==> lo <= x < hi
    ensures |s| == hi - lo
    decreases hi
  {
    if lo == hi then {} else Range(lo, hi - 1) + {hi - 1}
  }

  /** The threshold is reachable, and below it two quorums may share no more
      than a third of the members. */
  lemma {:induction false} ThresholdIsLeast(n: nat, t: nat)
    requires 1 <= n && t < Threshold(n)
    ensures Threshold(n) <= n
    ensures exists a: set<nat>, b: set<nat> ::
              a <= Range(0, n) && b <= Range(0, n) && |a| >= t && |b| >= t && 3 * |a * b| <= n
  {
    var a, b := Range(0, t), Range(n - t, n);
    var lo := if t < n - t then t else n - t;
    assert a * b == Range(lo, t);
    assert a <= Range(0, n) && b <= Range(0, n);
  }

  /** The attempt is at its threshold only because the node's own vote counts twice. */
  ghost predicate ShortByOwn(self: Bytes, a: Attempt) {
    OwnTwice(self, a) && |a.votes| == a.threshold
  }

  /** Any two attempts, by the same proposer or by different ones, over votes recorded close together
      and not short by their proposer's own vote, are over voters of whom more than a third of the
      membership is common. */
  lemma {:induction false} AttemptsMeet(members: set<Bytes>, self: Bytes, steps: seq<Step>, a: Attempt,
                                        other: Bytes, otherSteps: seq<Step>, b: Attempt)
    requires OwnSteps(self, steps) && a in Run(steps).attempts && Close(a) && !ShortByOwn(self, a)
    requires OwnSteps(other, otherSteps) && b in Run(otherSteps).attempts && Close(b) && !ShortByOwn(other, b)
    requires Voters(a.votes) <= members && Voters(b.votes) <= members
    requires a.threshold == b.threshold == Threshold(|members|)
    ensures 3 * |Voters(a.votes) * Voters(b.votes)| > |members|
  {
    AttemptVoters(self, steps, a);
    AttemptVoters(other, otherSteps, b);
    QuorumsMeet(members, Voters(a.votes), Voters(b.votes));
  }

  // ----------------------------------------------------- a voter counted again

  /** A vote that is recorded and refused: it is not for height 1. */
  function Stray(i: nat): Vote {
    Vote(2 + i, [], [], [])
  }

  const AGAIN: Vote := Vote(1, [9], [], [])

  /** A proposal, one counted vote, and `k` refused ones. */
  function Crowd(s: Services, k: nat): seq<Step> {
    if k == 0 then [NewProposal(0, 2, None, s)] + [VoteArrives(true, AGAIN, true, s)]
    else Crowd(s, k - 1) + [VoteArrives(true, Stray(k - 1), true, s)]
  }

  function Strays(k: nat): (r: seq<(nat, Bytes)>)
    ensures |r| == k && forall i :: 0 <= i < k ==> r[i] == (2 + i, [])
  {
    seq(k, i requires 0 <= i < k => (2 + i, []))
  }

  ghost predicate Crowded(t: Trace, k: nat) {
    && t.p.collector == Some(Collector(0, 2, [AGAIN])) && t.p.committed == [] && t.marks == [1] && t.attempts == []
    && t.heard == [(1, AGAIN.voter)] + Strays(k)
  }

  /** The voter is among the last ones recorded for the version. */
  ghost predicate Recent(heard: seq<(nat, Bytes)>, version: nat, voter: Bytes) {
    exists j :: 0 <= j < |heard| && |heard| - VOTED_CAPACITY <= j && heard[j] == (version, voter)
  }

  lemma RecordHolds(voted: seq<Bytes>, heard: seq<(nat, Bytes)>, j: nat)
    requires Newest(voted, Keys(heard), VOTED_CAPACITY) && j < |voted|
    ensures |voted| <= |heard| && |heard| - |voted| + j >= |heard| - VOTED_CAPACITY
    ensures var h := heard[|heard| - |voted| + j]; voted[j] == VoteKey(h.0, h.1)
  {
  }

  lemma KeyIsRecent(voted: seq<Bytes>, heard: seq<(nat, Bytes)>, version: nat, voter: Bytes)
    requires Newest(voted, Keys(heard), VOTED_CAPACITY)
    ensures VoteKey(version, voter) in voted <==> Recent(heard, version, voter)
  {
    if VoteKey(version, voter) in voted {
      var j :| 0 <= j < |voted| && voted[j] == VoteKey(version, voter);
      RecordHolds(voted, heard, j);
      var h := heard[|heard| - |voted| + j];
      VoteKeyInjective(h.0, h.1, version, voter);
    }
    if Recent(heard, version, voter) {
      var j :| 0 <= j < |heard| && |heard| - VOTED_CAPACITY <= j && heard[j] == (version, voter);
      RecordHolds(voted, heard, j - (|heard| - |voted|));
    }
  }

  /** On every run a vote is taken for known if and only if the same voter is among the last 200
      recorded, for the same version. */
  lemma {:induction false} KnownVotes(self: Bytes, steps: seq<Step>, vote: Vote)
    requires OwnSteps(self, steps)
    ensures var t := Run(steps);
            VoteKey(vote.stateVersion, vote.voter) in t.p.voted <==> Recent(t.heard, vote.stateVersion, vote.voter)
  {
    RunKeeps(self, steps);
    KeyIsRecent(Run(steps).p.voted, Run(steps).heard, vote.stateVersion, vote.voter);
  }

  lemma {:induction false} RunMore(steps: seq<Step>, step: Step)
    ensures Run(steps + [step]) == Next(Run(steps), step)
  {
    assert (steps + [step])[..|steps|] == steps;
  }

  /** The first vote of the crowd is counted and not enough. */
  lemma FirstIsCounted(t: Trace, s: Services)
    requires t == Trace(Proposer(Some(Collector(0, 2, [])), [], []), [], [], [], [])
    ensures Crowded(Next(t, VoteArrives(true, AGAIN, true, s)), 0)
  {
    var c := t.p.collector.value;
    assert Heard(t.p, true, AGAIN) && Counted(c, AGAIN, true);
    assert Tally(c, AGAIN).votes == [AGAIN] && !Attempts(c, AGAIN);
    assert [(1, AGAIN.voter)] + Strays(0) == [(1, AGAIN.voter)];
  }

  lemma {:induction false} CrowdStarts(s: Services)
    ensures Crowded(Run(Crowd(s, 0)), 0)
  {
    var propose, vote := NewProposal(0, 2, None, s), VoteArrives(true, AGAIN, true, s);
    assert Run([]) == Start() && [] + [propose] == [propose];
    RunMore([], propose);
    RunMore([propose], vote);
    FirstIsCounted(Next(Start(), propose), s);
  }

  lemma StrayIsRefused(t: Trace, k: nat, s: Services)
    requires Crowded(t, k) && Newest(t.p.voted, Keys(t.heard), VOTED_CAPACITY)
    ensures Crowded(Next(t, VoteArrives(true, Stray(k), true, s)), k + 1)
  {
    var vote := Stray(k);
    KeyIsRecent(t.p.voted, t.heard, vote.stateVersion, vote.voter);
    assert Heard(t.p, true, vote);
    assert t.heard + [(2 + k, [])] == [(1, AGAIN.voter)] + Strays(k + 1);
  }

  lemma {:induction false} CrowdGrows(s: Services, k: nat)
    ensures Crowded(Run(Crowd(s, k)), k) && OwnSteps([], Crowd(s, k))
  {
    if k == 0 {
      CrowdStarts(s);
    } else {
      CrowdGrows(s, k - 1);
      RunKeeps([], Crowd(s, k - 1));
      RunMore(Crowd(s, k - 1), VoteArrives(true, Stray(k - 1), true, s));
      StrayIsRefused(Run(Crowd(s, k - 1)), k - 1, s);
    }
  }

  /** After as many refused votes as the record holds, a voter is counted a second time. */
  lemma {:induction false} ForgottenVoterCountsAgain(s: Services)
    ensures var r := Run(Crowd(s, VOTED_CAPACITY) + [VoteArrives(true, AGAIN, true, s)]);
            && |r.attempts| == 1 && !Close(r.attempts[0])
            && r.attempts[0].votes == [AGAIN, AGAIN] && r.attempts[0].threshold == 2
  {
    var crowd := Crowd(s, VOTED_CAPACITY);
    CrowdGrows(s, VOTED_CAPACITY);
    RunKeeps([], crowd);
    RunMore(crowd, VoteArrives(true, AGAIN, true, s));
    CountedAgain(Run(crowd), s);
    FarApart(Attempt(0, 2, [AGAIN, AGAIN], [1, 202]));
  }

  lemma FarApart(a: Attempt)
    requires a.marks == [1, 202]
    ensures !Close(a)
  {
    assert a.marks[1] - a.marks[0] > VOTED_CAPACITY;
  }

  /** The record holds the refused voters and no longer the first. */
  lemma {:induction false} FirstIsForgotten(t: Trace)
    requires Crowded(t, VOTED_CAPACITY) && Newest(t.p.voted, Keys(t.heard), VOTED_CAPACITY)
    ensures |t.heard| == 201 && Heard(t.p, true, AGAIN)
  {
    KeyIsRecent(t.p.voted, t.heard, 1, AGAIN.voter);
    assert !Recent(t.heard, 1, AGAIN.voter);
  }

  lemma {:induction false} CountedAgain(t: Trace, s: Services)
    requires Crowded(t, VOTED_CAPACITY) && Newest(t.p.voted, Keys(t.heard), VOTED_CAPACITY)
    ensures Next(t, VoteArrives(true, AGAIN, true, s)).attempts == [Attempt(0, 2, [AGAIN, AGAIN], [1, 202])]
  {
    FirstIsForgotten(t);
    var c := t.p.collector.value;
    assert Counted(c, AGAIN, true) && Attempts(c, AGAIN) && Tally(c, AGAIN).votes == [AGAIN, AGAIN];
    assert t.marks + [202] == [1, 202];
  }

  // ------------------------------------------------------- a vote before proposing

  lemma NextCollector(t: Trace, step: Step)
    ensures Next(t, step).p.collector.None? <==> t.p.collector.None? && !step.NewProposal?
  {
  }

  lemma {:induction false} CollectorExists(steps: seq<Step>)
    ensures Run(steps).p.collector.None? <==> forall i :: 0 <= i < |steps| ==> !steps[i].NewProposal?
  {
    if steps != [] {
      var n := |steps| - 1;
      CollectorExists(steps[..n]);
      NextCollector(Run(steps[..n]), steps[n]);
      assert forall i :: 0 <= i < n ==> steps[..n][i] == steps[i];
    }
  }

  /** After any run, a vote brings the handler to dereference nil if and only if it passes the first
      guards and the node has never proposed. */
  lemma {:induction false} PanicsExactly(steps: seq<Step>, selected: bool, vote: Vote, verified: bool, s: Services)
    ensures Receive(Run(steps).p, selected, vote, verified, s) == None <==>
            Heard(Run(steps).p, selected, vote) && forall i :: 0 <= i < |steps| ==> !steps[i].NewProposal?
  {
    CollectorExists(steps);
  }

  /** The first thing a selected node hears may be a vote. */
  lemma EarlyVotePanics(vote: Vote, verified: bool, s: Services)
    ensures Receive(Run([]).p, true, vote, verified, s) == None
  {
  }
}
