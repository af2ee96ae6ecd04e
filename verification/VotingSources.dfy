/** Where counted votes come from: every vote of every attempt to recover a group signature is one that
    arrived, verified, at a selected node, or the node's own; and the recovery is given exactly their
    signatures. */
module VotingSources {
  import opened Bits
  import opened Voting

  // ------------------------------------------------------------- votes and steps

  /** The vote arrived while the node was selected, and its signature share verified. */
  ghost predicate Cast(steps: seq<Step>, vote: Vote) {
    exists k :: 0 <= k < |steps| && steps[k].VoteArrives? && steps[k].vote == vote && steps[k].selected && steps[k].verified
  }

  /** The vote is the node's own, made for a proposal. */
  ghost predicate Own(steps: seq<Step>, vote: Vote) {
    exists k :: 0 <= k < |steps| && steps[k].NewProposal? && steps[k].own == Some(vote)
  }

  ghost predicate SourcedVotes(steps: seq<Step>, votes: seq<Vote>, marks: seq<nat>) {
    && |votes| == |marks|
    && forall i :: 0 <= i < |votes| ==> if marks[i] > 0 then Cast(steps, votes[i]) else Own(steps, votes[i])
  }

  ghost predicate Sourced(steps: seq<Step>, t: Trace) {
    && (t.p.collector.Some? ==> SourcedVotes(steps, t.p.collector.value.votes, t.marks))
    && (forall a :: a in t.attempts ==> SourcedVotes(steps, a.votes, a.marks))
  }

  lemma MoreSteps(steps: seq<Step>, step: Step, votes: seq<Vote>, marks: seq<nat>)
    requires SourcedVotes(steps, votes, marks)
    ensures SourcedVotes(steps + [step], votes, marks)
  {
    var all := steps + [step];
    forall i | 0 <= i < |votes|
      ensures if marks[i] > 0 then Cast(all, votes[i]) else Own(all, votes[i])
    {
      if marks[i] > 0 {
        var k :| 0 <= k < |steps| && steps[k].VoteArrives? && steps[k].vote == votes[i] && steps[k].selected && steps[k].verified;
        assert all[k] == steps[k];
      } else {
        var k :| 0 <= k < |steps| && steps[k].NewProposal? && steps[k].own == Some(votes[i]);
        assert all[k] == steps[k];
      }
    }
  }

  lemma SourcedMore(steps: seq<Step>, step: Step, t: Trace)
    requires Sourced(steps, t)
    ensures Sourced(steps + [step], t)
  {
    if t.p.collector.Some? {
      MoreSteps(steps, step, t.p.collector.value.votes, t.marks);
    }
    forall a | a in t.attempts
      ensures SourcedVotes(steps + [step], a.votes, a.marks)
    {
      MoreSteps(steps, step, a.votes, a.marks);
    }
  }

  lemma NotedSourced(steps: seq<Step>, t: Trace, vote: Vote, mark: nat, s: Services)
    requires Sourced(steps, t) && t.p.collector.Some? && (if mark > 0 then Cast(steps, vote) else Own(steps, vote))
    ensures Sourced(steps, Noted(t, t.p, vote, mark, s))
  {
    var c := t.p.collector.value;
    if SameHead(c, vote) {
      assert SourcedVotes(steps, c.votes + [vote], t.marks + [mark]);
    }
  }

  lemma NextSourced(steps: seq<Step>, t: Trace, step: Step)
    requires Sourced(steps, t)
    ensures Sourced(steps + [step], Next(t, step))
  {
    var all := steps + [step];
    assert all[|steps|] == step;
    SourcedMore(steps, step, t);
    match step
    case NewProposal(height, threshold, own, s) =>
      var r := t.(p := Propose(t.p, height, threshold, None, s), marks := []);
      assert Sourced(all, r);
      if own.Some? {
        assert Own(all, own.value);
        NotedSourced(all, r, own.value, 0, s);
      }
    case VoteArrives(selected, vote, verified, s) =>
      if Heard(t.p, selected, vote) && t.p.collector.Some? && Counted(t.p.collector.value, vote, verified) {
        var r := t.(p := Record(t.p, vote), heard := t.heard + [(vote.stateVersion, vote.voter)]);
        assert Cast(all, vote);
        NotedSourced(all, r, vote, |r.heard|, s);
      }
    case CommitArrives(version) =>
  }

  lemma {:induction false} SourcedLast(steps: seq<Step>, t: Trace, step: Step)
    requires t == Run(steps) && Sourced(steps, t)
    ensures Sourced(steps + [step], Run(steps + [step]))
  {
    RunMore(steps, step);
    NextSourced(steps, t, step);
  }

  lemma {:induction false} RunSourced(steps: seq<Step>)
    ensures Sourced(steps, Run(steps))
    decreases |steps|
  {
    if steps != [] {
      var rest, last := steps[..|steps| - 1], steps[|steps| - 1];
      assert rest + [last] == steps;
      RunSourced(rest);
      SourcedLast(rest, Run(rest), last);
    } else {
      assert Run(steps) == Start();
    }
  }

  /** On every run, every vote of every attempt arrived, verified, at a selected node, or is the node's
      own. */
  lemma {:induction false} AttemptsAreVerified(steps: seq<Step>, a: Attempt, i: nat)
    requires a in Run(steps).attempts && i < |a.votes|
    ensures |a.marks| == |a.votes| && if a.marks[i] > 0 then Cast(steps, a.votes[i]) else Own(steps, a.votes[i])
  {
    RunSourced(steps);
  }

  // ------------------------------------------------------------ the recovery's arguments

  /** `sigs` are the signatures of `votes`, in order. */
  ghost predicate AreSignatures(sigs: seq<Bytes>, votes: seq<Vote>) {
    |sigs| == |votes| && forall i :: 0 <= i < |votes| ==> sigs[i] == votes[i].signature
  }

  /** The recovery is asked exactly when the vote agrees with the others and makes the threshold, about
      their common head and with all their signatures. */
  lemma RecoveryIsAsked(c: Collector, vote: Vote, recover: (Bytes, seq<Bytes>) -> Recovery, sigs: seq<Bytes>)
    requires AreSignatures(sigs, c.votes + [vote])
    ensures Recover(c, vote, recover) ==
            if (c.votes == [] || c.votes[0].blockHead == vote.blockHead) && |c.votes| + 1 >= c.threshold
            then recover(vote.blockHead, sigs) else Nothing
  {
    if Attempts(c, vote) {
      assert Signatures(c.votes + [vote]) == sigs;
    }
  }

  /** The attempt that the history notes is the one the recovery is asked about. */
  lemma NotedIsAsked(t: Trace, vote: Vote, mark: nat, s: Services, sigs: seq<Bytes>)
    requires t.p.collector.Some? && Noted(t, t.p, vote, mark, s).attempts != t.attempts
    ensures var noted := Noted(t, t.p, vote, mark, s).attempts;
            && |noted| == |t.attempts| + 1
            && var a := noted[|t.attempts|];
               a.votes != [] && (AreSignatures(sigs, a.votes) ==>
                 Recover(t.p.collector.value, vote, s.recover) == s.recover(a.votes[0].blockHead, sigs))
  {
    var c := t.p.collector.value;
    if AreSignatures(sigs, c.votes + [vote]) {
      RecoveryIsAsked(c, vote, s.recover, sigs);
    }
  }

  // ------------------------------------------------------------ one vote, exactly

  /** What a vote does, guard by guard: nothing, if the node is not selected, the version is committed or
      the voter known; only a record of the voter, if it is for another height or does not verify;
      otherwise it joins the votes for its head, and all votes go once a commit is finished. */
  lemma ReceiveExactly(p: Proposer, selected: bool, vote: Vote, verified: bool, s: Services, sigs: seq<Bytes>)
    requires p.collector.Some? && AreSignatures(sigs, p.collector.value.votes + [vote])
    ensures Receive(p, selected, vote, verified, s).Some?
    ensures var p', c := Receive(p, selected, vote, verified, s).value, p.collector.value;
            var known := VoteKey(vote.stateVersion, vote.voter) in p.voted;
            var fits := c.votes == [] || c.votes[0].blockHead == vote.blockHead;
            var done := fits && |c.votes| + 1 >= c.threshold && s.recover(vote.blockHead, sigs).Recovered? && s.produced;
            if !selected || vote.stateVersion in p.committed || known then p' == p
            else
              && p'.voted == Remember(p.voted, VoteKey(vote.stateVersion, vote.voter), 200)
              && p'.collector.Some? && p'.collector.value.latestHeight == c.latestHeight
              && p'.collector.value.threshold == c.threshold
              && if vote.stateVersion != (c.latestHeight + 1) % TWO_64 || !verified
                 then p'.collector == p.collector && p'.committed == p.committed
                 else
                   && p'.committed == (if done then Remember(p.committed, vote.stateVersion, 5) else p.committed)
                   && p'.collector.value.votes ==
                      if done && s.delivered then [] else if fits then c.votes + [vote] else c.votes
  {
    RecoveryIsAsked(p.collector.value, vote, s.recover, sigs);
  }
}
