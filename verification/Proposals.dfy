/** Choosing among proposals: the priority a proposer draws from its VRF proof,
    the best proposal a validator caches, and the fork choice between heads. */
module Proposals {
  import opened Bits

  // ------------------------------------------------------------- orders on bytes

  /** The sign of the lexicographic comparison. */
  function Compare(a: Bytes, b: Bytes): int {
    if a == [] then (if b == [] then 0 else -1)
    else if b == [] then 1
    else if a[0] != b[0] then (if a[0] < b[0] then -1 else 1)
    else Compare(a[1..], b[1..])
  }

  /** The non-negative integer whose big-endian bytes are `b`. */
  function BigEndian(b: Bytes): nat {
    if b == [] then 0 else 256 * BigEndian(b[..|b| - 1]) + b[|b| - 1]
  }

  /** The low `width` bytes of `v`, most significant first. */
  function BigEndianBytes(v: nat, width: nat): (b: Bytes)
    ensures |b| == width
  {
    if width == 0 then [] else BigEndianBytes(v / 256, width - 1) + [v % 256]
  }

  lemma {:induction false} BigEndianInverts(v: nat, width: nat)
    requires v < Pow2(8 * width)
    ensures BigEndian(BigEndianBytes(v, width)) == v
  {
    if width != 0 {
      Pow2Add(8, 8 * (width - 1));
      assert Pow2(8) == 256;
      BigEndianInverts(v / 256, width - 1);
      assert BigEndianBytes(v, width)[..width - 1] == BigEndianBytes(v / 256, width - 1);
    }
  }

  lemma {:induction false} CompareLast(a: Bytes, b: Bytes, x: Byte, y: Byte)
    requires |a| == |b|
    ensures Compare(a + [x], b + [y]) ==
            if Compare(a, b) != 0 then Compare(a, b) else if x < y then -1 else if x > y then 1 else 0
  {
    if a != [] {
      assert (a + [x])[1..] == a[1..] + [x] && (b + [y])[1..] == b[1..] + [y];
      CompareLast(a[1..], b[1..], x, y);
    }
  }

  /** On byte strings of one length the lexicographic order is the order of the integers. */
  lemma {:induction false} CompareIsIntegerOrder(a: Bytes, b: Bytes)
    requires |a| == |b|
    ensures Compare(a, b) < 0 <==> BigEndian(a) < BigEndian(b)
    ensures Compare(a, b) > 0 <==> BigEndian(a) > BigEndian(b)
    ensures Compare(a, b) == 0 <==> a == b
  {
    if a != [] {
      var p, q, x, y := a[..|a| - 1], b[..|b| - 1], a[|a| - 1], b[|b| - 1];
      assert a == p + [x] && b == q + [y];
      CompareIsIntegerOrder(p, q);
      CompareLast(p, q, x, y);
    }
  }

  // --------------------------------------------------------------- the priority

  const DIGEST_SIZE: nat := 32

  ghost predicate Hash(sha: Bytes -> Bytes) {
    forall data :: |sha(data)| == DIGEST_SIZE
  }

  /** The digest drawn for the `i`-th win. */
  function Draw(sha: Bytes -> Bytes, vrf: Bytes, i: nat): Bytes {
    sha(vrf + BigEndianBytes(i, 8))
  }

  /** What is hashed is the proof followed by the win's number in eight bytes, so no two wins hash the same. */
  lemma {:induction false} DrawsDiffer(sha: Bytes -> Bytes, vrf: Bytes, i: nat)
    requires i < TWO_64
    ensures exists c: Bytes :: |c| == 8 && BigEndian(c) == i && Draw(sha, vrf, i) == sha(vrf + c)
  {
    Pow2Literals();
    BigEndianInverts(i, 8);
  }

  /** `r` is the greatest digest of the first `winCount` wins; there is none without a win. */
  ghost predicate IsMaxPriority(sha: Bytes -> Bytes, vrf: Bytes, winCount: int, r: Bytes) {
    if winCount < 1 then r == []
    else
      && (exists i :: 1 <= i <= winCount && r == Draw(sha, vrf, i))
      && (forall i :: 1 <= i <= winCount ==> BigEndian(Draw(sha, vrf, i)) <= BigEndian(r))
  }

  lemma {:induction false} PriorityStep(sha: Bytes -> Bytes, vrf: Bytes, i: nat, best: Bytes)
    requires Hash(sha) && i >= 1 && IsMaxPriority(sha, vrf, i - 1, best)
    ensures IsMaxPriority(sha, vrf, i, if Compare(Draw(sha, vrf, i), best) > 0 then Draw(sha, vrf, i) else best)
  {
    var prior := Draw(sha, vrf, i);
    if i > 1 {
      CompareIsIntegerOrder(prior, best);
    } else {
      assert Compare(prior, best) > 0;
    }
  }

  /** The win count stays below the largest 64-bit value, at which the counter
      would wrap around; sortition caps it far lower. */
  method MaxPriority(sha: Bytes -> Bytes, vrf: Bytes, winCount: int) returns (maxPrior: Bytes)
    requires Hash(sha) && winCount < TWO_63 - 1
    ensures IsMaxPriority(sha, vrf, winCount, maxPrior)
  {
    maxPrior := [];
    var i := 1;
    while i <= winCount
      invariant 1 <= i && (winCount >= 1 ==> i <= winCount + 1) && (winCount < 1 ==> i == 1)
      invariant IsMaxPriority(sha, vrf, i - 1, maxPrior)
    {
      var prior := Draw(sha, vrf, i);
      PriorityStep(sha, vrf, i, maxPrior);
      if Compare(prior, maxPrior) > 0 {
        maxPrior := prior;
      }
      i := i + 1;
    }
  }

  /** The priority is determined by the wins and never falls as they grow, in
      either order. */
  lemma {:induction false} PriorityGrows(sha: Bytes -> Bytes, vrf: Bytes, m: int, n: int, r: Bytes, s: Bytes)
    requires Hash(sha) && m <= n
    requires IsMaxPriority(sha, vrf, m, r) && IsMaxPriority(sha, vrf, n, s)
    ensures BigEndian(r) <= BigEndian(s) && Compare(r, s) <= 0
    ensures m == n ==> r == s
  {
    if m >= 1 {
      CompareIsIntegerOrder(r, s);
    }
  }

  // ------------------------------------------------------------ the cached best

  datatype Head = Head(height: nat, maxPri: Bytes)

  /** `head` is what the encoded block head decodes to, if it decodes. */
  datatype Proposal = Proposal(
    chainId: Bytes,
    round: nat,
    stateVersion: nat,
    proposer: Bytes,
    maxPri: Bytes,
    head: Option<Head>)

  predicate SameKey(a: Proposal, b: Proposal) {
    a.chainId == b.chainId && a.round == b.round && a.stateVersion == b.stateVersion
  }

  predicate Competes(cached: Option<Proposal>, msg: Proposal) {
    cached.Some? && SameKey(msg, cached.value)
  }

  predicate Accepts(cached: Option<Proposal>, valid: bool, maxPri: Bytes, proposer: Bytes, msg: Proposal) {
    valid && (Competes(cached, msg) ==>
                cached.value.proposer != proposer && BigEndian(cached.value.maxPri) < BigEndian(maxPri))
  }

  /** The node may propose: nothing cached for the next height is at least as good. */
  predicate LocalIsBest(cached: Option<Proposal>, maxPri: Bytes, chainId: Bytes, height: nat) {
    cached.Some? ==>
      && cached.value.head.Some?
      && (chainId == cached.value.chainId && cached.value.head.value.height == (height + 1) % TWO_64 ==>
            BigEndian(maxPri) > BigEndian(cached.value.head.value.maxPri))
  }

  class Validator {
    const nodeId: Bytes
    var propMsgCached: Option<Proposal>

    constructor (nodeId: Bytes)
      ensures this.nodeId == nodeId && propMsgCached == None
    {
      this.nodeId := nodeId;
      propMsgCached := None;
    }

    /** `valid` is the answer of validating the proposal's execution results. */
    method ValidateAndCollect(valid: bool, maxPri: Bytes, propProposer: Bytes, msg: Proposal)
      returns (ok: bool, canCollectStart: bool)
      modifies this
      ensures ok == Accepts(old(propMsgCached), valid, maxPri, propProposer, msg)
      ensures propMsgCached == if ok then Some(msg) else old(propMsgCached)
      ensures canCollectStart == (ok && (Competes(old(propMsgCached), msg) ==> msg.proposer == nodeId))
    {
      canCollectStart := false;
      if !valid {
        return false, canCollectStart;
      }
      if propMsgCached.Some? && msg.chainId == propMsgCached.value.chainId &&
         msg.round == propMsgCached.value.round && msg.stateVersion == propMsgCached.value.stateVersion {
        if propMsgCached.value.proposer == propProposer {
          return false, canCollectStart;
        }
        if BigEndian(propMsgCached.value.maxPri) < BigEndian(maxPri) {
          propMsgCached := Some(msg);
          if msg.proposer == nodeId {
            canCollectStart := true;
          }
        } else {
          return false, canCollectStart;
        }
      } else {
        propMsgCached := Some(msg);
        canCollectStart := true;
      }
      ok := true;
    }

    method JudgeLocalMaxPriBest(maxPri: Bytes, chainId: Bytes, height: nat) returns (best: bool)
      ensures best == LocalIsBest(propMsgCached, maxPri, chainId, height)
    {
      match propMsgCached {
        case None =>
        case Some(cached) =>
          if cached.head.None? {
            return false;
          }
          if chainId == cached.chainId && cached.head.value.height == (height + 1) % TWO_64 {
            if BigEndian(maxPri) <= BigEndian(cached.head.value.maxPri) {
              return false;
            }
          }
      }
      best := true;
    }
  }

  /** A node judges itself best exactly when its proposal would replace the
      cached one of another proposer, if heads repeat their proposal's priority. */
  lemma JudgeForeseesCollect(cached: Proposal, msg: Proposal, height: nat)
    requires SameKey(msg, cached) && cached.proposer != msg.proposer
    requires cached.head == Some(Head((height + 1) % TWO_64, cached.maxPri))
    ensures LocalIsBest(Some(cached), msg.maxPri, msg.chainId, height) <==>
            Accepts(Some(cached), true, msg.maxPri, msg.proposer, msg)
  {
  }

  /** Only a cached proposal of the node's chain for the next height, or one whose head does not decode,
      keeps the node from proposing. */
  lemma {:induction false} JudgeExactly(cached: Option<Proposal>, maxPri: Bytes, chainId: Bytes, height: nat)
    ensures LocalIsBest(cached, maxPri, chainId, height) <==>
            match cached
            case None => true
            case Some(c) =>
              match c.head
              case None => false
              case Some(h) =>
                c.chainId != chainId || h.height != (height + 1) % TWO_64 || BigEndian(h.maxPri) < BigEndian(maxPri)
  {
  }

  // ----------------------------------------------------------------- whole runs

  datatype Arrival = Arrival(valid: bool, msg: Proposal)

  /** Both callers hand over the message's own priority and proposer. */
  function Collect(cached: Option<Proposal>, a: Arrival): Option<Proposal> {
    if Accepts(cached, a.valid, a.msg.maxPri, a.msg.proposer, a.msg) then Some(a.msg) else cached
  }

  function Run(cached: Option<Proposal>, arrivals: seq<Arrival>): Option<Proposal> {
    if arrivals == [] then cached
    else Collect(Run(cached, arrivals[..|arrivals| - 1]), arrivals[|arrivals| - 1])
  }

  function Priority(a: Arrival): nat {
    BigEndian(a.msg.maxPri)
  }

  /** The valid arrival of greatest priority, the earliest among equals. */
  ghost predicate IsBest(arrivals: seq<Arrival>, k: int) {
    && 0 <= k < |arrivals| && arrivals[k].valid
    && (forall j :: 0 <= j < |arrivals| && arrivals[j].valid ==> Priority(arrivals[j]) <= Priority(arrivals[k]))
    && (forall j :: 0 <= j < k && arrivals[j].valid ==> Priority(arrivals[j]) < Priority(arrivals[k]))
  }

  /** Valid arrivals compete for one key, not yet cached. */
  ghost predicate OneKey(cached: Option<Proposal>, key: Proposal, arrivals: seq<Arrival>) {
    && !Competes(cached, key)
    && (forall i :: 0 <= i < |arrivals| && arrivals[i].valid ==> SameKey(arrivals[i].msg, key))
  }

  /** Arrival `n` is the cached proposer raising its own proposal. */
  ghost predicate Raises(cached: Option<Proposal>, arrivals: seq<Arrival>, n: nat)
    requires n < |arrivals|
  {
    var c, a := Run(cached, arrivals[..n]), arrivals[n];
    && a.valid && Competes(c, a.msg) && c.value.proposer == a.msg.proposer
    && BigEndian(c.value.maxPri) < Priority(a)
  }

  /** The cache holds the best of what arrived, or is left alone if nothing valid did. */
  ghost predicate HoldsBest(cached: Option<Proposal>, arrivals: seq<Arrival>) {
    if exists i :: 0 <= i < |arrivals| && arrivals[i].valid
    then exists k :: IsBest(arrivals, k) && Run(cached, arrivals) == Some(arrivals[k].msg)
    else Run(cached, arrivals) == cached
  }

  ghost predicate AlwaysHoldsBest(cached: Option<Proposal>, arrivals: seq<Arrival>) {
    forall n :: 0 <= n <= |arrivals| ==> HoldsBest(cached, arrivals[..n])
  }

  ghost predicate NeverRaises(cached: Option<Proposal>, arrivals: seq<Arrival>) {
    forall n :: 0 <= n < |arrivals| ==> !Raises(cached, arrivals, n)
  }

  lemma BestStep(arrivals: seq<Arrival>, a: Arrival, k: int)
    requires IsBest(arrivals, k)
    ensures a.valid && Priority(arrivals[k]) < Priority(a) ==> IsBest(arrivals + [a], |arrivals|)
    ensures !a.valid || Priority(a) <= Priority(arrivals[k]) ==> IsBest(arrivals + [a], k)
  {
  }

  lemma {:induction false} RunPrefix(cached: Option<Proposal>, arrivals: seq<Arrival>, n: nat)
    requires n < |arrivals|
    ensures Run(cached, arrivals[..n + 1]) == Collect(Run(cached, arrivals[..n]), arrivals[n])
  {
    assert arrivals[..n + 1][..n] == arrivals[..n];
  }

  lemma BestIsUnique(arrivals: seq<Arrival>, k: int, l: int)
    requires IsBest(arrivals, k) && IsBest(arrivals, l)
    ensures k == l
  {
  }

  /** The first valid arrival is the best so far. */
  lemma FirstIsBest(before: seq<Arrival>, a: Arrival)
    requires a.valid && forall i :: 0 <= i < |before| ==> !before[i].valid
    ensures IsBest(before + [a], |before|)
  {
  }

  /** One more arrival leaves the best in the cache exactly when it does not raise. */
  lemma {:induction false} HoldsBestAfter(cached: Option<Proposal>, key: Proposal, before: seq<Arrival>, a: Arrival, k: int)
    requires !Competes(cached, key) && SameKey(a.msg, key) && a.valid
    requires IsBest(before, k) && Run(cached, before) == Some(before[k].msg) && SameKey(before[k].msg, key)
    ensures var c := Collect(Some(before[k].msg), a);
            (exists l :: IsBest(before + [a], l) && c == Some((before + [a])[l].msg))
            <==> !(before[k].msg.proposer == a.msg.proposer && Priority(before[k]) < Priority(a))
  {
    var all := before + [a];
    BestStep(before, a, k);
    assert all[k] == before[k] && all[|before|] == a;
    if Priority(before[k]) < Priority(a) {
      assert forall l :: IsBest(all, l) ==> l == |before|;
    }
  }

  lemma {:induction false} HoldsBestAt(cached: Option<Proposal>, key: Proposal, arrivals: seq<Arrival>, n: nat)
    requires OneKey(cached, key, arrivals) && n < |arrivals| && HoldsBest(cached, arrivals[..n])
    ensures HoldsBest(cached, arrivals[..n + 1]) <==> !Raises(cached, arrivals, n)
  {
    var before, a := arrivals[..n], arrivals[n];
    RunPrefix(cached, arrivals, n);
    assert arrivals[..n + 1] == before + [a];
    if k :| IsBest(before, k) && Run(cached, before) == Some(before[k].msg) {
      assert before[k] == arrivals[k];
      assert (before + [a])[k].valid;
      if a.valid {
        HoldsBestAfter(cached, key, before, a, k);
      } else {
        BestStep(before, a, k);
        assert (before + [a])[k] == before[k];
      }
    } else if a.valid {
      FirstIsBest(before, a);
      assert (before + [a])[n] == a;
    }
  }

  lemma {:induction false} HoldsBestForward(cached: Option<Proposal>, key: Proposal, arrivals: seq<Arrival>, n: nat)
    requires OneKey(cached, key, arrivals) && n <= |arrivals| && NeverRaises(cached, arrivals)
    ensures HoldsBest(cached, arrivals[..n])
  {
    if n > 0 {
      HoldsBestForward(cached, key, arrivals, n - 1);
      HoldsBestAt(cached, key, arrivals, n - 1);
    }
  }

  /** Whatever arrives for one key, at every point the cache holds the valid proposal of greatest
      priority so far, the earliest among equals, if and only if the cached proposer never raises
      its own proposal. */
  lemma {:induction false} CachedIsBest(cached: Option<Proposal>, key: Proposal, arrivals: seq<Arrival>)
    requires OneKey(cached, key, arrivals)
    ensures AlwaysHoldsBest(cached, arrivals) <==> NeverRaises(cached, arrivals)
  {
    if NeverRaises(cached, arrivals) {
      forall n | 0 <= n <= |arrivals|
        ensures HoldsBest(cached, arrivals[..n])
      {
        HoldsBestForward(cached, key, arrivals, n);
      }
    }
    if AlwaysHoldsBest(cached, arrivals) {
      forall n | 0 <= n < |arrivals|
        ensures !Raises(cached, arrivals, n)
      {
        HoldsBestAt(cached, key, arrivals, n);
      }
    }
  }

  /** In particular when nobody proposes twice. */
  lemma {:induction false} OneProposalEach(cached: Option<Proposal>, key: Proposal, arrivals: seq<Arrival>)
    requires OneKey(cached, key, arrivals)
    requires forall i, j :: 0 <= i < j < |arrivals| && arrivals[i].valid && arrivals[j].valid ==>
               arrivals[i].msg.proposer != arrivals[j].msg.proposer
    ensures AlwaysHoldsBest(cached, arrivals)
  {
    forall n | 0 <= n < |arrivals|
      ensures !Raises(cached, arrivals, n)
    {
      CachedHasArrived(cached, arrivals, n);
      assert Competes(cached, arrivals[n].msg) ==> !arrivals[n].valid;
    }
    CachedIsBest(cached, key, arrivals);
  }

  lemma {:induction false} CachedHasArrived(cached: Option<Proposal>, arrivals: seq<Arrival>, n: nat)
    requires n <= |arrivals|
    ensures || Run(cached, arrivals[..n]) == cached
            || exists i :: 0 <= i < n && arrivals[i].valid && Run(cached, arrivals[..n]) == Some(arrivals[i].msg)
  {
    if n > 0 {
      CachedHasArrived(cached, arrivals, n - 1);
      RunPrefix(cached, arrivals, n - 1);
    }
  }

  /** Every arrival, by its fields: an invalid one changes nothing; a valid one replaces a cached one that
      differs in chain, round or state version, or is of another proposer and of less priority; any
      other leaves it. */
  lemma CollectExactly(cached: Option<Proposal>, a: Arrival)
    ensures Collect(cached, a) ==
            if !a.valid then cached
            else if cached.None? then Some(a.msg)
            else if cached.value.chainId != a.msg.chainId || cached.value.round != a.msg.round
                    || cached.value.stateVersion != a.msg.stateVersion then Some(a.msg)
            else if cached.value.proposer != a.msg.proposer
                    && BigEndian(cached.value.maxPri) < BigEndian(a.msg.maxPri) then Some(a.msg)
            else cached
  {
  }

  /** One arrival for the cached key leaves the better of the two in the cache
      exactly when it is not the cached proposer raising its own priority. */
  lemma CollectKeepsBetter(cached: Proposal, msg: Proposal)
    requires SameKey(msg, cached)
    ensures var c := Collect(Some(cached), Arrival(true, msg)).value;
            (BigEndian(c.maxPri) >= BigEndian(cached.maxPri) && BigEndian(c.maxPri) >= BigEndian(msg.maxPri)) <==>
            !(cached.proposer == msg.proposer && BigEndian(cached.maxPri) < BigEndian(msg.maxPri))
  {
  }

  /** A proposer's second, better proposal is dropped. */
  lemma RaisedProposalIsDropped()
    ensures var weak := Proposal([1], 2, 3, [4], [5], None);
            var strong := weak.(maxPri := [6]);
            && BigEndian(weak.maxPri) < BigEndian(strong.maxPri)
            && Run(None, [Arrival(true, weak), Arrival(true, strong)]) == Some(weak)
  {
    var weak := Proposal([1], 2, 3, [4], [5], None);
    var first, second := Arrival(true, weak), Arrival(true, weak.(maxPri := [6]));
    assert [first, second][..1] == [first] && [first][..0] == [];
    assert Run(None, [first]) == Collect(Run(None, []), first);
    assert BigEndian([]) == 0 && ([5])[..0] == [] && ([6])[..0] == [];
  }

  // ------------------------------------------------------------ the fork choice

  /** The choice between two heads, or the error that their heights differ. The guard is the
      source's: it compares the first head's height with itself. */
  function BlockHeadChoice(bh1: Head, bh2: Head): Option<Head> {
    if bh1.height != bh1.height then None
    else if BigEndian(bh1.maxPri) < BigEndian(bh2.maxPri) then Some(bh2)
    else Some(bh1)
  }

  /** The choice never fails, so it is made between heads of one height only, as its error message
      says, exactly when the heights are equal to begin with. */
  lemma ChoiceNeverFails(bh1: Head, bh2: Head)
    ensures BlockHeadChoice(bh1, bh2).Some? && BlockHeadChoice(bh1, bh2).value in {bh1, bh2}
    ensures (BlockHeadChoice(bh1, bh2).Some? <==> bh1.height == bh2.height) <==> bh1.height == bh2.height
    ensures BigEndian(BlockHeadChoice(bh1, bh2).value.maxPri) >= BigEndian(bh1.maxPri)
    ensures BigEndian(BlockHeadChoice(bh1, bh2).value.maxPri) >= BigEndian(bh2.maxPri)
  {
  }

  /** A head is chosen over one of another height. */
  lemma HeightsAreNotCompared()
    ensures BlockHeadChoice(Head(1, [1]), Head(2, [2])) == Some(Head(2, [2]))
  {
    assert ([1])[..0] == [] && ([2])[..0] == [];
  }

  /** Every valid arrival carries a head that repeats its priority. */
  ghost predicate HeadsAgree(arrivals: seq<Arrival>) {
    forall i :: 0 <= i < |arrivals| && arrivals[i].valid ==>
      arrivals[i].msg.head.Some? && arrivals[i].msg.head.value.maxPri == arrivals[i].msg.maxPri
  }

  /** The fork choice applied to the heads of valid arrivals, in order; a failed choice keeps the
      head so far. */
  function Chosen(arrivals: seq<Arrival>): Option<Head> {
    if arrivals == [] then None
    else
      var n := |arrivals| - 1;
      var so := Chosen(arrivals[..n]);
      if !arrivals[n].valid || arrivals[n].msg.head.None? then so
      else if so.None? then arrivals[n].msg.head
      else
        var c := BlockHeadChoice(so.value, arrivals[n].msg.head.value);
        if c.None? then so else c
  }

  lemma {:induction false} ChosenIsBest(arrivals: seq<Arrival>)
    requires HeadsAgree(arrivals)
    ensures if exists i :: 0 <= i < |arrivals| && arrivals[i].valid
            then exists k :: IsBest(arrivals, k) && Chosen(arrivals) == arrivals[k].msg.head
            else Chosen(arrivals) == None
  {
    if arrivals != [] {
      var n := |arrivals| - 1;
      var rest, a := arrivals[..n], arrivals[n];
      ChosenIsBest(rest);
      assert arrivals == rest + [a];
      if k :| IsBest(rest, k) && Chosen(rest) == rest[k].msg.head {
        BestStep(rest, a, k);
        assert arrivals[k] == rest[k];
      } else if a.valid {
        assert IsBest(arrivals, n);
      }
    }
  }

  /** The cache and the fork choice name the same block, once there is one. */
  ghost predicate Agree(cached: Option<Proposal>, arrivals: seq<Arrival>) {
    Chosen(arrivals).Some? ==> Run(cached, arrivals).Some? && Run(cached, arrivals).value.head == Chosen(arrivals)
  }

  /** A cache that holds the best agrees with the fork choice; one that does not, because a
      proposal was raised, holds a head of another priority. */
  lemma {:induction false} AgreeAt(cached: Option<Proposal>, arrivals: seq<Arrival>)
    requires HeadsAgree(arrivals) && HoldsBest(cached, arrivals)
    ensures Agree(cached, arrivals)
  {
    ChosenIsBest(arrivals);
    if Chosen(arrivals).Some? {
      var l :| IsBest(arrivals, l) && Chosen(arrivals) == arrivals[l].msg.head;
      var k :| IsBest(arrivals, k) && Run(cached, arrivals) == Some(arrivals[k].msg);
      BestIsUnique(arrivals, k, l);
    }
  }

  lemma {:induction false} RaiseDisagrees(cached: Option<Proposal>, key: Proposal, arrivals: seq<Arrival>, n: nat)
    requires OneKey(cached, key, arrivals) && HeadsAgree(arrivals) && n < |arrivals|
    requires Raises(cached, arrivals, n)
    ensures !Agree(cached, arrivals[..n + 1])
  {
    var before, all := arrivals[..n], arrivals[..n + 1];
    RunPrefix(cached, arrivals, n);
    CachedHasArrived(cached, arrivals, n);
    assert Run(cached, before) != cached;
    ChosenIsBest(all);
    assert all[n] == arrivals[n];
    var l :| IsBest(all, l) && Chosen(all) == all[l].msg.head;
    assert Priority(all[n]) <= Priority(all[l]);
  }

  /** At every point the cache and the fork choice pick the same block, if and only if the cached
      proposer never raises its own proposal. */
  lemma {:induction false} CacheAgreesWithForkChoice(cached: Option<Proposal>, key: Proposal, arrivals: seq<Arrival>)
    requires OneKey(cached, key, arrivals) && HeadsAgree(arrivals)
    ensures (forall n :: 0 <= n <= |arrivals| ==> Agree(cached, arrivals[..n])) <==> NeverRaises(cached, arrivals)
  {
    if NeverRaises(cached, arrivals) {
      forall n | 0 <= n <= |arrivals|
        ensures Agree(cached, arrivals[..n])
      {
        HoldsBestForward(cached, key, arrivals, n);
        AgreeAt(cached, arrivals[..n]);
      }
    } else {
      var n :| 0 <= n < |arrivals| && Raises(cached, arrivals, n);
      RaiseDisagrees(cached, key, arrivals, n);
    }
  }
}
