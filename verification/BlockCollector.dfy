/** The archiver's block collector: parts of one block arrive separately and are put together
    when the first part of the next block arrives. */
module BlockCollector {
  import opened Bits

  /** A block head: its height and the rest of its marshalled bytes. */
  datatype Head = Head(height: nat, rest: Bytes)

  /** A block, or part of one, with its result: what arrives and what is emitted. */
  datatype Part = Part(head: Head, dataVersion: nat, dataChunks: seq<Bytes>, resultChunks: seq<Bytes>)

  datatype Outcome = Kept | Rejected | Emitted(part: Part)

  /** The next height as a 64-bit word. */
  function NextHeight(h: nat): nat {
    (h + 1) % TWO_64
  }

  // ----- one arrival, on values -----

  ghost predicate SharesChunk(a: Part, b: Part) {
    a.dataVersion == b.dataVersion && exists c :: c in a.dataChunks && c in b.dataChunks
  }

  ghost predicate IsDuplicate(list: seq<Part>, p: Part) {
    exists i :: 0 <= i < |list| && SharesChunk(p, list[i])
  }

  function DataOf(list: seq<Part>): seq<Bytes> {
    if list == [] then [] else DataOf(list[..|list| - 1]) + list[|list| - 1].dataChunks
  }

  function ResultsOf(list: seq<Part>): seq<Bytes> {
    if list == [] then [] else ResultsOf(list[..|list| - 1]) + list[|list| - 1].resultChunks
  }

  /** All parts of one block put together: the first one with everybody's chunks in order. */
  function Joined(list: seq<Part>): Part
    requires list != []
  {
    list[0].(dataChunks := DataOf(list), resultChunks := ResultsOf(list))
  }

  /** What `Collect` answers when it holds `list`. */
  ghost function Answer(list: seq<Part>, p: Part): Outcome {
    if list == [] then Kept
    else if p.head.height == list[0].head.height then
      if p.head == list[0].head && !IsDuplicate(list, p) then Kept else Rejected
    else if p.head.height == NextHeight(list[0].head.height) then Emitted(Joined(list))
    else Rejected
  }

  /** What it holds afterwards. */
  ghost function After(list: seq<Part>, p: Part): seq<Part> {
    match Answer(list, p)
    case Kept => list + [p]
    case Rejected => list
    case Emitted(_) => [p]
  }

  // ----- every sequence of arrivals -----

  /** The accepted arrivals, grouped by the block they belong to, and the blocks emitted. */
  datatype History = History(groups: seq<seq<Part>>, emitted: seq<Part>)

  /** What the collector holds: the group that is still open. */
  ghost function Open(h: History): seq<Part> {
    if h.groups == [] then [] else h.groups[|h.groups| - 1]
  }

  ghost function Arrive(h: History, p: Part): History {
    var list := Open(h);
    match Answer(list, p)
    case Kept =>
      if h.groups == [] then History([[p]], h.emitted)
      else History(h.groups[..|h.groups| - 1] + [list + [p]], h.emitted)
    case Rejected => h
    case Emitted(b) => History(h.groups + [[p]], h.emitted + [b])
  }

  ghost function Run(arrivals: seq<Part>): History {
    if arrivals == [] then History([], []) else Arrive(Run(arrivals[..|arrivals| - 1]), arrivals[|arrivals| - 1])
  }

  /** One block's parts: the same head throughout, and no chunk accepted twice. */
  ghost predicate GoodGroup(g: seq<Part>) {
    && g != []
    && (forall i :: 0 <= i < |g| ==> g[i].head == g[0].head)
    && (forall i, j :: 0 <= i < j < |g| ==> !SharesChunk(g[j], g[i]))
  }

  ghost predicate GoodHistory(h: History) {
    && (forall k :: 0 <= k < |h.groups| ==> GoodGroup(h.groups[k]))
    && (forall k :: 0 < k < |h.groups| ==> h.groups[k][0].head.height == NextHeight(h.groups[k - 1][0].head.height))
    && |h.emitted| == (if h.groups == [] then 0 else |h.groups| - 1)
    && (forall k :: 0 <= k < |h.emitted| ==> h.emitted[k] == Joined(h.groups[k]))
  }

  lemma GroupGrows(g: seq<Part>, p: Part)
    requires GoodGroup(g) && p.head == g[0].head && !IsDuplicate(g, p)
    ensures GoodGroup(g + [p])
  {
  }

  lemma KeptKeepsGood(h: History, p: Part)
    requires GoodHistory(h) && h.groups != [] && Answer(Open(h), p).Kept?
    ensures GoodHistory(Arrive(h, p)) && Open(Arrive(h, p)) == After(Open(h), p)
  {
    var n, h' := |h.groups| - 1, Arrive(h, p);
    GroupGrows(h.groups[n], p);
    assert forall k :: 0 <= k < n ==> h'.groups[k] == h.groups[k];
  }

  lemma ArriveKeepsGood(h: History, p: Part)
    requires GoodHistory(h)
    ensures GoodHistory(Arrive(h, p)) && Open(Arrive(h, p)) == After(Open(h), p)
  {
    if h.groups != [] && Answer(Open(h), p).Kept? {
      KeptKeepsGood(h, p);
    }
  }

  /** Over every sequence of arrivals: each emitted block is the in-order concatenation of all
      accepted arrivals of its height, emitted heights go up by one each time, the arrivals of one
      block agree on the head, and no two of one data version share a chunk. */
  lemma {:induction false} RunConserves(arrivals: seq<Part>)
    ensures GoodHistory(Run(arrivals))
    decreases |arrivals|
  {
    if arrivals != [] {
      RunConserves(arrivals[..|arrivals| - 1]);
      ArriveKeepsGood(Run(arrivals[..|arrivals| - 1]), arrivals[|arrivals| - 1]);
    }
  }

  /** The arrivals that were not rejected, in order. */
  ghost function Accepted(arrivals: seq<Part>): seq<Part> {
    if arrivals == [] then []
    else
      var prev, last := arrivals[..|arrivals| - 1], arrivals[|arrivals| - 1];
      Accepted(prev) + (if Answer(Open(Run(prev)), last).Rejected? then [] else [last])
  }

  ghost function Flat(groups: seq<seq<Part>>): seq<Part> {
    if groups == [] then [] else Flat(groups[..|groups| - 1]) + groups[|groups| - 1]
  }

  /** No accepted arrival is lost, repeated or moved: the groups in order are the accepted arrivals. */
  lemma {:induction false} GroupsAreAccepted(arrivals: seq<Part>)
    ensures Flat(Run(arrivals).groups) == Accepted(arrivals)
    decreases |arrivals|
  {
    if arrivals != [] {
      var prev, last := arrivals[..|arrivals| - 1], arrivals[|arrivals| - 1];
      GroupsAreAccepted(prev);
      var groups, groups' := Run(prev).groups, Run(arrivals).groups;
      match Answer(Open(Run(prev)), last)
      case Rejected =>
      case Emitted(_) => assert groups'[..|groups|] == groups;
      case Kept =>
        if groups == [] {
          assert groups'[..0] == [];
        } else {
          var n := |groups| - 1;
          assert groups'[..n] == groups[..n];
          assert Flat(groups[..n]) + (groups[n] + [last]) == Flat(groups) + [last];
        }
    }
  }

  lemma {:induction false} EmittedHeights(arrivals: seq<Part>, k: nat)
    requires k + 1 < |Run(arrivals).emitted|
    ensures Run(arrivals).emitted[k + 1].head.height == NextHeight(Run(arrivals).emitted[k].head.height)
  {
    RunConserves(arrivals);
    var h := Run(arrivals);
    assert h.emitted[k] == Joined(h.groups[k]) && h.emitted[k + 1] == Joined(h.groups[k + 1]);
    assert h.groups[k + 1][0].head.height == NextHeight(h.groups[k][0].head.height);
  }

  /** Where the chunks of part `i` start in the joined block. */
  ghost function Offset(list: seq<Part>, i: nat): nat
    requires i <= |list|
  {
    |DataOf(list[..i])|
  }

  lemma {:induction false} DataAt(list: seq<Part>, i: nat, c: nat)
    requires i < |list| && c < |list[i].dataChunks|
    ensures Offset(list, i) + c < |DataOf(list)| && DataOf(list)[Offset(list, i) + c] == list[i].dataChunks[c]
    decreases |list|
  {
    var n := |list| - 1;
    assert list[..n + 1] == list;
    if i < n {
      DataAt(list[..n], i, c);
      assert list[..n][..i] == list[..i];
    }
  }

  lemma {:induction false} ResultsAligned(list: seq<Part>, i: nat, c: nat)
    requires forall k :: 0 <= k < |list| ==> |list[k].dataChunks| == |list[k].resultChunks|
    ensures |ResultsOf(list)| == |DataOf(list)|
    ensures i < |list| && c < |list[i].resultChunks|
            ==> Offset(list, i) + c < |ResultsOf(list)|
                && ResultsOf(list)[Offset(list, i) + c] == list[i].resultChunks[c]
    decreases |list|
  {
    if list != [] {
      var n := |list| - 1;
      ResultsAligned(list[..n], i, c);
      if i < n {
        assert list[..n][..i] == list[..i];
      }
    }
  }

  /** Chunk by chunk, the `k`-th emitted block `b` holds the data of each arrival of its group `g` at
      one place and, if every arrival had as many results as chunks, its results at the same place. */
  lemma {:induction false} EmittedAligned(arrivals: seq<Part>, k: nat, b: Part, g: seq<Part>, i: nat, c: nat)
    requires var h := Run(arrivals); k < |h.emitted| && k < |h.groups| && b == h.emitted[k] && g == h.groups[k]
    requires forall a :: a in arrivals ==> |a.dataChunks| == |a.resultChunks|
    requires i < |g| && c < |g[i].dataChunks|
    ensures c < |g[i].resultChunks| && |b.dataChunks| == |b.resultChunks|
    ensures var at := Offset(g, i) + c;
            at < |b.dataChunks| && b.dataChunks[at] == g[i].dataChunks[c] && b.resultChunks[at] == g[i].resultChunks[c]
  {
    RunConserves(arrivals);
    GroupsComeFromArrivals(arrivals);
    assert g in Run(arrivals).groups;
    assert forall j :: 0 <= j < |g| ==> g[j] in g;
    DataAt(g, i, c);
    ResultsAligned(g, i, c);
  }

  lemma {:induction false} GroupsComeFromArrivals(arrivals: seq<Part>)
    ensures forall g, p :: g in Run(arrivals).groups && p in g ==> p in arrivals
    decreases |arrivals|
  {
    if arrivals != [] {
      var prev, last := arrivals[..|arrivals| - 1], arrivals[|arrivals| - 1];
      GroupsComeFromArrivals(prev);
      var h, h' := Run(prev), Run(arrivals);
      assert last in arrivals;
      forall g, p | g in h'.groups && p in g
        ensures p in arrivals
      {
        if g !in h.groups && p != last {
          assert p in Open(h);
        }
      }
    }
  }

  // ----- which arrivals are accepted, and where their chunks end up -----

  /** No part of the group has a chunk in common with `p` under the same data version. */
  ghost predicate BringsNewChunks(g: seq<Part>, p: Part) {
    forall q, c :: q in g && q.dataVersion == p.dataVersion && c in q.dataChunks ==> c !in p.dataChunks
  }

  lemma DuplicateExactly(g: seq<Part>, p: Part)
    ensures IsDuplicate(g, p) <==> !BringsNewChunks(g, p)
  {
    if !BringsNewChunks(g, p) {
      var q, c :| q in g && q.dataVersion == p.dataVersion && c in q.dataChunks && c in p.dataChunks;
      var i :| 0 <= i < |g| && g[i] == q;
      assert SharesChunk(p, g[i]);
    }
  }

  lemma {:induction false} RunMore(arrivals: seq<Part>, p: Part)
    ensures Run(arrivals + [p]) == Arrive(Run(arrivals), p)
  {
    assert (arrivals + [p])[..|arrivals|] == arrivals;
  }

  /** The arrival opens the first block, or has the open block's head and only new chunks. */
  ghost predicate Belongs(h: History, p: Part) {
    h.groups == [] ||
      var g := h.groups[|h.groups| - 1];
      g != [] && p.head == g[0].head && BringsNewChunks(g, p)
  }

  /** The arrival is one height above the open block. */
  ghost predicate Follows(h: History, p: Part) {
    h.groups != [] &&
      var g := h.groups[|h.groups| - 1];
      g != [] && p.head.height == (g[0].head.height + 1) % TWO_64
  }

  lemma ArriveExactly(h: History, p: Part)
    requires GoodHistory(h)
    ensures var n := |h.groups| - 1;
            Arrive(h, p) ==
            if h.groups == [] then History([[p]], h.emitted)
            else if Belongs(h, p) then History(h.groups[..n] + [h.groups[n] + [p]], h.emitted)
            else if Follows(h, p) then
              var g := h.groups[n];
              History(h.groups + [[p]], h.emitted + [Part(g[0].head, g[0].dataVersion, DataOf(g), ResultsOf(g))])
            else h
  {
    if h.groups != [] {
      assert GoodGroup(h.groups[|h.groups| - 1]);
      DuplicateExactly(h.groups[|h.groups| - 1], p);
    }
  }

  /** Every arrival, after any others: the first opens a block; one with the open block's head and only
      new chunks joins it; one of the next height emits it, all of its parts in order, and opens its
      own; every other one changes nothing. */
  lemma {:induction false} ArrivalExactly(arrivals: seq<Part>, p: Part)
    ensures var h := Run(arrivals);
            var n := |h.groups| - 1;
            && (h.groups != [] ==> h.groups[n] != [])
            && Run(arrivals + [p]) ==
               if h.groups == [] then History([[p]], [])
               else if Belongs(h, p) then History(h.groups[..n] + [h.groups[n] + [p]], h.emitted)
               else if Follows(h, p) then
                 var g := h.groups[n];
                 History(h.groups + [[p]], h.emitted + [Part(g[0].head, g[0].dataVersion, DataOf(g), ResultsOf(g))])
               else h
  {
    RunMore(arrivals, p);
    RunConserves(arrivals);
    ArriveExactly(Run(arrivals), p);
  }

  lemma ArriveGrows(h: History, p: Part)
    ensures var h' := Arrive(h, p);
            && |h.groups| <= |h'.groups| && h.emitted <= h'.emitted
            && forall k :: 0 <= k < |h.groups| ==> h.groups[k] <= h'.groups[k]
  {
  }

  /** Later arrivals only add to groups, and only emit more. */
  lemma {:induction false} RunGrows(arrivals: seq<Part>, later: seq<Part>)
    ensures var h, h' := Run(arrivals), Run(arrivals + later);
            && |h.groups| <= |h'.groups| && h.emitted <= h'.emitted
            && forall k :: 0 <= k < |h.groups| ==> h.groups[k] <= h'.groups[k]
    decreases |later|
  {
    if later == [] {
      assert arrivals + later == arrivals;
    } else {
      var n := |later| - 1;
      RunGrows(arrivals, later[..n]);
      assert arrivals + later == arrivals + later[..n] + [later[n]];
      RunMore(arrivals + later[..n], later[n]);
      ArriveGrows(Run(arrivals + later[..n]), later[n]);
    }
  }

  lemma {:induction false} DataSlice(list: seq<Part>, i: nat)
    requires i < |list|
    ensures var at, n := |DataOf(list[..i])|, |list[i].dataChunks|;
            at + n <= |DataOf(list)| && DataOf(list)[at..at + n] == list[i].dataChunks
    decreases |list|
  {
    var n := |list| - 1;
    if i < n {
      DataSlice(list[..n], i);
      assert list[..n][..i] == list[..i];
    }
  }

  lemma {:induction false} ResultSlice(list: seq<Part>, i: nat)
    requires i < |list|
    ensures var at, n := |ResultsOf(list[..i])|, |list[i].resultChunks|;
            at + n <= |ResultsOf(list)| && ResultsOf(list)[at..at + n] == list[i].resultChunks
    decreases |list|
  {
    var n := |list| - 1;
    if i < n {
      ResultSlice(list[..n], i);
      assert list[..n][..i] == list[..i];
    }
  }

  /** The chunks `part` lie in a row in `whole`. */
  ghost predicate Contains(whole: seq<Bytes>, part: seq<Bytes>) {
    exists at :: LiesAt(whole, part, at)
  }

  ghost predicate LiesAt(whole: seq<Bytes>, part: seq<Bytes>, at: int) {
    0 <= at && at + |part| <= |whole| && whole[at..at + |part|] == part
  }

  /** An arrival with the open block's head and only new chunks is in the block that is emitted for
      that height, whatever arrives later, data and results. */
  lemma {:induction false} AcceptedIsEmitted(arrivals: seq<Part>, p: Part, later: seq<Part>)
    requires Belongs(Run(arrivals), p)
    ensures var h, end := Run(arrivals), Run(arrivals + [p] + later);
            var k := if h.groups == [] then 0 else |h.groups| - 1;
            k < |end.emitted| ==>
              && end.emitted[k].head == p.head
              && Contains(end.emitted[k].dataChunks, p.dataChunks)
              && Contains(end.emitted[k].resultChunks, p.resultChunks)
  {
    var h, end := Run(arrivals), Run(arrivals + [p] + later);
    var k := if h.groups == [] then 0 else |h.groups| - 1;
    if k < |end.emitted| {
      ArrivalExactly(arrivals, p);
      RunGrows(arrivals + [p], later);
      RunConserves(arrivals + [p] + later);
      var i := if h.groups == [] then 0 else |h.groups[k]|;
      InEmitted(Run(arrivals + [p]).groups[k], end.groups[k], i, p);
      assert end.emitted[k] == Joined(end.groups[k]);
      assert GoodGroup(end.groups[k]);
    }
  }

  lemma {:induction false} InEmitted(g: seq<Part>, whole: seq<Part>, i: nat, p: Part)
    requires g <= whole && i < |g| && g[i] == p
    ensures whole[i] == p && Contains(DataOf(whole), p.dataChunks) && Contains(ResultsOf(whole), p.resultChunks)
  {
    DataSlice(whole, i);
    assert LiesAt(DataOf(whole), p.dataChunks, |DataOf(whole[..i])|);
    ResultSlice(whole, i);
    assert LiesAt(ResultsOf(whole), p.resultChunks, |ResultsOf(whole[..i])|);
  }

  lemma JoinedOne(p: Part)
    ensures Joined([p]) == p
  {
    assert [p][..0] == [];
    assert DataOf([p]) == [] + p.dataChunks == p.dataChunks;
    assert ResultsOf([p]) == [] + p.resultChunks == p.resultChunks;
  }

  // ----- the collector -----

  class Collector {
    var blockList: seq<Part>

    constructor ()
      ensures blockList == []
    {
      blockList := [];
    }

    /** `isExistSameBlockData`. */
    method IsExistSameBlockData(origin: Part) returns (found: bool)
      ensures found == IsDuplicate(blockList, origin)
    {
      for i := 0 to |blockList|
        invariant forall j :: 0 <= j < i ==> !SharesChunk(origin, blockList[j])
      {
        var target := blockList[i];
        if origin.dataVersion != target.dataVersion {
          continue;
        }
        for a := 0 to |origin.dataChunks|
          invariant forall x :: 0 <= x < a ==> origin.dataChunks[x] !in target.dataChunks
        {
          for b := 0 to |target.dataChunks|
            invariant forall y :: 0 <= y < b ==> origin.dataChunks[a] != target.dataChunks[y]
          {
            if origin.dataChunks[a] == target.dataChunks[b] {
              assert origin.dataChunks[a] in origin.dataChunks && origin.dataChunks[a] in target.dataChunks;
              return true;
            }
          }
        }
      }
      return false;
    }

    /** Appends the chunks of all later parts to the first one. */
    method Join() returns (first: Part)
      requires blockList != []
      ensures first == Joined(blockList)
    {
      first := blockList[0];
      JoinedOne(blockList[0]);
      assert blockList[..1] == [blockList[0]];
      for i := 1 to |blockList|
        invariant first == Joined(blockList[..i])
      {
        assert blockList[..i + 1][..i] == blockList[..i];
        first := first.(dataChunks := first.dataChunks + blockList[i].dataChunks,
                        resultChunks := first.resultChunks + blockList[i].resultChunks);
      }
      assert blockList[..|blockList|] == blockList;
    }

    method Collect(p: Part) returns (r: Outcome)
      modifies this
      ensures r == Answer(old(blockList), p) && blockList == After(old(blockList), p)
    {
      if |blockList| == 0 {
        blockList := blockList + [p];
        return Kept;
      }
      if p.head.height == blockList[0].head.height {
        if p.head == blockList[0].head {
          var same := IsExistSameBlockData(p);
          if same {
            return Rejected;
          }
          blockList := blockList + [p];
        } else {
          return Rejected;
        }
      } else if p.head.height == NextHeight(blockList[0].head.height) {
        var joined := Join();
        blockList := [p];
        return Emitted(joined);
      } else {
        return Rejected;
      }
      return Kept;
    }
  }
}
