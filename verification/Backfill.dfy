/** Downward backfill and the contiguous filter of block synchronisation (network/message_handler.go). */
module Backfill {
  import opened Uint64

  const BATCH: nat := 100

  datatype Batch = Batch(low: nat, high: nat)

  /** requestBackfillBatch: the next 100 heights going down, stopping at the target and never at 0. */
  function NextBatch(from: nat, target: nat): (b: Batch)
    ensures b.high == from && 1 <= b.low && target <= b.low && b.high < b.low + 100
    ensures b.low == target || b.low == 1 || b.high + 1 - b.low == 100
  {
    var start := if from > BATCH then from - BATCH + 1 else 1;
    Batch(if start < target then target else start, from)
  }

  ghost predicate Covers(b: Batch, h: nat) {
    b.low <= h <= b.high
  }

  /** The heights from `lo` up to but excluding `hi`. */
  ghost function Heights(lo: nat, hi: nat): (s: set<nat>)
    ensures forall h: nat :: h in s <==> lo <= h < hi
  {
    if hi <= lo then {} else Heights(lo, hi - 1) + {hi - 1}
  }

  class Server {
    var checkpointHeight: uint64
    var backfillTarget: nat
    var backfillInProgress: bool
    var backfillCurrentFrom: nat
    var saved: set<nat>           // heights stored by saveBlockOnly
    ghost var requested: seq<Batch>

    constructor (checkpointHeight: uint64)
      ensures this.checkpointHeight == checkpointHeight && !backfillInProgress && saved == {} && requested == []
    {
      this.checkpointHeight, backfillTarget, backfillInProgress, backfillCurrentFrom := checkpointHeight, 0, false, 0;
      saved, requested := {}, [];
    }

    method RequestBackfillBatch(from: nat, target: nat) returns (b: Batch)
      modifies this`backfillCurrentFrom, this`requested
      ensures b == NextBatch(from, target) && requested == old(requested) + [b] && backfillCurrentFrom == b.low - 1
    {
      b := NextBatch(from, target);
      requested := requested + [b];
      backfillCurrentFrom := b.low - 1;
    }

    /** handleEarliestHeight: starts below the checkpoint, unless nothing is missing. */
    method HandleEarliestHeight(earliest: nat) returns (b: Batch, asked: bool)
      modifies this
      ensures checkpointHeight == old(checkpointHeight) && saved == old(saved)
      ensures asked <==> checkpointHeight > 0 && earliest < checkpointHeight
      ensures asked ==> backfillInProgress && backfillTarget == earliest
      ensures asked ==> b == NextBatch(checkpointHeight - 1, earliest) && requested == old(requested) + [b]
      ensures !asked ==> requested == old(requested)
      ensures !asked && checkpointHeight > 0 ==> !backfillInProgress
    {
      b, asked := Batch(0, 0), false;
      if checkpointHeight == 0 {
        return;
      }
      backfillTarget, backfillInProgress := earliest, true;
      var startFrom := checkpointHeight - 1;
      if startFrom < earliest {
        backfillInProgress := false;
        return;
      }
      b := RequestBackfillBatch(startFrom, earliest);
      asked := true;
    }

    /**
     The backfill branch of handleBlocks; `stores` tells which blocks can be saved. When none can, the
     next request starts at the top of the height range.
     */
    method HandleBackfill(heights: seq<nat>, stores: nat -> bool) returns (b: Batch, asked: bool, lowestSaved: nat)
      requires heights != [] && forall h :: h in heights ==> h < checkpointHeight
      modifies this
      ensures checkpointHeight == old(checkpointHeight) && backfillTarget == old(backfillTarget)
      ensures saved == old(saved) + set h | h in heights && stores(h)
      ensures forall h :: h in heights && stores(h) ==> lowestSaved <= h
      ensures (lowestSaved in heights && stores(lowestSaved)) || lowestSaved == TWO_64 - 1
      ensures asked <==> lowestSaved > backfillTarget
      ensures asked ==> b == NextBatch(lowestSaved - 1, backfillTarget) && requested == old(requested) + [b]
      ensures !asked ==> requested == old(requested) && !backfillInProgress
      ensures asked ==> backfillInProgress == old(backfillInProgress)
    {
      lowestSaved := TWO_64 - 1;
      for i := 0 to |heights|
        invariant checkpointHeight == old(checkpointHeight) && backfillTarget == old(backfillTarget)
        invariant requested == old(requested) && backfillInProgress == old(backfillInProgress)
        invariant saved == old(saved) + set h | h in heights[..i] && stores(h)
        invariant forall h :: h in heights[..i] && stores(h) ==> lowestSaved <= h
        invariant (lowestSaved in heights && stores(lowestSaved)) || lowestSaved == TWO_64 - 1
      {
        assert heights[..i + 1] == heights[..i] + [heights[i]];
        if stores(heights[i]) {
          saved := saved + {heights[i]};
          if heights[i] < lowestSaved {
            lowestSaved := heights[i];
          }
        }
      }
      assert heights[..|heights|] == heights;
      b, asked := Batch(0, 0), false;
      if lowestSaved > backfillTarget {
        b := RequestBackfillBatch(lowestSaved - 1, backfillTarget);
        asked := true;
      } else {
        backfillInProgress := false;
      }
    }
  }

  // ---- the whole backfill ----

  /** A peer answers a request for at least one height; an empty range gets no answer. */
  predicate Answered(b: Batch) {
    b.low <= b.high
  }

  /** All requests of a backfill from `from` down to `target`, each sent after the one before was answered in full. */
  ghost function Requests(from: nat, target: nat): (bs: seq<Batch>)
    requires target <= from
    ensures bs != []
    decreases from
  {
    var b := NextBatch(from, target);
    [b] + if Answered(b) && b.low > target then Requests(b.low - 1, target) else []
  }

  ghost function CeilDiv(n: nat): nat {
    (n + BATCH - 1) / BATCH
  }

  lemma {:induction false} RequestCount(from: nat, target: nat)
    requires target <= from
    ensures |Requests(from, target)| == CeilDiv(from + 1 - Lowest(target)) + if target == 0 then 1 else 0
    decreases from
  {
    var b := NextBatch(from, target);
    if Answered(b) && b.low > target {
      RequestCount(b.low - 1, target);
    }
  }

  /** Every batch lies between target and `from`, is at most 100 long, and lies below the ones before it. */
  ghost predicate Descending(bs: seq<Batch>, from: nat, target: nat) {
    && (forall i :: 0 <= i < |bs| ==> target <= bs[i].low && bs[i].high <= from && bs[i].high < bs[i].low + BATCH)
    && (forall i, j :: 0 <= i < j < |bs| ==> bs[j].high < bs[i].low)
  }

  lemma DescendingPush(b: Batch, rest: seq<Batch>, target: nat)
    requires 1 <= b.low && target <= b.low && b.high < b.low + BATCH && Descending(rest, b.low - 1, target)
    requires b.low <= b.high
    ensures Descending([b] + rest, b.high, target)
  {
    var bs := [b] + rest;
    forall i | 0 <= i < |bs|
      ensures target <= bs[i].low && bs[i].high <= b.high && bs[i].high < bs[i].low + BATCH
      ensures i > 0 ==> bs[i].high < b.low
    {
      assert i > 0 ==> bs[i] == rest[i - 1];
    }
  }

  lemma {:induction false} RequestsDescend(from: nat, target: nat)
    requires target <= from
    ensures Descending(Requests(from, target), from, target)
    ensures var last := Requests(from, target)[|Requests(from, target)| - 1];
            if target >= 1 then last.low == target && Answered(last) else last == Batch(1, 0)
    decreases from
  {
    hide Requests;
    NextRequest(from, target);
    var b := NextBatch(from, target);
    if Answered(b) && b.low > target {
      RequestsDescend(b.low - 1, target);
      DescendingPush(b, Requests(b.low - 1, target), target);
    }
  }

  lemma {:induction false} RequestsCover(from: nat, target: nat, h: nat)
    requires target <= from
    ensures Covered(Requests(from, target), h) <==> target <= h <= from && h >= 1
    decreases from
  {
    hide Requests, Covered;
    NextRequest(from, target);
    var b := NextBatch(from, target);
    NothingCovered(h);
    if Answered(b) && b.low > target {
      RequestsCover(b.low - 1, target, h);
      CoveredPush(b, Requests(b.low - 1, target), h);
    } else {
      CoveredPush(b, [], h);
    }
  }

  lemma NothingCovered(h: nat)
    ensures !Covered([], h)
  {
  }

  /**
   The requests are disjoint, at most 100 long and as few as can be, and cover exactly the heights from
   the target up, except 0. A target of 0 costs one more request, for the empty range from 1 to 0.
   */
  lemma BackfillCovers(from: nat, target: nat)
    requires target <= from
    ensures |Requests(from, target)| == CeilDiv(from + 1 - Lowest(target)) + if target == 0 then 1 else 0
    ensures Descending(Requests(from, target), from, target)
    ensures forall h: nat :: Covered(Requests(from, target), h) <==> target <= h <= from && h >= 1
    ensures var last := Requests(from, target)[|Requests(from, target)| - 1];
            if target >= 1 then last.low == target && Answered(last) else last == Batch(1, 0)
  {
    hide Requests, Covered, CeilDiv, Descending;
    RequestCount(from, target);
    RequestsDescend(from, target);
    forall h: nat ensures Covered(Requests(from, target), h) <==> target <= h <= from && h >= 1 {
      RequestsCover(from, target, h);
    }
  }

  ghost predicate Covered(bs: seq<Batch>, h: nat) {
    exists i :: 0 <= i < |bs| && Covers(bs[i], h)
  }

  lemma CoveredPush(b: Batch, bs: seq<Batch>, h: nat)
    ensures Covered([b] + bs, h) <==> Covers(b, h) || Covered(bs, h)
  {
    var all := [b] + bs;
    if Covers(b, h) {
      assert Covers(all[0], h);
    }
    if Covered(bs, h) {
      var i :| 0 <= i < |bs| && Covers(bs[i], h);
      assert Covers(all[i + 1], h);
    }
  }

  /**
   Runs a backfill against a peer that has all blocks, until there is nothing more to answer. It ends
   having asked for exactly the missing heights if and only if the reported earliest height is at
   least 1; for 0 it stays in progress, waiting for an answer to the request from 1 to 0.
   */
  method RunBackfill(s: Server, earliest: nat) returns (rounds: nat)
    requires earliest < s.checkpointHeight && s.requested == []
    modifies s
    ensures s.checkpointHeight == old(s.checkpointHeight)
    ensures s.requested == Requests(s.checkpointHeight - 1, earliest)
    ensures s.saved == old(s.saved) + Heights(Lowest(earliest), s.checkpointHeight)
    ensures
      (!s.backfillInProgress && forall h: nat :: Covered(s.requested, h) <==> earliest <= h < s.checkpointHeight)
      <==> earliest >= 1
    ensures s.backfillInProgress <==> earliest == 0
    ensures rounds == CeilDiv(s.checkpointHeight - Lowest(earliest))
  {
    hide Heights, Requests, Covered, CeilDiv;
    ghost var from := s.checkpointHeight - 1;
    RequestCount(from, earliest);
    CoversMissingIff(from, earliest);
    NextRequest(from, earliest);
    var b, asked := s.HandleEarliestHeight(earliest);
    assert s.requested[..0] + Requests(from, earliest) == Requests(from, earliest);
    rounds := Serve(s, b, Requests(from, earliest));
  }

  /** Exactly the missing heights are asked for if and only if the target is not 0. */
  lemma CoversMissingIff(from: nat, target: nat)
    requires target <= from
    ensures (forall h: nat :: Covered(Requests(from, target), h) <==> target <= h < from + 1) <==> target >= 1
  {
    hide Requests, Covered, CeilDiv;
    BackfillCovers(from, target);
    if target == 0 {
      assert !Covered(Requests(from, target), 0);
    }
  }

  function Lowest(target: nat): nat {
    if target >= 1 then target else 1
  }

  /** The exchange that follows a first request. */
  method Serve(s: Server, first: Batch, ghost all: seq<Batch>) returns (rounds: nat)
    requires Pending(s, first, all) && s.backfillInProgress
    modifies s
    ensures s.checkpointHeight == old(s.checkpointHeight) && s.backfillTarget == old(s.backfillTarget)
    ensures s.requested == all && (s.backfillInProgress <==> s.backfillTarget == 0)
    ensures s.saved == old(s.saved) + Heights(Lowest(s.backfillTarget), first.high + 1)
    ensures |all| == |old(s.requested)| - 1 + rounds + if s.backfillTarget == 0 then 1 else 0
  {
    hide Heights, Requests;
    var b, asked := first, true;
    rounds := 0;
    HeightsJoin(first.high + 1, first.high + 1, first.high + 1);
    while asked && Answered(b)
      invariant s.checkpointHeight == old(s.checkpointHeight) && s.backfillTarget == old(s.backfillTarget)
      invariant asked ==> s.backfillInProgress && Pending(s, b, all) && |s.requested| == |old(s.requested)| + rounds
      invariant asked ==> b.high <= first.high && s.saved == old(s.saved) + Heights(b.high + 1, first.high + 1)
      invariant !asked ==> s.requested == all && !s.backfillInProgress && s.backfillTarget >= 1
      invariant !asked ==> |s.requested| == |old(s.requested)| - 1 + rounds
      invariant !asked ==> s.saved == old(s.saved) + Heights(s.backfillTarget, first.high + 1)
      decreases asked, b.high
    {
      ghost var done := b;
      b, asked := AnswerBatch(s, b, all);
      HeightsJoin(done.low, done.high + 1, first.high + 1);
      rounds := rounds + 1;
    }
    if asked {
      Stalled(b, s.backfillTarget);
      assert s.requested == s.requested[..|s.requested| - 1] + [b];
    }
  }

  lemma HeightsJoin(low: nat, mid: nat, high: nat)
    requires low <= mid <= high
    ensures Heights(mid, high) + Heights(low, mid) == Heights(low, high) && Heights(high, high) == {}
  {
  }

  /** The request is outstanding, and what is still to be asked follows from it. */
  ghost predicate Pending(s: Server, b: Batch, all: seq<Batch>)
    reads s
  {
    && s.backfillTarget <= b.high < s.checkpointHeight && b == NextBatch(b.high, s.backfillTarget)
    && s.requested != [] && s.requested[..|s.requested| - 1] + Requests(b.high, s.backfillTarget) == all
    && s.requested[|s.requested| - 1] == b
  }

  /** Only a request for the empty range above height 0 is never answered. */
  lemma Stalled(b: Batch, target: nat)
    requires target <= b.high && b == NextBatch(b.high, target) && !Answered(b)
    ensures b == Batch(1, 0) && target == 0 && Requests(b.high, target) == [b]
  {
  }

  /** The peer sends all blocks of the batch; the next batch is requested or the backfill ends. */
  method AnswerBatch(s: Server, b: Batch, ghost all: seq<Batch>) returns (next: Batch, asked: bool)
    requires Pending(s, b, all) && Answered(b) && s.backfillInProgress
    modifies s
    ensures s.checkpointHeight == old(s.checkpointHeight) && s.backfillTarget == old(s.backfillTarget)
    ensures s.saved == old(s.saved) + Heights(b.low, b.high + 1)
    ensures asked <==> b.low > s.backfillTarget
    ensures asked ==> s.backfillInProgress && Pending(s, next, all) && next.high + 1 == b.low
    ensures asked ==> |s.requested| == |old(s.requested)| + 1
    ensures !asked ==> s.requested == old(s.requested) == all && !s.backfillInProgress && s.backfillTarget >= 1
  {
    hide Requests, Heights;
    var heights := seq(b.high + 1 - b.low, i requires 0 <= i => b.low + i);
    AllHeights(b, heights);
    var lowest;
    next, asked, lowest := s.HandleBackfill(heights, _ => true);
    assert b.low in heights && lowest == b.low;
    assert (set h | h in heights && (_ => true)(h)) == set h | h in heights;
    NextRequest(b.high, s.backfillTarget);
    ghost var old' := old(s.requested);
    assert old' == old'[..|old'| - 1] + [b];
    if asked {
      assert s.requested[..|s.requested| - 1] == old';
    }
  }

  /** A request and those that follow it. */
  lemma NextRequest(from: nat, target: nat)
    requires target <= from
    ensures
      var b := NextBatch(from, target);
      Requests(from, target) == [b] + if Answered(b) && b.low > target then Requests(b.low - 1, target) else []
  {
  }

  lemma AllHeights(b: Batch, heights: seq<nat>)
    requires b.low <= b.high && |heights| == b.high + 1 - b.low
    requires forall i :: 0 <= i < |heights| ==> heights[i] == b.low + i
    ensures forall h: nat :: h in heights <==> b.low <= h <= b.high
    ensures (set h | h in heights) == Heights(b.low, b.high + 1)
  {
    forall h: nat ensures h in heights <==> b.low <= h <= b.high {
      if b.low <= h <= b.high {
        assert heights[h - b.low] == h;
      }
    }
  }

  // ---- the contiguous filter ----

  datatype Block = Block(height: nat, id: int)

  ghost predicate HasHeight(blocks: seq<Block>, h: nat) {
    exists i :: 0 <= i < |blocks| && blocks[i].height == h
  }

  ghost predicate SortedHeights(blocks: seq<Block>) {
    forall i, j :: 0 <= i < j < |blocks| ==> blocks[i].height <= blocks[j].height
  }

  /**
   The filter of handleBlocks over blocks sorted by height. When blocks are accepted right above the
   local head, it keeps exactly the maximal gap-free run of heights from there; when acceptance
   starts at or below the head it keeps nothing. What lies beyond the gap is stored for later.
   */
  method Filter(blocks: seq<Block>, localHeight: nat, acceptFrom: nat)
    returns (kept: seq<Block>, forked: seq<Block>, stored: seq<Block>)
    requires SortedHeights(blocks) && 1 <= acceptFrom <= localHeight + 1
    ensures forall i :: 0 <= i < |kept| ==> kept[i] in blocks && kept[i].height == acceptFrom + i
    ensures acceptFrom == localHeight + 1 ==> !HasHeight(blocks, acceptFrom + |kept|)
    ensures acceptFrom <= localHeight ==> kept == []
    ensures forall b :: b in forked <==> b in blocks && 1 <= b.height <= localHeight
    ensures forall b :: b in stored <==> b in blocks && b.height > localHeight && b.height > acceptFrom + |kept|
  {
    kept, forked, stored := [], [], [];
    var expectedNext := acceptFrom;
    for i := 0 to |blocks|
      invariant expectedNext == acceptFrom + |kept|
      invariant forall j :: 0 <= j < |kept| ==> kept[j] in blocks && kept[j].height == acceptFrom + j
      invariant acceptFrom <= localHeight ==> kept == []
      invariant acceptFrom == localHeight + 1 ==> forall j :: 0 <= j < i ==> blocks[j].height != expectedNext
      invariant kept != [] ==> i > 0 && blocks[i - 1].height >= expectedNext - 1
      invariant forall b :: b in forked <==> b in blocks[..i] && 1 <= b.height <= localHeight
      invariant forall b :: b in stored <==> b in blocks[..i] && b.height > localHeight && b.height > expectedNext
      invariant stored != [] ==> i > 0 && blocks[i - 1].height > expectedNext
    {
      var block := blocks[i];
      assert blocks[..i + 1] == blocks[..i] + [block];
      if block.height <= localHeight && block.height > 0 {
        forked := forked + [block];
        continue;
      }
      if block.height < acceptFrom {
        continue;
      }
      if block.height == expectedNext {
        assert forall b :: b in blocks[..i] ==> b.height <= block.height;
        kept := kept + [block];
        expectedNext := expectedNext + 1;
      } else if block.height > expectedNext {
        stored := stored + [block];
      }
    }
    assert blocks[..|blocks|] == blocks;
  }
}
