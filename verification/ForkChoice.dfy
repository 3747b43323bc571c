/** Fork choice between checkpoints (fork_resolver.go). */
module ForkChoice {
  import opened Options
  import opened Uint64
  import opened Ordering

  datatype Checkpoint = Checkpoint(height: uint64, hash: string, timestamp: int)

  /** The local chain: its height, the hash of its head, and the latest checkpoint if there is one. */
  datatype Local = NoChain | Chain(height: uint64, hash: string, checkpoint: Option<Checkpoint>)

  /** What a peer reports; height 0 means it has no checkpoint. */
  datatype Report = Report(height: uint64, hash: string, checkpoint: Checkpoint)

  /** The earlier checkpoint wins; at equal times the smaller hash. */
  predicate Better(a: Checkpoint, b: Checkpoint) {
    a.timestamp < b.timestamp || (a.timestamp == b.timestamp && StrLess(a.hash, b.hash))
  }

  function Max(a: uint64, b: uint64): uint64 {
    if a < b then b else a
  }

  /** The node drops its branch for the peer's. */
  predicate Drops(known: uint64, mine: Checkpoint, peer: Checkpoint) {
    peer.height == mine.height && peer.hash != mine.hash && peer.height >= known && Better(peer, mine)
  }

  /** A report leads to a comparison of checkpoints. */
  predicate Compares(local: Local, peer: Report) {
    && local.Chain? && local.checkpoint.Some?
    && peer.hash != "" && peer.checkpoint.height != 0
    && ((peer.height == local.height && peer.hash != local.hash)
        || (peer.height > local.height && local.checkpoint.value.height > 0
            && peer.checkpoint.height == local.checkpoint.value.height
            && peer.checkpoint.hash != local.checkpoint.value.hash))
  }

  /** The highest checkpoint height known after a report. */
  function Known(known: uint64, local: Local, peer: Report): uint64 {
    var k := Max(known, peer.checkpoint.height);
    if local.Chain? && peer.hash != "" && peer.checkpoint.height != 0 && local.checkpoint.Some?
    then Max(k, local.checkpoint.value.height) else k
  }

  class ForkResolver {
    var knownHeight: uint64
    var knownHash: string

    constructor ()
      ensures knownHeight == 0 && knownHash == ""
    {
      knownHeight, knownHash := 0, "";
    }

    method Learn(c: Checkpoint)
      modifies this
      ensures knownHeight == Max(old(knownHeight), c.height)
      ensures knownHash == if c.height > old(knownHeight) then c.hash else old(knownHash)
    {
      if c.height > knownHeight {
        knownHeight, knownHash := c.height, c.hash;
      }
    }

    /** ResolveForkUsingCheckpoint: true when the local branch is dropped. */
    method ResolveForkUsingCheckpoint(mine: Checkpoint, peer: Checkpoint) returns (drop: bool)
      modifies this
      ensures knownHeight == Max(Max(old(knownHeight), peer.height), mine.height)
      ensures drop <==> Drops(knownHeight, mine, peer)
    {
      Learn(peer);
      Learn(mine);
      var currentKnownHighest := knownHeight;
      if peer.height != mine.height {
        return false;
      }
      if peer.hash != mine.hash {
        if peer.height < currentKnownHighest {
          return false;
        }
        if peer.timestamp < mine.timestamp {
          return true;
        } else if peer.timestamp > mine.timestamp {
          return false;
        } else {
          return StrLess(peer.hash, mine.hash);
        }
      }
      drop := false;
    }

    method DetectAndResolveFork(local: Local, peer: Report) returns (drop: bool)
      modifies this
      ensures knownHeight == Known(old(knownHeight), local, peer)
      ensures drop <==> Compares(local, peer) && Drops(knownHeight, local.checkpoint.value, peer.checkpoint)
      ensures local.Chain? && local.checkpoint.Some? ==>
                var mine, theirs := local.checkpoint.value, peer.checkpoint;
                drop <==>
                && |peer.hash| > 0 && mine.height == theirs.height > 0 && mine.hash != theirs.hash
                && old(knownHeight) <= theirs.height
                && (theirs.timestamp < mine.timestamp
                    || (theirs.timestamp == mine.timestamp && StrLess(theirs.hash, mine.hash)))
                && (peer.height > local.height || (peer.height == local.height && peer.hash != local.hash))
      ensures local.NoChain? || local.checkpoint.None? ==> !drop
    {
      if peer.checkpoint.height > 0 {
        Learn(peer.checkpoint);
      }
      if local.NoChain? || peer.hash == "" || peer.checkpoint.height == 0 || local.checkpoint.None? {
        return false;
      }
      var mine := local.checkpoint.value;
      Learn(mine);
      if peer.height == local.height && peer.hash != local.hash {
        drop := ResolveForkUsingCheckpoint(mine, peer.checkpoint);
        return;
      }
      if peer.height > local.height && peer.checkpoint.height > 0 && mine.height > 0 {
        var common := if mine.height < peer.checkpoint.height then mine.height else peer.checkpoint.height;
        if common == peer.checkpoint.height && common == mine.height && peer.checkpoint.hash != mine.hash {
          drop := ResolveForkUsingCheckpoint(mine, peer.checkpoint);
          return;
        }
      }
      drop := false;
    }

    /** What an event does to the node: a drop deletes the checkpoint file, an adoption writes it. */
    method Observe(branch: Branch, e: Event) returns (after: Branch)
      modifies this
      ensures View(knownHeight, after) == Next(View(old(knownHeight), branch), e)
    {
      match e {
        case Hears(_, _, peer) =>
          var drop := DetectAndResolveFork(LocalChain(e, branch), peer);
          after := if drop then Dropped(peer.checkpoint) else branch;
        case Receives(head, headTime, c) =>
          var latest := ApplyCheckpoint(head, headTime, Latest(branch), c);
          after := if latest.Some? then Holding(latest.value) else branch;
        case Produces(c) =>
          after := Holding(c);
      }
    }
  }

  // ---- the order ----

  /** Preference is a strict total order on checkpoints with different hashes. */
  lemma BetterIsStrictTotal(a: Checkpoint, b: Checkpoint, c: Checkpoint)
    ensures !(Better(a, b) && Better(b, a))
    ensures Better(a, b) && Better(b, c) ==> Better(a, c)
    ensures a.hash != b.hash ==> Better(a, b) || Better(b, a)
  {
    StrLessAsym(a.hash, b.hash);
    StrLessTotal(a.hash, b.hash);
    if StrLess(a.hash, b.hash) && StrLess(b.hash, c.hash) {
      StrLessTrans(a.hash, b.hash, c.hash);
    }
  }

  /** Of two nodes with different checkpoints at the highest known height, exactly one gives way. */
  lemma ExactlyOneDrops(known: uint64, known': uint64, a: Checkpoint, b: Checkpoint)
    requires a.height == b.height && a.hash != b.hash && known <= a.height && known' <= a.height
    ensures Drops(known, a, b) <==> !Drops(known', b, a)
  {
    BetterIsStrictTotal(a, b, a);
  }

  /**
   When a node with a checkpoint drops it: for a rival at the same positive height that nothing known
   exceeds, with another hash, and earlier or at the same time with a smaller hash, reported by a peer
   whose chain is higher, or equally high with another head. Never when the peer's chain is lower.
   */
  lemma HearingDropsIff(v: View, e: Event)
    requires e.Hears? && v.branch.Holding?
    ensures
      var mine, theirs := v.branch.mine, e.peer.checkpoint;
      Next(v, e).branch == Dropped(theirs) <==>
      && |e.peer.hash| > 0 && mine.height == theirs.height > 0 && mine.hash != theirs.hash
      && v.known <= theirs.height
      && (theirs.timestamp < mine.timestamp
          || (theirs.timestamp == mine.timestamp && StrLess(theirs.hash, mine.hash)))
      && (e.peer.height > e.height || (e.peer.height == e.height && e.peer.hash != e.hash))
    ensures Next(v, e).branch in {v.branch, Dropped(e.peer.checkpoint)}
  {
  }

  /**
   Two nodes with different checkpoints at the highest known height report to each other. The one with
   the better checkpoint keeps it. The other gives way if and only if the better one has the longer
   chain, or an equally long one with another head; otherwise both stay where they are.
   */
  lemma ExchangeResolvesIff(
    v: View, height: uint64, hash: string, w: View, height': uint64, hash': string)
    requires v.branch.Holding? && w.branch.Holding? && |hash| > 0 && |hash'| > 0
    requires v.branch.mine.height == w.branch.mine.height > 0 && v.branch.mine.hash != w.branch.mine.hash
    requires v.known <= v.branch.mine.height && w.known <= v.branch.mine.height
    requires Better(w.branch.mine, v.branch.mine)
    ensures
      var toV, toW := Hears(height, hash, Report(height', hash', w.branch.mine)),
                      Hears(height', hash', Report(height, hash, v.branch.mine));
      && Next(w, toW).branch == w.branch
      && (Next(v, toV).branch == Dropped(w.branch.mine) <==> height' > height || (height' == height && hash' != hash))
      && (Next(v, toV).branch == v.branch <==> height' < height || (height' == height && hash' == hash))
  {
    BetterIsStrictTotal(v.branch.mine, w.branch.mine, v.branch.mine);
    HearingDropsIff(v, Hears(height, hash, Report(height', hash', w.branch.mine)));
    HearingDropsIff(w, Hears(height', hash', Report(height, hash, v.branch.mine)));
  }

  // ---- runs ----

  /** One report handled by a node, together with the node's chain at that moment. */
  datatype Step = Step(local: Local, peer: Report)

  function RunKnown(known: uint64, steps: seq<Step>): uint64 {
    if steps == [] then known
    else var i := |steps| - 1; Known(RunKnown(known, steps[..i]), steps[i].local, steps[i].peer)
  }

  /**
   The known height never falls. It bounds every checkpoint height that was reported, and the own one
   wherever a report with a head and a checkpoint was compared with it.
   */
  lemma {:induction false} KnownNeverFalls(known: uint64, steps: seq<Step>, i: nat)
    requires i <= |steps|
    ensures RunKnown(known, steps[..i]) <= RunKnown(known, steps)
    ensures i < |steps| ==> steps[i].peer.checkpoint.height <= RunKnown(known, steps)
    ensures i < |steps| && steps[i].local.Chain? && steps[i].local.checkpoint.Some?
            && |steps[i].peer.hash| > 0 && steps[i].peer.checkpoint.height > 0 ==>
              steps[i].local.checkpoint.value.height <= RunKnown(known, steps)
  {
    var n := |steps|;
    assert steps[..n] == steps;
    if i < n {
      assert steps[..n - 1][..i] == steps[..i];
      KnownNeverFalls(known, steps[..n - 1], i);
    }
  }

  /** The known height is nothing but one of the heights that were met. */
  lemma {:induction false} KnownWasMet(known: uint64, steps: seq<Step>)
    ensures
      || RunKnown(known, steps) == known
      || exists i :: 0 <= i < |steps| && MetAt(steps[i], RunKnown(known, steps))
  {
    if steps != [] {
      var n := |steps| - 1;
      KnownWasMet(known, steps[..n]);
      if i :| 0 <= i < n && MetAt(steps[..n][i], RunKnown(known, steps[..n])) {
        assert MetAt(steps[i], RunKnown(known, steps[..n]));
      }
      assert RunKnown(known, steps) == RunKnown(known, steps[..n]) || MetAt(steps[n], RunKnown(known, steps));
    }
  }

  /** The height of the checkpoint reported in this step, or of the own one. */
  ghost predicate MetAt(s: Step, height: uint64) {
    || s.peer.checkpoint.height == height
    || (s.local.Chain? && s.local.checkpoint.Some? && s.local.checkpoint.value.height == height)
  }

  /** A branch is dropped only for a checkpoint at the own height, which is the highest ever known. */
  lemma DropsOnlyAtTop(known: uint64, steps: seq<Step>, i: nat)
    requires i < |steps| && Compares(steps[i].local, steps[i].peer)
    requires Drops(RunKnown(known, steps[..i + 1]), steps[i].local.checkpoint.value, steps[i].peer.checkpoint)
    ensures steps[i].peer.checkpoint.height == steps[i].local.checkpoint.value.height == RunKnown(known, steps[..i + 1])
    ensures forall j :: 0 <= j <= i ==> steps[j].peer.checkpoint.height <= steps[i].local.checkpoint.value.height
  {
    assert steps[..i + 1][..i] == steps[..i];
    forall j | 0 <= j <= i ensures steps[j].peer.checkpoint.height <= RunKnown(known, steps[..i + 1]) {
      KnownNeverFalls(known, steps[..i + 1], j);
    }
  }

  // ---- how a node comes by a checkpoint ----

  /**
   applyCheckpoint lets a received checkpoint through: it is not below the head of the chain, and not
   below the local checkpoint; a rival at the height of the local checkpoint must be earlier than the
   head block. Without a local checkpoint only the head counts.
   */
  predicate Accepts(head: uint64, headTime: int, local: Option<Checkpoint>, c: Checkpoint) {
    && head <= c.height
    && (local.Some? ==>
          && local.value.height <= c.height
          && (c.height == local.value.height > 0 ==> c.hash != local.value.hash && c.timestamp < headTime))
  }

  method ApplyCheckpoint(head: uint64, headTime: int, local: Option<Checkpoint>, c: Checkpoint)
    returns (latest: Option<Checkpoint>)
    ensures latest == if Accepts(head, headTime, local, c) then Some(c) else local
  {
    if head > c.height {
      return local;
    }
    var localHeight := if local.Some? then local.value.height else 0;
    if c.height == localHeight && localHeight > 0 {
      if c.hash != local.value.hash {
        if c.timestamp >= headTime {
          return local;
        }
      } else {
        return local;
      }
    } else if c.height < localHeight {
      return local;
    }
    latest := Some(c);
  }

  // ---- runs in which checkpoints are dropped and found again ----

  /** A node holds its latest checkpoint, or has deleted it and resynchronises because of a rival. */
  datatype Branch = Holding(mine: Checkpoint) | Dropped(rival: Checkpoint)

  /**
   A peer's report, a checkpoint sent by some peer, or a checkpoint of the node's own; with the head of
   the local chain at that moment where it matters.
   */
  datatype Event =
    | Hears(height: uint64, hash: string, peer: Report)
    | Receives(head: uint64, headTime: int, c: Checkpoint)
    | Produces(c: Checkpoint)

  datatype View = View(known: uint64, branch: Branch)

  function Latest(b: Branch): Option<Checkpoint> {
    if b.Holding? then Some(b.mine) else None
  }

  function LocalChain(e: Event, b: Branch): Local
    requires e.Hears?
  {
    Chain(e.height, e.hash, Latest(b))
  }

  /** The report leads the node to compare its own checkpoint with the peer's. */
  predicate Weighs(v: View, e: Event) {
    e.Hears? && v.branch.Holding? && Compares(LocalChain(e, v.branch), e.peer)
  }

  /** The event makes `e.c` the node's latest checkpoint. */
  predicate Adopts(v: View, e: Event) {
    e.Produces? || (e.Receives? && Accepts(e.head, e.headTime, Latest(v.branch), e.c))
  }

  /**
   One event. A node that drops its branch deletes its checkpoint, and without one it compares nothing
   until it has a checkpoint again.
   */
  function Next(v: View, e: Event): View {
    match e
    case Hears(_, _, peer) =>
      var known := Known(v.known, LocalChain(e, v.branch), peer);
      var drop := Weighs(v, e) && Drops(known, v.branch.mine, peer.checkpoint);
      View(known, if drop then Dropped(peer.checkpoint) else v.branch)
    case _ => if Adopts(v, e) then v.(branch := Holding(e.c)) else v
  }

  /** `a` is at least as good as `b`: higher, or at the same height and not worse. */
  predicate NotWorse(a: Checkpoint, b: Checkpoint) {
    a.height > b.height || (a.height == b.height && !Better(b, a))
  }

  predicate Improves(a: Checkpoint, b: Checkpoint) {
    a.height > b.height || (a.height == b.height && Better(a, b))
  }

  /** What the node holds, or the rival it gave way to. */
  function Standing(b: Branch): Checkpoint {
    if b.Holding? then b.mine else b.rival
  }

  /** The node adopts a checkpoint that is lower than its standing, or worse at the same height. */
  predicate Regresses(v: View, e: Event) {
    Adopts(v, e) && Improves(Standing(v.branch), e.c)
  }

  function Run(v: View, es: seq<Event>): View {
    if es == [] then v else var i := |es| - 1; Next(Run(v, es[..i]), es[i])
  }

  ghost predicate NoRegress(v: View, es: seq<Event>) {
    forall i :: 0 <= i < |es| ==> !Regresses(Run(v, es[..i]), es[i])
  }

  /** What the node stands for after the first `i` events. */
  function StandingAt(v: View, es: seq<Event>, i: nat): Checkpoint
    requires i <= |es|
  {
    Standing(Run(v, es[..i]).branch)
  }

  lemma NotWorseTrans(a: Checkpoint, b: Checkpoint, c: Checkpoint)
    ensures NotWorse(a, a)
    ensures NotWorse(a, b) && NotWorse(b, c) ==> NotWorse(a, c)
    ensures NotWorse(a, b) && Improves(b, c) ==> Improves(a, c)
    ensures Improves(a, b) ==> NotWorse(a, b) && a != b
  {
    BetterIsWeakOrder(a, b, c);
    BetterIsStrictTotal(a, a, a);
    BetterIsStrictTotal(a, b, a);
  }

  /** On whole checkpoints the preference is a strict weak order. */
  lemma BetterIsWeakOrder(a: Checkpoint, b: Checkpoint, c: Checkpoint)
    ensures !Better(b, a) && !Better(c, b) ==> !Better(c, a)
    ensures !Better(b, a) && Better(b, c) ==> Better(a, c)
  {
    StrLessTotal(a.hash, b.hash);
    StrLessTotal(b.hash, c.hash);
    StrLessAsym(a.hash, b.hash);
    StrLessAsym(b.hash, c.hash);
    StrLessAsym(a.hash, c.hash);
    if StrLess(a.hash, b.hash) && StrLess(b.hash, c.hash) {
      StrLessTrans(a.hash, b.hash, c.hash);
    }
  }

  /** An event makes the standing worse exactly when it regresses; a drop always improves it. */
  lemma StepImprovesIff(v: View, e: Event)
    ensures NotWorse(Standing(Next(v, e).branch), Standing(v.branch)) <==> !Regresses(v, e)
    ensures v.branch.Holding? && Next(v, e).branch.Dropped? ==> Improves(Standing(Next(v, e).branch), v.branch.mine)
  {
    var before, after := Standing(v.branch), Standing(Next(v, e).branch);
    NotWorseTrans(after, before, before);
    NotWorseTrans(before, before, before);
  }

  /**
   When a received checkpoint makes the node regress. A node that holds a checkpoint does so only for a
   worse rival that is earlier than the head block, hence never while the head is no younger than its
   checkpoint. A node that has dropped its branch takes whatever is not below its rolled-back head.
   */
  lemma ReceivedRegressesIff(v: View, e: Event)
    requires e.Receives? && Standing(v.branch).height > 0
    ensures v.branch.Holding? ==>
              (Regresses(v, e) <==>
               && e.head <= e.c.height == v.branch.mine.height && Better(v.branch.mine, e.c)
               && e.c.hash != v.branch.mine.hash && e.c.timestamp < e.headTime)
    ensures v.branch.Holding? && e.headTime <= v.branch.mine.timestamp ==> !Regresses(v, e)
    ensures v.branch.Dropped? ==> (Regresses(v, e) <==> e.head <= e.c.height && Improves(v.branch.rival, e.c))
  {
    BetterIsStrictTotal(e.c, Standing(v.branch), e.c);
  }

  lemma RunStep(v: View, es: seq<Event>, i: nat)
    requires i < |es|
    ensures Run(v, es[..i + 1]) == Next(Run(v, es[..i]), es[i])
  {
    assert es[..i + 1][..i] == es[..i];
  }

  lemma {:induction false} StandingRises(v: View, es: seq<Event>, i: nat, j: nat)
    requires NoRegress(v, es) && i <= j <= |es|
    ensures NotWorse(StandingAt(v, es, j), StandingAt(v, es, i))
  {
    hide NotWorse, Next, Regresses, Run, Standing;
    if i == j {
      NotWorseTrans(StandingAt(v, es, i), StandingAt(v, es, i), StandingAt(v, es, i));
    } else {
      StandingRises(v, es, i, j - 1);
      RunStep(v, es, j - 1);
      StepImprovesIff(Run(v, es[..j - 1]), es[j - 1]);
      NotWorseTrans(StandingAt(v, es, j), StandingAt(v, es, j - 1), StandingAt(v, es, i));
    }
  }

  /** Over any run the standing never falls if and only if no adopted checkpoint is a step back. */
  lemma StandingNeverFallsIff(v: View, es: seq<Event>)
    ensures NoRegress(v, es) <==>
            forall i, j :: 0 <= i <= j <= |es| ==> NotWorse(StandingAt(v, es, j), StandingAt(v, es, i))
  {
    hide NotWorse, Next, Regresses, Run, Standing;
    if NoRegress(v, es) {
      forall i, j | 0 <= i <= j <= |es| ensures NotWorse(StandingAt(v, es, j), StandingAt(v, es, i)) {
        StandingRises(v, es, i, j);
      }
    }
    if forall i, j :: 0 <= i <= j <= |es| ==> NotWorse(StandingAt(v, es, j), StandingAt(v, es, i)) {
      forall i | 0 <= i < |es| ensures !Regresses(Run(v, es[..i]), es[i]) {
        assert NotWorse(StandingAt(v, es, i + 1), StandingAt(v, es, i));
        RunStep(v, es, i);
        StepImprovesIff(Run(v, es[..i]), es[i]);
      }
    }
  }

  /**
   The condition can fail: a node that drops its checkpoint for a better rival, and is then sent the
   dropped checkpoint by some other peer, is back on the dropped branch.
   */
  lemma ReturnsToDropped(known: uint64, mine: Checkpoint, rival: Checkpoint, head: uint64, headTime: int)
    returns (es: seq<Event>)
    requires 0 < mine.height == rival.height && known <= mine.height && mine.hash != rival.hash
    requires Better(rival, mine) && head <= mine.height
    ensures
      var v := View(known, Holding(mine));
      && |es| == 2 && Run(v, es[..1]).branch == Dropped(rival) && Run(v, es).branch == Holding(mine)
      && !NoRegress(v, es)
  {
    var hears := Hears(mine.height, "a", Report(mine.height, "b", rival));
    es := [hears, Receives(head, headTime, mine)];
    var v := View(known, Holding(mine));
    assert es[..1] == [hears] && es[..1][..0] == [];
    assert Run(v, es[..1]) == Next(v, hears);
    assert Regresses(Run(v, es[..1]), es[1]);
  }

  /** In a run without steps back a node never comes back to a branch that it dropped. */
  lemma NeverReturns(v: View, es: seq<Event>, i: nat)
    requires NoRegress(v, es) && i < |es|
    requires Run(v, es[..i]).branch.Holding? && Run(v, es[..i + 1]).branch.Dropped?
    ensures Improves(Standing(Run(v, es).branch), Run(v, es[..i]).branch.mine)
    ensures Run(v, es).branch != Run(v, es[..i]).branch
  {
    hide NotWorse, Improves, Next, Run, Regresses;
    var before, after := Run(v, es[..i]), Run(v, es[..i + 1]);
    RunStep(v, es, i);
    StepImprovesIff(before, es[i]);
    StandingRises(v, es, i + 1, |es|);
    assert es[..|es|] == es;
    NotWorseTrans(Standing(Run(v, es).branch), Standing(after.branch), before.branch.mine);
    NotWorseTrans(Standing(Run(v, es).branch), before.branch.mine, before.branch.mine);
  }

  /** The rivals are the checkpoints of one height that no known checkpoint exceeds; a hash names one. */
  ghost predicate Rivals(rivals: set<Checkpoint>, height: uint64) {
    && (forall c :: c in rivals ==> c.height == height)
    && (forall c, d :: c in rivals && d in rivals && c.hash == d.hash ==> c == d)
  }

  /** The events speak of the rivals only, or of lower checkpoints. */
  ghost predicate Among(rivals: set<Checkpoint>, height: uint64, e: Event) {
    var c := if e.Hears? then e.peer.checkpoint else e.c;
    c in rivals || c.height < height
  }

  /** At some point of the run the node held a checkpoint and compared it with `c`. */
  ghost predicate Weighed(v: View, es: seq<Event>, c: Checkpoint) {
    exists i :: 0 <= i < |es| && es[i].Hears? && Weighs(Run(v, es[..i]), es[i]) && es[i].peer.checkpoint == c
  }

  /** A run among rivals of one height that nothing known exceeds, without steps back. */
  ghost predicate Contest(rivals: set<Checkpoint>, height: uint64, v: View, es: seq<Event>) {
    && Rivals(rivals, height) && v.known <= height && Standing(v.branch) in rivals
    && NoRegress(v, es) && forall e :: e in es ==> Among(rivals, height, e)
  }

  lemma StayAmongStep(rivals: set<Checkpoint>, height: uint64, v: View, e: Event)
    requires Rivals(rivals, height) && v.known <= height && Standing(v.branch) in rivals
    requires Among(rivals, height, e) && !Regresses(v, e)
    ensures Next(v, e).known <= height && Standing(Next(v, e).branch) in rivals
  {
  }

  lemma {:induction false} StaysAmong(rivals: set<Checkpoint>, height: uint64, v: View, es: seq<Event>, i: nat)
    requires Contest(rivals, height, v, es) && i <= |es|
    ensures Run(v, es[..i]).known <= height && Standing(Run(v, es[..i]).branch) in rivals
  {
    hide Next, Regresses, Rivals, Among, Standing;
    if i == 0 {
      assert es[..0] == [];
    } else {
      StaysAmong(rivals, height, v, es, i - 1);
      assert es[i - 1] in es;
      RunStep(v, es, i - 1);
      StayAmongStep(rivals, height, Run(v, es[..i - 1]), es[i - 1]);
    }
  }

  /** A compared rival is never better than what the node stands for afterwards. */
  lemma WeighedStep(rivals: set<Checkpoint>, height: uint64, v: View, e: Event)
    requires Rivals(rivals, height) && v.known <= height && Standing(v.branch) in rivals
    requires Among(rivals, height, e) && Weighs(v, e) && e.peer.checkpoint in rivals
    ensures NotWorse(Standing(Next(v, e).branch), e.peer.checkpoint)
  {
    NotWorseTrans(Standing(Next(v, e).branch), e.peer.checkpoint, e.peer.checkpoint);
  }

  lemma WeighedIsNotBetter(rivals: set<Checkpoint>, height: uint64, v: View, es: seq<Event>, i: nat)
    requires Contest(rivals, height, v, es)
    requires i < |es| && es[i].Hears? && Weighs(Run(v, es[..i]), es[i]) && es[i].peer.checkpoint in rivals
    ensures NotWorse(StandingAt(v, es, |es|), es[i].peer.checkpoint)
  {
    hide NotWorse, Next, Run, NoRegress, Rivals, Among, Weighs, Standing;
    assert es[i] in es;
    StaysAmong(rivals, height, v, es, i);
    WeighedStep(rivals, height, Run(v, es[..i]), es[i]);
    RunStep(v, es, i);
    StandingRises(v, es, i + 1, |es|);
    NotWorseTrans(StandingAt(v, es, |es|), StandingAt(v, es, i + 1), es[i].peer.checkpoint);
  }

  /**
   Without steps back, a node ends with a rival that is at least as good as every rival it compared
   itself with while it held a checkpoint.
   */
  lemma SettlesOnBest(rivals: set<Checkpoint>, height: uint64, v: View, es: seq<Event>, c: Checkpoint)
    requires Contest(rivals, height, v, es)
    requires c in rivals && (c == Standing(v.branch) || Weighed(v, es, c))
    ensures StandingAt(v, es, |es|) in rivals && NotWorse(StandingAt(v, es, |es|), c)
  {
    hide NotWorse, NoRegress, Rivals, Among, Weighs, Next, Standing;
    StaysAmong(rivals, height, v, es, |es|);
    if c == Standing(v.branch) {
      assert es[..0] == [];
      StandingRises(v, es, 0, |es|);
    } else {
      var i :| 0 <= i < |es| && es[i].Hears? && Weighs(Run(v, es[..i]), es[i]) && es[i].peer.checkpoint == c;
      WeighedIsNotBetter(rivals, height, v, es, i);
    }
  }

  /**
   Two nodes that start anywhere among the rivals, compare themselves with all the others while they
   hold a checkpoint, and never step back, end on the same branch, in whatever order things happen.
   */
  lemma ForkChoiceConverges(
    rivals: set<Checkpoint>, height: uint64, v: View, es: seq<Event>, w: View, fs: seq<Event>)
    requires Contest(rivals, height, v, es) && Contest(rivals, height, w, fs)
    requires forall c :: c in rivals ==> c == Standing(v.branch) || Weighed(v, es, c)
    requires forall c :: c in rivals ==> c == Standing(w.branch) || Weighed(w, fs, c)
    ensures StandingAt(v, es, |es|) == StandingAt(w, fs, |fs|)
  {
    hide Run, NoRegress, Among, Weighed, Better, Standing, StandingAt;
    EndsAmong(rivals, height, v, es);
    EndsAmong(rivals, height, w, fs);
    var x, y := StandingAt(v, es, |es|), StandingAt(w, fs, |fs|);
    SettlesOnBest(rivals, height, v, es, y);
    SettlesOnBest(rivals, height, w, fs, x);
    BetterIsStrictTotal(x, y, x);
  }

  lemma EndsAmong(rivals: set<Checkpoint>, height: uint64, v: View, es: seq<Event>)
    requires Contest(rivals, height, v, es)
    ensures StandingAt(v, es, |es|) in rivals
  {
    hide Contest, Run;
    StaysAmong(rivals, height, v, es, |es|);
  }

  /**
   With a step back the nodes can end apart: one holds the better checkpoint and hears the worse, the
   other drops the worse for the better and is sent the worse again. Both compared themselves with both.
   */
  lemma ConvergenceCanFail(mine: Checkpoint, rival: Checkpoint) returns (es: seq<Event>, fs: seq<Event>)
    requires 0 < mine.height == rival.height && mine.hash != rival.hash && Better(rival, mine)
    ensures
      var v, w := View(0, Holding(mine)), View(0, Holding(rival));
      && Weighed(v, es, rival) && Weighed(w, fs, mine) && NoRegress(w, fs)
      && Run(v, es).branch == Holding(mine) && Run(w, fs).branch == Holding(rival)
  {
    var v, w := View(0, Holding(mine)), View(0, Holding(rival));
    es := [Hears(mine.height, "a", Report(mine.height, "b", rival)), Receives(mine.height, 0, mine)];
    fs := [Hears(mine.height, "b", Report(mine.height, "a", mine))];
    BetterIsStrictTotal(mine, rival, mine);
    assert es[..1][..0] == [] && es[..0] == [] && fs[..0] == [];
    assert Run(v, es[..1]) == Next(v, es[0]);
    assert Weighs(Run(v, es[..0]), es[0]) && Weighs(Run(w, fs[..0]), fs[0]);
  }

  // ---- how far a dropped branch is rolled back ----

  /**
   The rollback height of ForceResyncFromPeer, in 64-bit arithmetic. It is one interval below the
   peer's checkpoint, but at least 1, unless the local chain is longer and the checkpoint is younger
   than one interval: then the subtraction wraps around (in one degenerate case to 1 itself), normally
   to a height above the local chain.
   */
  method RollbackHeight(myHeight: uint64, peerHeight: uint64, interval: uint64) returns (r: uint64)
    ensures r >= 1
    ensures r == (if peerHeight > interval then peerHeight - interval else 1) <==>
            (myHeight <= peerHeight || interval <= peerHeight || (peerHeight == 0 && interval == TWO_64 - 1))
    ensures Wraps(myHeight, peerHeight, interval) ==> r == TWO_64 - (interval - peerHeight)
    ensures peerHeight < myHeight < TWO_64 - interval && interval > peerHeight ==> r > myHeight
  {
    r := 1;
    if peerHeight > interval {
      r := peerHeight - interval;
    }
    if myHeight > peerHeight {
      r := Sub(peerHeight, interval);
      if r < 1 {
        r := 1;
      }
    } else {
      var localRollback: uint64, peerRollback: uint64 := 1, 1;
      if myHeight > interval {
        localRollback := myHeight - interval;
      }
      if peerHeight > interval {
        peerRollback := peerHeight - interval;
      }
      r := Max(peerRollback, localRollback);
    }
  }

  predicate Wraps(myHeight: uint64, peerHeight: uint64, interval: uint64) {
    peerHeight < myHeight && peerHeight < interval
  }
}
