/** How the bridge cuts the child chain into checkpoints, in wrapping uint64 arithmetic:
    the proposer's slice, the guards it passes, and its submission to the root chain. */
module CheckpointSlicing {
  import opened Prelude
  import opened BlockRanges

  function Wrap(x: int): (r: uint64)
    ensures 0 <= x < TWO_64 ==> r == x
    ensures -TWO_64 <= x < 0 ==> r == x + TWO_64
  {
    x % TWO_64
  }

  /** The checkpoint lengths the parameter validation admits. */
  predicate ValidLengths(avg: uint64, max: uint64) {
    0 < avg <= max
  }

  /** The largest multiple of `step` up to n. */
  function WholeSteps(n: nat, step: nat): (q: nat)
    requires step > 0
    ensures q <= n < q + step && q % step == 0
  {
    ModUnique(n - n % step, step, n / step, 0);
    n - n % step
  }

  lemma WholeIs(n: nat, step: nat)
    requires step > 0
    ensures WholeSteps(n, step) == n - n % step
  {
  }

  lemma Product(step: nat, k: int)
    requires step > 0
    ensures k >= 1 ==> step * k >= step
    ensures k <= -1 ==> step * k + step <= 0
  {
  }

  lemma ModUnique(x: int, step: nat, q: int, r: nat)
    requires step > 0 && r < step && x == step * q + r
    ensures x % step == r
  {
    var d := x / step - q;
    assert step * d == step * (x / step) - step * q;
    Product(step, d);
  }

  /** Two different multiples of `step` are at least `step` apart. */
  lemma Apart(x: nat, y: nat, step: nat)
    requires step > 0 && x % step == 0 && y % step == 0
    ensures x > y ==> x >= y + step
  {
    var d := x / step - y / step;
    assert step * d == x - y;
    Product(step, d);
  }

  lemma SuccOfMultiple(x: nat, step: nat)
    requires step >= 2 && x % step == 0
    ensures (x + 1) % step == 1
  {
    ModUnique(x + 1, step, x / step, 1);
  }

  /** The first block of the next checkpoint, given the last end on the root chain. */
  function NextStart(currentEnd: uint64): uint64 {
    if currentEnd > 0 then Wrap(currentEnd + 1) else 0
  }

  /** The last block of the next checkpoint; 0 when there is no new block. */
  function NextEnd(start: uint64, latest: uint64, avg: uint64, max: uint64): uint64
    requires avg > 0
  {
    var diff := Wrap(Wrap(latest - start) + 1);
    if diff == 0 then 0
    else
      var whole := WholeSteps(diff, avg);
      var last := if whole > 0 then whole - 1 else 0;
      Wrap((if last > max then Wrap(max - 1) else last) + start)
  }

  /** nextExpectedCheckpoint, once the root chain's current header has been read. */
  method NextExpectedCheckpoint(currentEnd: uint64, latest: uint64, avg: uint64, max: uint64) returns (start: uint64, end: uint64)
    requires avg > 0
    ensures start == NextStart(currentEnd) && end == NextEnd(start, latest, avg, max)
    ensures currentEnd < MAX_UINT64 ==> start == if currentEnd > 0 then currentEnd + 1 else 0
  {
    hide WholeSteps;
    start, end := currentEnd, 0;
    if start > 0 {
      start := Wrap(start + 1);
    }
    var diff := Wrap(Wrap(latest - start) + 1);
    if diff > 0 {
      WholeIs(diff, avg);
      var expectedDiff: uint64 := diff - diff % avg;
      if expectedDiff > 0 {
        expectedDiff := expectedDiff - 1;
      }
      if expectedDiff > max {
        expectedDiff := Wrap(max - 1);
      }
      end := Wrap(expectedDiff + start);
    }
  }

  /** What the proposer does with a slice: waits, fails for its length, or proposes it. */
  datatype Outcome = Waiting | TooLong | Proposed(range: Range)

  /** The send guard, and the range guard of GetRootHash with its wrapping block count. */
  function Guarded(start: uint64, end: uint64, max: uint64): Outcome {
    if end == 0 || start >= end then Waiting
    else if Wrap(Wrap(end - start) + 1) > max then TooLong
    else Proposed(Range(start, end))
  }

  /** What the two guards together let through: slices of at least two blocks, and at most the
      maximum. */
  lemma GuardedIff(start: uint64, end: uint64, max: uint64)
    ensures Guarded(start, end, max).Proposed? <==> start < end && (end - start + 1 <= max || end - start + 1 == TWO_64)
    ensures Guarded(start, end, max).Proposed? ==> Guarded(start, end, max).range == Range(start, end)
    ensures Guarded(start, end, max) == Waiting <==> start >= end
  {
  }

  /** Under valid lengths the slice of a child chain that has reached `start` is, exactly:
      nothing while there is no full average length (or a single block); otherwise the
      largest multiple of the average length, cut to the maximum when it passes it by more
      than one block. */
  lemma SliceLength(start: uint64, latest: uint64, avg: uint64, max: uint64)
    requires ValidLengths(avg, max) && start <= latest + 1
    ensures
      var whole := WholeSteps(latest + 1 - start, avg);
      var length := if whole <= max + 1 then whole else max;
      var end := NextEnd(start, latest, avg, max);
      if latest + 1 - start == TWO_64 || length <= 1 then end == 0 || start >= end
      else start < end == start + length - 1 <= latest
  {
  }

  /** The cap on checkpoint lengths holds for every child chain exactly when one more than
      the maximum is not a multiple of the average (or no longer fits in 64 bits). */
  lemma CapHoldsIff(avg: uint64, max: uint64)
    requires ValidLengths(avg, max)
    ensures (forall start: uint64, latest: uint64 | start <= latest + 1 ::
               Guarded(start, NextEnd(start, latest, avg, max), max) != TooLong)
       <==> (max + 1) % avg != 0 || max == MAX_UINT64
  {
    forall start: uint64, latest: uint64 | start <= latest + 1 && ((max + 1) % avg != 0 || max == MAX_UINT64)
      ensures Guarded(start, NextEnd(start, latest, avg, max), max) != TooLong
    {
      SliceLength(start, latest, avg, max);
    }
    if (max + 1) % avg == 0 && max != MAX_UINT64 {
      SliceLength(0, max, avg, max);
      WholeUnique(max + 1, avg, max + 1);
      assert Guarded(0, NextEnd(0, max, avg, max), max) == TooLong;
    }
  }

  lemma WholeUnique(n: nat, step: nat, q: nat)
    requires step > 0 && q % step == 0 && q <= n < q + step
    ensures WholeSteps(n, step) == q
  {
    Apart(q, WholeSteps(n, step), step);
    Apart(WholeSteps(n, step), q, step);
  }

  lemma WholeMonotone(m: nat, n: nat, step: nat)
    requires step > 0 && m <= n
    ensures WholeSteps(m, step) <= WholeSteps(n, step)
  {
    Apart(WholeSteps(m, step), WholeSteps(n, step), step);
  }

  /** With an average length of at least two that divides the maximum, a chain that has
      reached `start` gets a proposal as soon as it has one average length of new blocks;
      the proposal is the largest multiple of the average the maximum and the chain allow. */
  lemma SlicesOfDividingLengths(start: uint64, latest: uint64, avg: uint64, max: uint64)
    requires avg >= 2 && ValidLengths(avg, max) && max % avg == 0
    requires start <= latest + 1 && latest < MAX_UINT64
    ensures
      var outcome := Guarded(start, NextEnd(start, latest, avg, max), max);
      var n := latest + 1 - start;
      if n < avg then outcome == Waiting
      else
        && outcome == Proposed(Range(start, start + WholeSteps(if n < max then n else max, avg) - 1))
        && outcome.range.to <= latest
  {
    hide WholeSteps, NextEnd;
    SliceLength(start, latest, avg, max);
    SuccOfMultiple(max, avg);
    WholeUnique(max, avg, max);
    var n := latest + 1 - start;
    if n < avg {
      WholeUnique(n, avg, 0);
    } else {
      WholeUnique(avg, avg, avg);
      WholeMonotone(avg, n, avg);
      if n >= max { WholeMonotone(max, n, avg); } else { WholeMonotone(n, max, avg); }
    }
  }

  /** A proposal stays behind the child chain exactly when the chain has reached its start;
      a node lagging further behind makes the subtraction wrap, and whatever is proposed
      then ends above its head. */
  lemma ProposalBehindHeadIff(start: uint64, latest: uint64, avg: uint64, max: uint64)
    requires ValidLengths(avg, max)
    requires Guarded(start, NextEnd(start, latest, avg, max), max).Proposed?
    ensures NextEnd(start, latest, avg, max) <= latest <==> start <= latest + 1
  {
    if start <= latest + 1 {
      SliceLength(start, latest, avg, max);
    }
  }

  /** Concretely: with average 3 and maximum 5 a chain of six blocks yields a slice of six;
      a node at height 500 proposes 1001..2024 behind a root chain at 1000; and a node at
      height 5 that needs 10 confirmations proposes 0..1023. */
  lemma SlicingExamples()
    ensures NextEnd(0, 5, 3, 5) == 5 && Guarded(0, 5, 5) == TooLong
    ensures NextEnd(1001, 500, 256, 1024) == 2024 && Guarded(1001, 2024, 1024) == Proposed(Range(1001, 2024))
    ensures NextEnd(0, Wrap(5 - 10), 256, 1024) == 1023 && Guarded(0, 1023, 1024) == Proposed(Range(0, 1023))
  {
  }

  /** sendCheckpointToHeimdall for the selected proposer with no checkpoint in the buffer,
      None when the confirmed head is not positive. */
  method SendCheckpointToHeimdall(head: uint64, confirmations: uint64, currentEnd: uint64, avg: uint64, max: uint64)
    returns (outcome: Option<Outcome>)
    requires ValidLengths(avg, max)
    ensures outcome.None? <==> head == confirmations
    ensures outcome.Some? ==> outcome.value == Guarded(
      NextStart(currentEnd), NextEnd(NextStart(currentEnd), Wrap(head - confirmations), avg, max), max)
    ensures outcome.Some? && outcome.value.Proposed? ==>
      var range := outcome.value.range;
      && range.from == NextStart(currentEnd) < range.to && range.to - range.from + 1 <= max
      && (currentEnd < MAX_UINT64 ==> range.from == if currentEnd > 0 then currentEnd + 1 else 0)
      && (range.to + confirmations <= head <==> head >= confirmations && range.from + confirmations <= head + 1)
  {
    var latestConfirmed := Wrap(head - confirmations);
    if latestConfirmed <= 0 {
      return None;
    }
    var start, end := NextExpectedCheckpoint(currentEnd, latestConfirmed, avg, max);
    if end == 0 || start >= end {
      return Some(Waiting);
    }
    // GetRootHash
    var noOfBlock := Wrap(Wrap(end - start) + 1);
    if start > end || noOfBlock > max {
      return Some(TooLong);
    }
    ProposalBehindHeadIff(start, latestConfirmed, avg, max);
    outcome := Some(Proposed(Range(start, end)));
  }

  /** shouldSendCheckpoint, given the last child block on the root chain. */
  method ShouldSendCheckpoint(currentChildBlock: uint64, start: uint64) returns (shouldSend: bool)
    ensures shouldSend <==> Fits(currentChildBlock, start)
    ensures shouldSend <==> start == currentChildBlock + 1 || (start == 0 && currentChildBlock in {0, MAX_UINT64})
  {
    shouldSend := false;
    if Wrap(currentChildBlock + 1) == start || (currentChildBlock == 0 && start == 0) {
      shouldSend := true;
    }
  }

  predicate Fits(currentChildBlock: uint64, start: uint64) {
    Wrap(currentChildBlock + 1) == start || (currentChildBlock == 0 && start == 0)
  }

  // ----- submission to the root chain -----

  /** A checkpoint whose sender has passed shouldSendCheckpoint when the last child block was
      `seenLast`, and whose transaction is on its way. */
  datatype Pending = Pending(range: Range, seenLast: uint64)

  /** The root chain's last child block, the checkpoints committed so far, and those sent. */
  datatype RootChain = RootChain(lastChildBlock: uint64, committed: seq<Range>, sent: seq<Pending>)

  /** A sender asks shouldSendCheckpoint about a range that was proposed when the root chain
      stood at `seenEnd` (possibly long ago) and the proposer's confirmed head at `latest`
      (possibly lagging behind); or a transaction sent earlier arrives. */
  datatype Action =
    | Check(seenEnd: uint64, latest: uint64)
    | Arrive(index: nat)

  /** The block at which the root-chain contract expects the next checkpoint to start. */
  function NextChildBlock(chain: RootChain): nat {
    if chain.committed == [] then 0 else chain.lastChildBlock + 1
  }

  /** One action. The contract is not part of the repository; `guarded` says whether it
      refuses a checkpoint that does not start at the next child block. */
  function Act(chain: RootChain, a: Action, avg: uint64, max: uint64, guarded: bool): RootChain
    requires avg > 0
  {
    match a
    case Check(seenEnd, latest) =>
      var start := NextStart(seenEnd);
      var outcome := Guarded(start, NextEnd(start, latest, avg, max), max);
      if outcome.Proposed? && Fits(chain.lastChildBlock, start)
      then chain.(sent := chain.sent + [Pending(outcome.range, chain.lastChildBlock)])
      else chain
    case Arrive(i) =>
      if i < |chain.sent| && chain.sent[i].range.to <= MAX_UINT64
         && (guarded ==> chain.sent[i].range.from == NextChildBlock(chain))
      then chain.(lastChildBlock := chain.sent[i].range.to, committed := chain.committed + [chain.sent[i].range])
      else chain
  }

  function ActAll(chain: RootChain, actions: seq<Action>, avg: uint64, max: uint64, guarded: bool): RootChain
    requires avg > 0
    decreases |actions|
  {
    if actions == [] then chain
    else ActAll(Act(chain, actions[0], avg, max, guarded), actions[1..], avg, max, guarded)
  }

  /** The committed checkpoints tile the child chain from its first block, each at most
      `max` blocks long and a multiple of `avg`. */
  ghost predicate Tiled(chain: RootChain, avg: nat, max: nat)
    requires avg > 0
  {
    && (if chain.committed == [] then chain.lastChildBlock == 0
        else chain.lastChildBlock > 0 && Tiles(chain.committed, 0, chain.lastChildBlock))
    && chain.lastChildBlock < MAX_UINT64
    && forall i :: 0 <= i < |chain.committed| ==>
         var length := chain.committed[i].to - chain.committed[i].from + 1;
         0 < length <= max && length % avg == 0
  }

  /** Any proposal, even one of a lagging node, is a whole number of average lengths and
      at most the maximum, provided the average divides the maximum. */
  lemma ProposalIsWhole(start: uint64, latest: uint64, avg: uint64, max: uint64)
    requires ValidLengths(avg, max) && max % avg == 0
    requires Guarded(start, NextEnd(start, latest, avg, max), max).Proposed?
    ensures
      var length := NextEnd(start, latest, avg, max) - start + 1;
      1 < length <= max && length % avg == 0
  {
    hide WholeSteps;
    if start > latest + 1 {
      assert Wrap(Wrap(latest - start) + 1) == TWO_64 + latest + 1 - start;
    }
  }

  /** What is known of a checkpoint on its way: it continued the chain its sender saw, and
      has a proper length. */
  ghost predicate SentOk(p: Pending, avg: nat, max: nat)
    requires avg > 0
  {
    && p.range.from < p.range.to < MAX_UINT64
    && p.seenLast < MAX_UINT64 && Fits(p.seenLast, p.range.from) && p.range.from != 1
    && p.range.to - p.range.from + 1 <= max && (p.range.to - p.range.from + 1) % avg == 0
  }

  ghost predicate AllSentOk(chain: RootChain, avg: nat, max: nat)
    requires avg > 0
  {
    forall i :: 0 <= i < |chain.sent| ==> SentOk(chain.sent[i], avg, max)
  }

  lemma {:induction false} CheckKeepsTiling(chain: RootChain, seenEnd: uint64, latest: uint64, avg: uint64, max: uint64, guarded: bool)
    requires ValidLengths(avg, max) && max % avg == 0 && Tiled(chain, avg, max) && AllSentOk(chain, avg, max)
    requires seenEnd + max < MAX_UINT64
    ensures
      var chain' := Act(chain, Check(seenEnd, latest), avg, max, guarded);
      Tiled(chain', avg, max) && AllSentOk(chain', avg, max)
  {
    hide NextEnd, Tiles;
    var start := NextStart(seenEnd);
    var outcome := Guarded(start, NextEnd(start, latest, avg, max), max);
    if outcome.Proposed? {
      ProposalIsWhole(start, latest, avg, max);
    }
  }

  /** An arriving checkpoint keeps the tiling exactly if it starts at the next child block:
      what the contract has to refuse, and no more. */
  lemma {:induction false} TilingIffContinued(chain: RootChain, i: nat, avg: uint64, max: uint64)
    requires ValidLengths(avg, max) && Tiled(chain, avg, max) && AllSentOk(chain, avg, max) && i < |chain.sent|
    ensures Tiled(Act(chain, Arrive(i), avg, max, false), avg, max) <==> chain.sent[i].range.from == NextChildBlock(chain)
  {
    hide Tiles, Fits;
    var range := chain.sent[i].range;
    assert SentOk(chain.sent[i], avg, max);
    OneTile(range, NextChildBlock(chain), range.to);
    var committed := chain.committed + [range];
    assert committed[|chain.committed|] == range && forall k :: 0 <= k < |chain.committed| ==> committed[k] == chain.committed[k];
    if chain.committed == [] {
      assert committed == [range];
    } else {
      TilesConcat(chain.committed, [range], 0, chain.lastChildBlock, range.to);
    }
  }

  /** Whether the contract accepts a checkpoint on its way: exactly if no other one has been
      committed since its sender asked. */
  lemma RefusedIffOvertaken(chain: RootChain, i: nat, avg: uint64, max: uint64)
    requires ValidLengths(avg, max) && Tiled(chain, avg, max) && AllSentOk(chain, avg, max) && i < |chain.sent|
    ensures chain.sent[i].range.from == NextChildBlock(chain) <==> chain.lastChildBlock == chain.sent[i].seenLast
  {
    hide Tiles;
    assert SentOk(chain.sent[i], avg, max);
  }

  lemma {:induction false} ActKeepsTiling(chain: RootChain, a: Action, avg: uint64, max: uint64)
    requires ValidLengths(avg, max) && max % avg == 0 && Tiled(chain, avg, max) && AllSentOk(chain, avg, max)
    requires a.Check? ==> a.seenEnd + max < MAX_UINT64
    ensures Tiled(Act(chain, a, avg, max, true), avg, max) && AllSentOk(Act(chain, a, avg, max, true), avg, max)
  {
    hide NextEnd, Tiled;
    match a
    case Check(seenEnd, latest) => CheckKeepsTiling(chain, seenEnd, latest, avg, max, true);
    case Arrive(i) =>
      if i < |chain.sent| {
        TilingIffContinued(chain, i, avg, max);
      }
  }

  /** Whatever stale, lagging or competing checkpoints are checked, and in whatever order
      their transactions arrive later, a contract with its guard holds a tiling of the child
      chain from its first block, in pieces of proper length. */
  lemma {:induction false} CommittedCheckpointsTile(chain: RootChain, actions: seq<Action>, avg: uint64, max: uint64)
    requires ValidLengths(avg, max) && max % avg == 0 && Tiled(chain, avg, max) && AllSentOk(chain, avg, max)
    requires forall i :: 0 <= i < |actions| ==> actions[i].Check? ==> actions[i].seenEnd + max < MAX_UINT64
    ensures Tiled(ActAll(chain, actions, avg, max, true), avg, max)
    ensures AllSentOk(ActAll(chain, actions, avg, max, true), avg, max)
    decreases |actions|
  {
    hide Act, Tiled, AllSentOk;
    if actions != [] {
      ActKeepsTiling(chain, actions[0], avg, max);
      CommittedCheckpointsTile(Act(chain, actions[0], avg, max, true), actions[1..], avg, max);
    }
  }

  /** The check alone is not enough: two senders that both ask before either transaction
      arrives would commit the same blocks twice. */
  lemma CheckAloneLetsTwoIn()
    ensures
      var start := RootChain(0, [], []);
      var both := Act(Act(start, Check(0, 255), 256, 1024, false), Check(0, 255), 256, 1024, false);
      var first := Act(both, Arrive(0), 256, 1024, false);
      && Tiled(start, 256, 1024) && |both.sent| == 2
      && Tiled(first, 256, 1024) && !Tiled(Act(first, Arrive(1), 256, 1024, false), 256, 1024)
  {
    hide Tiles, Act;
    var one, two := [Pending(Range(0, 255), 0)], [Pending(Range(0, 255), 0), Pending(Range(0, 255), 0)];
    TwoSendersAsk([]);
    TwoSendersAsk(one);
    assert [] + one == one && one + one == two;
    var both := RootChain(0, [], two);
    OneArrives(both, 0);
    var first := both.(lastChildBlock := 255, committed := [Range(0, 255)]);
    assert [] + [Range(0, 255)] == [Range(0, 255)];
    TilingIffContinued(both, 0, 256, 1024);
    TilingIffContinued(first, 1, 256, 1024);
  }

  lemma TwoSendersAsk(sent: seq<Pending>)
    ensures Act(RootChain(0, [], sent), Check(0, 255), 256, 1024, false) == RootChain(0, [], sent + [Pending(Range(0, 255), 0)])
  {
    hide NextEnd, Guarded;
    FirstAverageLength();
    assert NextStart(0) == 0;
  }

  lemma FirstAverageLength()
    ensures NextEnd(0, 255, 256, 1024) == 255 && Guarded(0, 255, 1024) == Proposed(Range(0, 255))
  {
    assert Wrap(Wrap(255 - 0) + 1) == 256;
  }

  lemma OneArrives(chain: RootChain, i: nat)
    requires i < |chain.sent| && chain.sent[i].range == Range(0, 255)
    ensures Act(chain, Arrive(i), 256, 1024, false) == chain.(lastChildBlock := 255, committed := chain.committed + [Range(0, 255)])
  {
  }
}
