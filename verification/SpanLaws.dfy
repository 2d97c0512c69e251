/** When spans are created and by whom they are produced, said of the schedule step as a whole:
    milestones keep a span scheduled ahead, overdue rotations do fire, and producers take
    turns around planned downtime. */
module SpanLaws {
  import opened Prelude
  import opened SpanSchedule
  import opened SpanRuns

  // ----- the span ahead -----

  /** Some scheduled span lies wholly behind the last milestone. */
  ghost predicate SpanAhead(s: Schedule) {
    s.spans != [] && (s.milestone.Some? ==> s.milestone.value < Last(s.spans).start)
  }

  /** A milestone appends a span exactly if it has reached the start of the last one, so that
      afterwards there is a span ahead of it; it clears the failed producers and makes its
      supporters the active ones. */
  lemma MilestoneSchedules(cfg: Config, s: Schedule, h: nat, ev: Event)
    requires Runway(s) && Admissible(cfg, s, ev) && cfg.spanDuration > 0
    requires ev.majority.Some?
    requires AddMilestone(cfg, s, ev.choice, h, ev.majority.value, ev.supporters).Some?
    ensures
      var s' := AddMilestone(cfg, s, ev.choice, h, ev.majority.value, ev.supporters).value;
      && s'.milestone == ev.majority && SpanAhead(s')
      && (s'.spans != s.spans <==> ev.majority.value >= Last(s.spans).start)
      && s'.failed == {} && s'.active == ev.supporters && s'.lastMilestoneBlock == h
      && s'.lastSpanBlock == (if s'.spans != s.spans then h else s.lastSpanBlock)
  {
    hide SelectNext, U64;
    MilestoneKeepsRunway(cfg, s, h, ev);
    var last := Last(s.spans);
    NoWrap(last.end + 1);
    NoWrap(last.end + cfg.spanDuration);
  }

  /** Every step keeps a span ahead, as long as no head behind the milestone is agreed on. */
  lemma StepKeepsSpanAhead(cfg: Config, s: Schedule, h: nat, ev: Event)
    requires Runway(s) && Admissible(cfg, s, ev) && cfg.spanDuration > 0
    requires PreBlock(cfg, s, h, ev).Some?
    requires s.milestone.Some? && Observed(cfg, s, h, ev).Some? ==> Observed(cfg, s, h, ev).value.0 >= s.milestone.value
    ensures
      var o := PreBlock(cfg, s, h, ev).value;
      SpanAhead(s) || o.action == NewMilestone ==> SpanAhead(o.next)
  {
    hide Owner, SelectNext, U64, PendingEnd;
    var o := PreBlock(cfg, s, h, ev).value;
    match o.action {
      case Idle => QuietStep(cfg, s, h, ev);
      case NewMilestone => MilestoneSchedules(cfg, s, h, ev);
      case RotatedCurrent => CurrentRotationShape(cfg, s, ev.choice, h);
      case RotatedPending(head, id) => PendingRotationShape(cfg, s, ev.choice, h, head, id);
    }
  }

  /** From the first milestone step of a run on there is always a span ahead of the last
      milestone. */
  lemma {:induction false} SpanAlwaysAhead(r: Run, i: nat, k: nat)
    requires IsRun(r) && AdmissibleRun(r) && Runway(r.states[0]) && HeadsNotBehind(r)
    requires i < k < |r.states| && r.actions[i] == NewMilestone
    ensures SpanAhead(r.states[k])
    decreases k
  {
    hide PreBlock, Runway, Admissible, Observed, SpanAhead;
    if i < k - 1 {
      SpanAlwaysAhead(r, i, k - 1);
    }
    RunwayAlways(r, k - 1);
    assert StepOf(r, k - 1) == Some(Outcome(r.states[k], r.actions[k - 1]));
    StepKeepsSpanAhead(r.cfg, r.states[k - 1], r.first + k - 1, r.events[k - 1]);
  }

  /** A majority milestone is recorded in its block, except exactly right behind a block in
      which a span was created. */
  lemma MilestoneTakenIff(cfg: Config, s: Schedule, h: nat, ev: Event)
    requires s.spans != [] && cfg.spanDuration > 0 && PreBlock(cfg, s, h, ev).Some?
    ensures PreBlock(cfg, s, h, ev).value.action == NewMilestone <==> ev.majority.Some? && h != s.lastSpanBlock + 1
  {
    hide Owner, SelectNext, PendingEnd, SpanEnd;
  }

  lemma SpanBlockRecorded(cfg: Config, s: Schedule, h: nat, ev: Event)
    requires s.spans != [] && cfg.spanDuration > 0 && PreBlock(cfg, s, h, ev).Some?
    requires PreBlock(cfg, s, h, ev).value.next.spans != s.spans
    ensures PreBlock(cfg, s, h, ev).value.next.lastSpanBlock == h
  {
    hide Owner, SelectNext, PendingEnd, SpanEnd;
  }

  /** So no two consecutive blocks of a run create a span and record a milestone. */
  lemma NoMilestoneRightAfterSpan(r: Run, i: nat)
    requires IsRun(r) && i + 1 < |r.events|
    requires r.states[i + 1].spans != r.states[i].spans
    ensures r.actions[i + 1] != NewMilestone
  {
    hide PreBlock;
    assert StepOf(r, i) == Some(Outcome(r.states[i + 1], r.actions[i]));
    assert StepOf(r, i + 1) == Some(Outcome(r.states[i + 1 + 1], r.actions[i + 1]));
    SpanBlockRecorded(r.cfg, r.states[i], r.first + i, r.events[i]);
    MilestoneTakenIff(r.cfg, r.states[i + 1], r.first + i + 1, r.events[i + 1]);
  }

  // ----- rotations fire -----

  /** The current span is rotated exactly if the last milestone is more than five heights
      (later ten) back and another candidate than the current producer has been elected. */
  lemma CurrentRotationFiresIff(cfg: Config, s: Schedule, ch: Choice, h: nat, current: nat)
    requires s.spans != [] && cfg.spanDuration > 0 && ch.electionOk && ch.storeOk
    requires s.milestone.Some? && s.lastMilestoneBlock > 0 && Owner(s.spans, s.milestone.value + 1) == Some(current)
    ensures RotateCurrent(cfg, s, ch, h).Some?
    ensures RotateCurrent(cfg, s, ch, h).value.action == RotatedCurrent <==>
      && h > s.lastMilestoneBlock + (if h >= cfg.downtimeHeight then 10 else 5)
      && exists c :: c in ch.candidates && c != current
    ensures RotateCurrent(cfg, s, ch, h).value.action != RotatedCurrent ==> RotateCurrent(cfg, s, ch, h).value.next == s
  {
    hide Owner, SpanEnd, SelectNext, Pool;
    if MilestoneOverdue(cfg, s, h) {
      CurrentRotationPicks(cfg, s, ch, h);
      var pool := Pool(s, ch.candidates, current);
      if exists c :: c in ch.candidates && c != current {
        var c :| c in ch.candidates && c != current;
        PoolAre(s, ch.candidates, current, c);
      } else if pool != [] {
        PoolAre(s, ch.candidates, current, pool[0]);
      }
    }
  }

  /** It takes the blocks from behind the milestone to its end away from their producers, and no
      others; the producer of the first of them becomes a failed one; the clock is put
      ahead by ten heights (later twenty). */
  lemma CurrentRotationOwnership(cfg: Config, s: Schedule, ch: Choice, h: nat, block: nat)
    requires Runway(s) && cfg.spanDuration > 0 && Last(s.spans).end < TWO_64
    requires RotateCurrent(cfg, s, ch, h).Some? && RotateCurrent(cfg, s, ch, h).value.action == RotatedCurrent
    ensures
      var s' := RotateCurrent(cfg, s, ch, h).value.next;
      var added := Last(s'.spans);
      && Owner(s'.spans, block) == (if s.milestone.value < block <= added.end then Some(added.producer) else Owner(s.spans, block))
      && Owner(s.spans, added.start).Some? && added.producer != Owner(s.spans, added.start).value
      && s'.failed == s.failed + {Owner(s.spans, added.start).value} && s'.active == s.active
      && s'.lastMilestoneBlock == h + (if h >= cfg.downtimeHeight then 20 else 10)
  {
    CurrentRotationShape(cfg, s, ch, h);
    hide Runway, SpanEnd, SelectNext;
    var s' := RotateCurrent(cfg, s, ch, h).value.next;
    var current := Owner(s.spans, s.milestone.value + 1).value;
    OwnerOfNew(s.spans, Last(s'.spans), block);
    SelectionNeedsElection(ch, current, s.active - s.failed - {current}, s.milestone.value + 1,
                           SpanEnd(Last(s.spans).end, s.milestone.value, cfg.spanDuration));
    CurrentRotationPicks(cfg, s, ch, h);
    PoolAre(s, ch.candidates, current, Last(s'.spans).producer);
  }

  /** A pending-stall rotation fires exactly if the clock has been running on this very head for
      more than five heights (later ten) and an elected candidate is neither failed nor the
      stalled producer. */
  lemma PendingRotationFiresIff(cfg: Config, s: Schedule, ch: Choice, h: nat, head: nat, id: bytes, stalled: nat)
    requires s.spans != [] && cfg.spanDuration > 0 && Last(s.spans).end + cfg.spanDuration < TWO_64 && head <= Last(s.spans).end
    requires ch.electionOk && ch.storeOk && StalledProducer(s.spans, head) == Some(stalled)
    ensures OnPendingHead(cfg, s, ch, h, head, id).Some?
    ensures OnPendingHead(cfg, s, ch, h, head, id).value.action == RotatedPending(head, id) <==>
      && s.tracking.height > 0 && s.tracking.block == head && s.tracking.id == id
      && h > s.tracking.height + (if h >= cfg.downtimeHeight then 10 else 5)
      && exists c :: c in ch.candidates && c !in s.failed && c != stalled
  {
    hide StalledProducer, SelectNext;
    PendingEndExists(Last(s.spans).end, head, cfg.spanDuration);
    var end := PendingEnd(Last(s.spans).end, head, cfg.spanDuration).value;
    SelectionExists(ch, stalled, s.active, head + 1, end, {stalled} + s.failed);
  }

  lemma PendingEndExists(end: nat, head: nat, duration: nat)
    requires head <= end && duration > 0 && end + duration < TWO_64
    ensures PendingEnd(end, head, duration).Some?
  {
  }

  /** Somebody is selected exactly if an elected candidate is not excluded; the current
      producer counts only if it is active. */
  lemma {:induction false} SelectionExists(ch: Choice, current: nat, active: set<nat>, start: nat, end: nat, excluded: set<nat>)
    requires ch.electionOk && current in excluded
    ensures SelectNext(ch, current, active, start, end, excluded, false).Some? <==> exists c :: c in ch.candidates && c !in excluded
  {
    hide Walk, StartIndex;
    var preferred := Without(Keep(ch.candidates, active), excluded);
    var others := Without(Without(ch.candidates, {current}), excluded);
    if exists c :: c in ch.candidates && c !in excluded {
      var c :| c in ch.candidates && c !in excluded;
      KeepAre(ch.candidates, {current}, c);
      KeepAre(Without(ch.candidates, {current}), excluded, c);
    } else {
      if preferred != [] {
        KeepAre(Keep(ch.candidates, active), excluded, preferred[0]);
        KeepAre(ch.candidates, active, preferred[0]);
      } else if others != [] {
        KeepAre(Without(ch.candidates, {current}), excluded, others[0]);
        KeepAre(ch.candidates, {current}, others[0]);
      }
    }
  }

  /** The stalled producer is the one in charge of the next block, or of the last block when
      no next one is scheduled yet. */
  lemma StalledIsNextOwner(s: Schedule, head: nat)
    requires Runway(s) && s.spans[0].start <= head + 1 && head <= Last(s.spans).end
    ensures head < Last(s.spans).end ==> StalledProducer(s.spans, head) == Owner(s.spans, head + 1)
    ensures head == Last(s.spans).end ==> StalledProducer(s.spans, head) == Owner(s.spans, Last(s.spans).end)
    ensures StalledProducer(s.spans, head).Some?
  {
    StalledProducerFound(s, head);
    if head < Last(s.spans).end {
      assert Owner(s.spans, head + 1).Some?;
    }
  }

  /** An agreed head up to the end of the schedule is tracked from its block on, whatever the
      rotation does. */
  lemma PendingHeadIsTracked(cfg: Config, s: Schedule, h: nat, ev: Event)
    requires s.spans != [] && cfg.spanDuration > 0 && PreBlock(cfg, s, h, ev).Some?
    requires ev.pending && cfg.ithacaHeight > 0 && h >= cfg.ithacaHeight
    requires ev.head.Some? && ev.head.value.0 <= Last(s.spans).end
    ensures
      var o := PreBlock(cfg, s, h, ev).value;
      o.action == NewMilestone || (o.next.tracking.block, o.next.tracking.id) == ev.head.value
    ensures
      var o := PreBlock(cfg, s, h, ev).value;
      o.action != NewMilestone && (s.tracking.height == 0 || ev.head.value != (s.tracking.block, s.tracking.id)) ==>
        o.action == Idle && o.next == s.(tracking := Tracking(ev.head.value.0, ev.head.value.1, h))
  {
    hide Owner, SelectNext, PendingEnd, SpanEnd;
  }

  /** With a pending milestone the current span is left to its producer; without one, and without
      a new milestone, the rotation of the current span decides. */
  lemma PendingHoldsRotation(cfg: Config, s: Schedule, h: nat, ev: Event)
    requires s.spans != [] && cfg.spanDuration > 0 && PreBlock(cfg, s, h, ev).Some?
    ensures ev.pending ==> PreBlock(cfg, s, h, ev).value.action != RotatedCurrent
    ensures !ev.pending ==> !PreBlock(cfg, s, h, ev).value.action.RotatedPending?
    ensures !ev.pending && (ev.majority.None? || h == s.lastSpanBlock + 1) ==> PreBlock(cfg, s, h, ev) == RotateCurrent(cfg, s, ev.choice, h)
  {
    hide Owner, SelectNext, PendingEnd, SpanEnd;
  }

  // ----- who produces -----

  /** The walk passes over candidates that are down as long as one is not. */
  lemma {:induction false} WalkAvoidsDown(ch: Choice, cs: seq<nat>, from: nat, i: nat, k: nat, start: nat, end: nat)
    requires cs != [] && i <= k < |cs| && !IsDown(ch, cs[(from + k) % |cs|], start, end)
    ensures !IsDown(ch, Walk(ch, cs, from, i, start, end), start, end)
    decreases k - i
  {
    if IsDown(ch, cs[(from + i) % |cs|], start, end) {
      WalkAvoidsDown(ch, cs, from, i + 1, k, start, end);
    }
  }

  lemma PositionFrom(n: nat, from: nat, q: nat) returns (k: nat)
    requires from < n && q < n
    ensures k < n && (from + k) % n == q
  {
    k := if q >= from then q - from else q + n - from;
  }

  lemma {:induction false} StartIndexInRange(cs: seq<nat>, current: nat, i: nat)
    requires cs != [] && i <= |cs|
    ensures StartIndex(cs, current, i) < |cs|
    decreases |cs| - i
  {
    if i < |cs| { StartIndexInRange(cs, current, i + 1); }
  }

  /** Active candidates that are not excluded come first, and of them those not planned to be
      down: a down or an inactive producer is selected only if there is no better one. */
  lemma SelectionPrefers(ch: Choice, current: nat, active: set<nat>, start: nat, end: nat, excluded: set<nat>, recover: bool, c: nat)
    requires ch.electionOk && c in ch.candidates && c in active && c !in excluded
    ensures
      var p := SelectNext(ch, current, active, start, end, excluded, recover);
      && p.Some? && p.value in active && p.value !in excluded && p.value in ch.candidates
      && (!IsDown(ch, c, start, end) ==> !IsDown(ch, p.value, start, end))
  {
    hide Walk, StartIndex, IsDown;
    var preferred := Without(Keep(ch.candidates, active), excluded);
    KeepAre(ch.candidates, active, c);
    KeepAre(Keep(ch.candidates, active), excluded, c);
    var from := StartIndex(preferred, current, 0);
    var p := Walk(ch, preferred, from, 0, start, end);
    KeepAre(Keep(ch.candidates, active), excluded, p);
    KeepAre(ch.candidates, active, p);
    StartIndexInRange(preferred, current, 0);
    var q :| 0 <= q < |preferred| && preferred[q] == c;
    var k := PositionFrom(|preferred|, from, q);
    if !IsDown(ch, c, start, end) {
      WalkAvoidsDown(ch, preferred, from, 0, k, start, end);
    }
  }

  lemma {:induction false} StartIndexFound(cs: seq<nat>, current: nat, i: nat, k: nat)
    requires i <= k < |cs| && cs[k] == current && forall j :: 0 <= j < k ==> cs[j] != current
    ensures StartIndex(cs, current, i) == (k + 1) % |cs|
    decreases k - i
  {
    if i < k { StartIndexFound(cs, current, i + 1, k); }
  }

  lemma ModSmall(x: nat, n: nat)
    requires x < n
    ensures (x + 0) % n == x
  {
  }

  /** Producers take turns: the candidate behind the current producer is next, round and round,
      unless it is planned to be down. */
  lemma NextInTurn(ch: Choice, cs: seq<nat>, current: nat, k: nat, start: nat, end: nat)
    requires k < |cs| && cs[k] == current && forall j :: 0 <= j < k ==> cs[j] != current
    requires !IsDown(ch, cs[(k + 1) % |cs|], start, end)
    ensures Walk(ch, cs, StartIndex(cs, current, 0), 0, start, end) == cs[(k + 1) % |cs|]
  {
    StartIndexFound(cs, current, 0, k);
    StartIndexInRange(cs, current, 0);
    ModSmall(StartIndex(cs, current, 0), |cs|);
  }

  /** Planned downtime is an interval of blocks; a producer is down for a span if they meet. */
  lemma DownIff(ch: Choice, p: nat, start: nat, end: nat)
    requires start <= end && (p in ch.downtime ==> ch.downtime[p].0 <= ch.downtime[p].1)
    ensures IsDown(ch, p, start, end) <==>
      p in ch.downtime && exists b :: Within(start, b, end) && Within(ch.downtime[p].0, b, ch.downtime[p].1)
  {
    if IsDown(ch, p, start, end) {
      var b := if start >= ch.downtime[p].0 then start else ch.downtime[p].0;
      assert Within(start, b, end) && Within(ch.downtime[p].0, b, ch.downtime[p].1);
    }
  }

  predicate Within(from: nat, b: nat, to: nat) {
    from <= b <= to
  }

  /** After the fork a future span is appended even if nobody was elected, as long as anybody can
      be recovered; before it, not. */
  lemma FutureSpanRecovers(cfg: Config, s: Schedule, ch: Choice, h: nat, milestoneEnd: nat, supporters: set<nat>)
    requires Runway(s) && ch.electionOk && ch.storeOk && ch.candidates == [] && milestoneEnd >= Last(s.spans).start
    ensures FutureSpan(cfg, s, ch, h, milestoneEnd, supporters).Some? <==>
      ch.recovery != [] && cfg.ithacaHeight > 0 && h >= cfg.ithacaHeight
  {
    hide Walk, StartIndex;
    assert Owner(s.spans, Last(s.spans).end).Some?;
  }
}
