/** Whole runs of the schedule: the runway invariant, who owns which block, and the
    spacing of forced rotations. */
module SpanRuns {
  import opened Prelude
  import opened SpanSchedule

  // ----- the runway -----

  ghost predicate Covered(spans: seq<Span>) {
    spans != [] && forall b: nat :: spans[0].start <= b <= Last(spans).end ==> Owner(spans, b).Some?
  }

  /** Every block from the first span's start to the last span's end has an owner, the
      last span is not empty, and the last milestone ends before it does. */
  ghost predicate Runway(s: Schedule) {
    && Covered(s.spans)
    && Last(s.spans).start <= Last(s.spans).end
    && (s.milestone.Some? ==> s.spans[0].start <= s.milestone.value + 1 && s.milestone.value < Last(s.spans).end)
  }

  /** What is assumed of the outside: a milestone lies behind the previous one and within
      the scheduled spans, and the next span still has a 64-bit end. */
  ghost predicate Admissible(cfg: Config, s: Schedule, ev: Event)
    requires s.spans != []
  {
    && Last(s.spans).end + cfg.spanDuration < TWO_64
    && (ev.majority.Some? ==>
          && s.spans[0].start <= ev.majority.value + 1
          && ev.majority.value <= Last(s.spans).end
          && (s.milestone.Some? ==> s.milestone.value < ev.majority.value))
  }

  lemma CoveredByOneMore(spans: seq<Span>, added: Span)
    requires Covered(spans)
    requires added.start <= Last(spans).end + 1
    ensures Covered(spans + [added])
  {
    var all := spans + [added];
    assert Last(all) == added && all[0] == spans[0];
    forall b: nat | all[0].start <= b <= added.end ensures Owner(all, b).Some? {
      OwnerOfNew(spans, added, b);
    }
  }

  /** What a span-creating step adds. */
  lemma AddedSpan(s: Schedule, ch: Choice, h: nat, current: nat, start: nat, end: nat, active: set<nat>, excluded: set<nat>, recover: bool)
    requires AddSpan(s, ch, h, current, start, end, active, excluded, recover).Some?
    ensures var s' := AddSpan(s, ch, h, current, start, end, active, excluded, recover).value;
      && |s'.spans| == |s.spans| + 1
      && s'.spans == s.spans + [Last(s'.spans)]
      && Last(s'.spans).start == start && Last(s'.spans).end == end
      && Some(Last(s'.spans).producer) == SelectNext(ch, current, active, start, end, excluded, recover)
      && s' == s.(spans := s'.spans, lastSpanBlock := h)
  {
  }

  lemma PendingEndIsAbove(end: nat, head: nat, duration: nat)
    requires head <= end && PendingEnd(end, head, duration).Some?
    ensures PendingEnd(end, head, duration).value == if head < end then end else end + duration
    ensures head < PendingEnd(end, head, duration).value
  {
  }

  lemma StalledProducerFound(s: Schedule, head: nat)
    requires Runway(s) && head <= Last(s.spans).end
    ensures StalledProducer(s.spans, head).Some?
  {
    var block := StalledBlock(s.spans, head);
    if block < s.spans[0].start {
      assert Owner(s.spans, Last(s.spans).start).Some?;
    } else {
      assert Owner(s.spans, block).Some?;
    }
  }

  lemma MilestoneKeepsRunway(cfg: Config, s: Schedule, h: nat, ev: Event)
    requires Runway(s) && Admissible(cfg, s, ev) && cfg.spanDuration > 0
    requires ev.majority.Some?
    requires AddMilestone(cfg, s, ev.choice, h, ev.majority.value, ev.supporters).Some?
    ensures var s' := AddMilestone(cfg, s, ev.choice, h, ev.majority.value, ev.supporters).value;
      && Runway(s') && s'.spans[0] == s.spans[0] && s'.milestone == ev.majority
      && (s'.spans == s.spans
          || (s'.spans == s.spans + [Last(s'.spans)] && Last(s'.spans).start == Last(s.spans).end + 1
              && Last(s'.spans).end == Last(s.spans).end + cfg.spanDuration))
  {
    hide U64, SelectNext;
    var last := Last(s.spans);
    NoWrap(last.end + 1);
    NoWrap(last.end + cfg.spanDuration);
    var s1 := s.(milestone := ev.majority, lastMilestoneBlock := h, active := ev.supporters, failed := {});
    if ev.majority.value >= last.start {
      var current := Owner(s.spans, last.end).value;
      AddedSpan(s1, ev.choice, h, current, U64(last.end + 1), U64(last.end + cfg.spanDuration), ev.supporters, {}, Ithaca(cfg, h));
      CoveredByOneMore(s.spans, Span(last.end + 1, last.end + cfg.spanDuration,
        SelectNext(ev.choice, current, ev.supporters, U64(last.end + 1), U64(last.end + cfg.spanDuration), {}, Ithaca(cfg, h)).value));
    }
  }

  /** A span forced by checkAndRotateCurrentSpan starts right behind the milestone, is not
      empty, is at most two span lengths long, and ends a whole number of span lengths
      before the old end. */
  lemma CurrentRotationShape(cfg: Config, s: Schedule, ch: Choice, h: nat)
    requires Runway(s) && cfg.spanDuration > 0 && Last(s.spans).end < TWO_64
    requires RotateCurrent(cfg, s, ch, h).Some? && RotateCurrent(cfg, s, ch, h).value.action == RotatedCurrent
    ensures var s' := RotateCurrent(cfg, s, ch, h).value.next;
      var added := Last(s'.spans);
      && s'.spans == s.spans + [added]
      && s'.milestone == s.milestone
      && added.start == s.milestone.value + 1
      && added.start <= added.end <= Last(s.spans).end
      && added.end - added.start + 1 <= 2 * cfg.spanDuration
      && (if Last(s.spans).end - s.milestone.value <= 2 * cfg.spanDuration then added.end == Last(s.spans).end
          else added.end - added.start + 1 > cfg.spanDuration)
      && Last(s.spans).end - added.end == ShrinkSteps(Last(s.spans).end - s.milestone.value, cfg.spanDuration) * cfg.spanDuration
  {
    hide SelectNext;
    var m, last := s.milestone.value, Last(s.spans);
    NoWrap(last.end - m);
    ShrinkIsTight(last.end - m, cfg.spanDuration);
    ShrinkIsCongruent(last.end - m, cfg.spanDuration);
    var current := Owner(s.spans, m + 1).value;
    AddedSpan(s, ch, h, current, m + 1, SpanEnd(last.end, m, cfg.spanDuration), s.active - s.failed - {current}, {}, false);
  }

  /** A span minted from the pending head covers the old runway. */
  lemma PendingRotationShape(cfg: Config, s: Schedule, ch: Choice, h: nat, head: nat, id: bytes)
    requires s.spans != []
    requires RotatePending(cfg, s, ch, h, head, id).Some?
    requires RotatePending(cfg, s, ch, h, head, id).value.action == RotatedPending(head, id)
    ensures var s' := RotatePending(cfg, s, ch, h, head, id).value.next;
      var added := Last(s'.spans);
      && s'.spans == s.spans + [added]
      && s'.milestone == s.milestone
      && head <= Last(s.spans).end
      && added.start == head + 1
      && added.start <= added.end && Last(s.spans).end <= added.end
      && StalledProducer(s.spans, head).Some?
      && added.producer !in s.failed
      && added.producer != StalledProducer(s.spans, head).value
      && s'.failed == s.failed + {StalledProducer(s.spans, head).value}
  {
    hide SelectNext;
    var last := Last(s.spans);
    PendingEndIsAbove(last.end, head, cfg.spanDuration);
    var end := PendingEnd(last.end, head, cfg.spanDuration).value;
    var current := StalledProducer(s.spans, head).value;
    AddedSpan(s, ch, h, current, head + 1, end, s.active, {current} + s.failed, false);
    SelectionHonoursExclusion(ch, current, s.active, head + 1, end, {current} + s.failed);
  }

  /** A step without a rotation leaves spans and milestone alone. */
  lemma QuietStep(cfg: Config, s: Schedule, h: nat, ev: Event)
    requires s.spans != [] && cfg.spanDuration > 0
    requires PreBlock(cfg, s, h, ev).Some? && PreBlock(cfg, s, h, ev).value.action == Idle
    ensures var s' := PreBlock(cfg, s, h, ev).value.next;
      s' == s.(tracking := s'.tracking)
  {
    hide AddSpan, Owner, PendingEnd;
  }

  /** Every step keeps the runway. */
  lemma StepKeepsRunway(cfg: Config, s: Schedule, h: nat, ev: Event)
    requires Runway(s) && Admissible(cfg, s, ev) && cfg.spanDuration > 0
    requires PreBlock(cfg, s, h, ev).Some?
    ensures Runway(PreBlock(cfg, s, h, ev).value.next)
    ensures PreBlock(cfg, s, h, ev).value.next.spans[0] == s.spans[0]
  {
    hide Owner, SelectNext;
    var o := PreBlock(cfg, s, h, ev).value;
    match o.action {
      case Idle => QuietStep(cfg, s, h, ev);
      case NewMilestone => MilestoneKeepsRunway(cfg, s, h, ev);
      case RotatedCurrent =>
        CurrentRotationShape(cfg, s, ev.choice, h);
        CoveredByOneMore(s.spans, Last(o.next.spans));
      case RotatedPending(head, id) =>
        PendingRotationShape(cfg, s, ev.choice, h, head, id);
        CoveredByOneMore(s.spans, Last(o.next.spans));
    }
  }

  /** On a covered schedule every producer lookup succeeds, so the only error is a future
      span for which no producer can be selected or stored. */
  lemma OnlySelectionFails(cfg: Config, s: Schedule, h: nat, ev: Event)
    requires Runway(s) && Admissible(cfg, s, ev) && cfg.spanDuration > 0
    requires PreBlock(cfg, s, h, ev).None?
    ensures AddsMilestone(s, h, ev) && ev.majority.value >= Last(s.spans).start
    ensures Owner(s.spans, Last(s.spans).end).Some?
    ensures || !ev.choice.storeOk
            || SelectNext(ev.choice, Owner(s.spans, Last(s.spans).end).value, ev.supporters,
                          U64(Last(s.spans).end + 1), U64(Last(s.spans).end + cfg.spanDuration), {}, Ithaca(cfg, h)).None?
  {
    hide SelectNext, U64, PendingEnd;
    var seen := Observed(cfg, s, h, ev);
    if seen.Some? {
      StalledProducerFound(s, seen.value.0);
    }
  }

  // ----- runs -----

  /** A run: one PreBlocker per height, from height `first` on, over at least one span. */
  datatype Run = Run(cfg: Config, first: nat, states: seq<Schedule>, events: seq<Event>, actions: seq<Action>)

  ghost predicate IsRun(r: Run) {
    && r.cfg.spanDuration > 0
    && |r.states| == |r.events| + 1 == |r.actions| + 1
    && (forall i :: 0 <= i < |r.states| ==> r.states[i].spans != [])
    && (forall i :: 0 <= i < |r.events| ==> StepOf(r, i) == Some(Outcome(r.states[i + 1], r.actions[i])))
  }

  ghost function StepOf(r: Run, i: nat): Option<Outcome>
    requires r.cfg.spanDuration > 0 && i < |r.events| && i < |r.states| && r.states[i].spans != []
  {
    PreBlock(r.cfg, r.states[i], r.first + i, r.events[i])
  }

  ghost predicate AdmissibleRun(r: Run)
    requires IsRun(r)
  {
    forall i :: 0 <= i < |r.events| ==> Admissible(r.cfg, r.states[i], r.events[i])
  }

  /** The runway holds in every state of every run that starts on one. */
  lemma {:induction false} RunwayAlways(r: Run, k: nat)
    requires IsRun(r) && AdmissibleRun(r) && Runway(r.states[0])
    requires k < |r.states|
    ensures Runway(r.states[k]) && r.states[k].spans[0] == r.states[0].spans[0]
  {
    hide PreBlock, Runway, Admissible;
    if k > 0 {
      RunwayAlways(r, k - 1);
      assert StepOf(r, k - 1) == Some(Outcome(r.states[k], r.actions[k - 1]));
      StepKeepsRunway(r.cfg, r.states[k - 1], r.first + k - 1, r.events[k - 1]);
    }
  }

  // ----- ownership -----

  /** A pending-stall rotation changes ownership exactly on the blocks behind the head, up
      to the new end, which lies at or past the old one: all of them go to a producer that
      was neither stalled nor failed. */
  lemma PendingRotationOwnership(cfg: Config, s: Schedule, ch: Choice, h: nat, head: nat, id: bytes, block: nat)
    requires s.spans != []
    requires RotatePending(cfg, s, ch, h, head, id).Some?
    requires RotatePending(cfg, s, ch, h, head, id).value.action == RotatedPending(head, id)
    ensures var s' := RotatePending(cfg, s, ch, h, head, id).value.next;
      && Last(s.spans).end <= Last(s'.spans).end
      && Owner(s'.spans, block) == (if head < block <= Last(s'.spans).end then Some(Last(s'.spans).producer) else Owner(s.spans, block))
      && Last(s'.spans).producer !in s.failed + {StalledProducer(s.spans, head).value}
  {
    PendingRotationShape(cfg, s, ch, h, head, id);
    OwnerOfNew(s.spans, Last(RotatePending(cfg, s, ch, h, head, id).value.next.spans), block);
  }

  /** It leaves all finalized blocks with their owners if and only if the agreed head is
      not behind the last milestone. */
  lemma FinalizedKeptIffHeadNotBehind(cfg: Config, s: Schedule, ch: Choice, h: nat, head: nat, id: bytes)
    requires Runway(s) && s.milestone.Some?
    requires RotatePending(cfg, s, ch, h, head, id).Some?
    requires RotatePending(cfg, s, ch, h, head, id).value.action == RotatedPending(head, id)
    ensures var s' := RotatePending(cfg, s, ch, h, head, id).value.next;
      (forall b: nat :: b <= s.milestone.value ==> Owner(s'.spans, b) == Owner(s.spans, b)) <==> head >= s.milestone.value
  {
    var s' := RotatePending(cfg, s, ch, h, head, id).value.next;
    PendingRotationShape(cfg, s, ch, h, head, id);
    hide RotatePending;
    var added := Last(s'.spans);
    forall b: nat ensures Owner(s'.spans, b) == if added.start <= b <= added.end then Some(added.producer) else Owner(s.spans, b) {
      OwnerOfNew(s.spans, added, b);
    }
    if head < s.milestone.value {
      assert Owner(s'.spans, head + 1) == Some(added.producer);
      assert StalledBlock(s.spans, head) == head + 1;
      assert Owner(s.spans, head + 1) != Some(added.producer);
    }
  }

  /** The agreed head is never behind the last milestone. */
  ghost predicate HeadsNotBehind(r: Run)
    requires IsRun(r)
  {
    forall i :: 0 <= i < |r.events| && r.states[i].milestone.Some? && Observed(r.cfg, r.states[i], r.first + i, r.events[i]).Some? ==>
      Observed(r.cfg, r.states[i], r.first + i, r.events[i]).value.0 >= r.states[i].milestone.value
  }

  lemma StepKeepsFinalized(cfg: Config, s: Schedule, h: nat, ev: Event, b: nat)
    requires Runway(s) && Admissible(cfg, s, ev) && cfg.spanDuration > 0
    requires PreBlock(cfg, s, h, ev).Some?
    requires s.milestone.Some? && b <= s.milestone.value
    requires Observed(cfg, s, h, ev).Some? ==> Observed(cfg, s, h, ev).value.0 >= s.milestone.value
    ensures var s' := PreBlock(cfg, s, h, ev).value.next;
      Owner(s'.spans, b) == Owner(s.spans, b) && s'.milestone.Some? && s.milestone.value <= s'.milestone.value
  {
    var o := PreBlock(cfg, s, h, ev).value;
    match o.action {
      case Idle => QuietStep(cfg, s, h, ev);
      case NewMilestone =>
        MilestoneKeepsRunway(cfg, s, h, ev);
        hide PreBlock, AddMilestone, U64;
        if o.next.spans != s.spans { OwnerOfNew(s.spans, Last(o.next.spans), b); }
      case RotatedCurrent =>
        CurrentRotationShape(cfg, s, ev.choice, h);
        OwnerOfNew(s.spans, Last(o.next.spans), b);
      case RotatedPending(head, id) =>
        PendingRotationShape(cfg, s, ev.choice, h, head, id);
        OwnerOfNew(s.spans, Last(o.next.spans), b);
    }
  }

  /** Once a milestone has finalized a block, its producer never changes in the schedule. */
  lemma {:induction false} FinalizedOwnersArePermanent(r: Run, i: nat, k: nat, b: nat)
    requires IsRun(r) && AdmissibleRun(r) && Runway(r.states[0]) && HeadsNotBehind(r)
    requires i <= k < |r.states|
    requires r.states[i].milestone.Some? && b <= r.states[i].milestone.value
    ensures Owner(r.states[k].spans, b) == Owner(r.states[i].spans, b)
    ensures r.states[k].milestone.Some? && r.states[i].milestone.value <= r.states[k].milestone.value
    decreases k
  {
    hide PreBlock, Runway, Admissible, Owner, Observed;
    if i < k {
      FinalizedOwnersArePermanent(r, i, k - 1, b);
      RunwayAlways(r, k - 1);
      assert StepOf(r, k - 1) == Some(Outcome(r.states[k], r.actions[k - 1]));
      StepKeepsFinalized(r.cfg, r.states[k - 1], r.first + k - 1, r.events[k - 1], b);
    }
  }

  // ----- failed producers -----

  lemma FailedGrows(cfg: Config, s: Schedule, h: nat, ev: Event)
    requires s.spans != [] && cfg.spanDuration > 0
    requires PreBlock(cfg, s, h, ev).Some? && PreBlock(cfg, s, h, ev).value.action != NewMilestone
    ensures s.failed <= PreBlock(cfg, s, h, ev).value.next.failed
  {
    hide Owner, SelectNext, PendingEnd;
  }

  lemma {:induction false} FailedKept(r: Run, i: nat, k: nat)
    requires IsRun(r) && i <= k < |r.states|
    requires forall l :: i <= l < k ==> r.actions[l] != NewMilestone
    ensures r.states[i].failed <= r.states[k].failed
    decreases k
  {
    hide PreBlock;
    if i < k {
      FailedKept(r, i, k - 1);
      assert StepOf(r, k - 1) == Some(Outcome(r.states[k], r.actions[k - 1]));
      FailedGrows(r.cfg, r.states[k - 1], r.first + k - 1, r.events[k - 1]);
    }
  }

  /** The condition under which checkAndRotateCurrentSpan cannot put a failed producer back:
      an elected candidate is active, not failed and not the current producer; or no elected
      candidate but the current producer is failed at all. */
  ghost predicate SparesFailed(s: Schedule, candidates: seq<nat>)
    requires s.milestone.Some?
  {
    match Owner(s.spans, s.milestone.value + 1)
    case None => true
    case Some(current) =>
      || (exists c :: c in candidates && c in s.active - s.failed - {current})
      || (forall c :: c in candidates && c in s.failed ==> c == current)
  }

  /** The candidates it walks through. */
  function Pool(s: Schedule, candidates: seq<nat>, current: nat): seq<nat> {
    var preferred := Keep(candidates, s.active - s.failed - {current});
    if preferred != [] then preferred else Without(candidates, {current})
  }

  lemma {:induction false} WithoutNone(cs: seq<nat>)
    ensures Without(cs, {}) == cs
  {
    if cs != [] { WithoutNone(cs[1..]); }
  }

  lemma {:induction false} PoolAre(s: Schedule, candidates: seq<nat>, current: nat, p: nat)
    ensures p in Pool(s, candidates, current) ==> p in candidates && p != current
    ensures Pool(s, candidates, current) == [] ==> p in candidates ==> p == current
    ensures (exists c :: c in candidates && c in s.active - s.failed - {current}) ==>
      p in Pool(s, candidates, current) ==> p !in s.failed
    ensures !(exists c :: c in candidates && c in s.active - s.failed - {current}) ==>
      (p in Pool(s, candidates, current) <==> p in candidates && p != current)
  {
    var good := s.active - s.failed - {current};
    KeepAre(candidates, good, p);
    KeepAre(candidates, {current}, p);
    if exists c :: c in candidates && c in good {
      var c :| c in candidates && c in good;
      KeepAre(candidates, good, c);
    } else if Keep(candidates, good) != [] {
      KeepAre(candidates, good, Keep(candidates, good)[0]);
    }
  }

  lemma {:induction false} StartIndexAbsent(cs: seq<nat>, current: nat, i: nat)
    requires current !in cs && i <= |cs|
    ensures StartIndex(cs, current, i) == 0
    decreases |cs| - i
  {
    if i < |cs| { StartIndexAbsent(cs, current, i + 1); }
  }

  /** If all candidates but p are down, the walk ends at p. */
  lemma {:induction false} WalkEndsAt(ch: Choice, cs: seq<nat>, i: nat, k: nat, start: nat, end: nat)
    requires i <= k < |cs| && !IsDown(ch, cs[k], start, end)
    requires forall c :: c in cs && c != cs[k] ==> IsDown(ch, c, start, end)
    ensures Walk(ch, cs, 0, i, start, end) == cs[k]
    decreases k - i
  {
    assert (0 + i) % |cs| == i;
    if cs[i] != cs[k] { WalkEndsAt(ch, cs, i + 1, k, start, end); }
  }

  /** What a rotation of the current span does with its candidates. */
  lemma {:induction false} CurrentRotationPicks(cfg: Config, s: Schedule, ch: Choice, h: nat)
    requires s.spans != [] && cfg.spanDuration > 0 && MilestoneOverdue(cfg, s, h)
    requires Owner(s.spans, s.milestone.value + 1).Some? && ch.electionOk && ch.storeOk
    ensures
      var current := Owner(s.spans, s.milestone.value + 1).value;
      var pool := Pool(s, ch.candidates, current);
      var end := SpanEnd(Last(s.spans).end, s.milestone.value, cfg.spanDuration);
      var o := RotateCurrent(cfg, s, ch, h);
      if pool == [] then o == Some(Outcome(s, Idle))
      else
        && o.Some? && o.value.action == RotatedCurrent && o.value.next.spans != []
        && Last(o.value.next.spans).producer == Walk(ch, pool, 0, 0, s.milestone.value + 1, end)
  {
    hide Owner, SpanEnd, Walk, Keep, Without, StartIndex;
    var current := Owner(s.spans, s.milestone.value + 1).value;
    var pool := Pool(s, ch.candidates, current);
    WithoutNone(Keep(ch.candidates, s.active - s.failed - {current}));
    WithoutNone(Without(ch.candidates, {current}));
    if pool != [] {
      PoolAre(s, ch.candidates, current, current);
      StartIndexAbsent(pool, current, 0);
    }
  }

  ghost predicate PicksFailed(cfg: Config, s: Schedule, ch: Choice, h: nat)
    requires s.spans != [] && cfg.spanDuration > 0
  {
    var o := RotateCurrent(cfg, s, ch, h);
    o.Some? && o.value.action == RotatedCurrent && o.value.next.spans != [] && Last(o.value.next.spans).producer in s.failed
  }

  /** A rotation of the current span under that condition spares the failed producers. */
  lemma {:induction false} CurrentRotationSparesFailed(cfg: Config, s: Schedule, ch: Choice, h: nat)
    requires s.spans != [] && cfg.spanDuration > 0 && s.milestone.Some? && SparesFailed(s, ch.candidates)
    ensures !PicksFailed(cfg, s, ch, h)
  {
    hide Owner, SpanEnd, Walk, Pool, SelectNext;
    if PicksFailed(cfg, s, ch, h) {
      var current := Owner(s.spans, s.milestone.value + 1).value;
      SelectionNeedsElection(ch, current, s.active - s.failed - {current}, s.milestone.value + 1,
                             SpanEnd(Last(s.spans).end, s.milestone.value, cfg.spanDuration));
      CurrentRotationPicks(cfg, s, ch, h);
      var p := Last(RotateCurrent(cfg, s, ch, h).value.next.spans).producer;
      PoolAre(s, ch.candidates, current, p);
      assert false;
    }
  }

  lemma SelectionNeedsElection(ch: Choice, current: nat, active: set<nat>, start: nat, end: nat)
    ensures !ch.electionOk ==> SelectNext(ch, current, active, start, end, {}, false).None?
  {
  }

  /** That condition is exact: it holds if and only if no planned downtime of the producers
      can make an overdue rotation put a failed producer back. */
  lemma {:induction false} FailedSparedIff(cfg: Config, s: Schedule, ch: Choice, h: nat)
    requires s.spans != [] && cfg.spanDuration > 0 && MilestoneOverdue(cfg, s, h)
    requires Owner(s.spans, s.milestone.value + 1).Some? && ch.electionOk && ch.storeOk
    ensures SparesFailed(s, ch.candidates) <==> forall downtime :: !PicksFailed(cfg, s, ch.(downtime := downtime), h)
  {
    hide PicksFailed;
    if SparesFailed(s, ch.candidates) {
      forall downtime ensures !PicksFailed(cfg, s, ch.(downtime := downtime), h) {
        CurrentRotationSparesFailed(cfg, s, ch.(downtime := downtime), h);
      }
    } else {
      var current := Owner(s.spans, s.milestone.value + 1).value;
      var p :| p in ch.candidates && p in s.failed && p != current;
      DowntimePutsBack(cfg, s, ch, h, current, p);
    }
  }

  /** With everybody else down, a failed candidate is put back. */
  lemma {:induction false} DowntimePutsBack(cfg: Config, s: Schedule, ch: Choice, h: nat, current: nat, p: nat)
    requires s.spans != [] && cfg.spanDuration > 0 && MilestoneOverdue(cfg, s, h)
    requires Owner(s.spans, s.milestone.value + 1) == Some(current) && ch.electionOk && ch.storeOk
    requires p in ch.candidates && p in s.failed && p != current
    requires !exists c :: c in ch.candidates && c in s.active - s.failed - {current}
    ensures exists downtime :: PicksFailed(cfg, s, ch.(downtime := downtime), h)
  {
    hide Owner, SpanEnd, Walk, Pool, RotateCurrent;
    var start, end := s.milestone.value + 1, SpanEnd(Last(s.spans).end, s.milestone.value, cfg.spanDuration);
    var downtime := map c | c in ch.candidates && c != p :: (0, start);
    var ch' := ch.(downtime := downtime);
    var pool := Pool(s, ch.candidates, current);
    PoolAre(s, ch.candidates, current, p);
    var k :| 0 <= k < |pool| && pool[k] == p;
    forall c | c in pool && c != p ensures IsDown(ch', c, start, end) {
      PoolAre(s, ch.candidates, current, c);
    }
    WalkEndsAt(ch', pool, 0, k, start, end);
    CurrentRotationPicks(cfg, s, ch', h);
    assert PicksFailed(cfg, s, ch.(downtime := downtime), h);
  }

  /** No producer on the failed list is put back before a milestone has cleared the list: never
      by a pending-stall rotation, and by the other one not while it spares them. */
  lemma FailedNotReselected(r: Run, i: nat, j: nat)
    requires IsRun(r) && i <= j < |r.events|
    requires forall l :: i <= l < j ==> r.actions[l] != NewMilestone
    requires
      || r.actions[j].RotatedPending?
      || (r.actions[j].RotatedCurrent? && r.states[j].milestone.Some? && SparesFailed(r.states[j], r.events[j].choice.candidates))
    ensures Last(r.states[j + 1].spans).producer !in r.states[i].failed
  {
    hide SparesFailed, RotateCurrent, RotatePending;
    FailedKept(r, i, j);
    assert StepOf(r, j) == Some(Outcome(r.states[j + 1], r.actions[j]));
    if r.actions[j].RotatedPending? {
      RotatedByPending(r.cfg, r.states[j], r.first + j, r.events[j]);
      PendingRotationShape(r.cfg, r.states[j], r.events[j].choice, r.first + j, r.actions[j].block, r.actions[j].id);
    } else {
      RotatedByCurrent(r.cfg, r.states[j], r.first + j, r.events[j]);
      CurrentRotationSparesFailed(r.cfg, r.states[j], r.events[j].choice, r.first + j);
    }
  }

  lemma RotatedByPending(cfg: Config, s: Schedule, h: nat, ev: Event)
    requires s.spans != [] && cfg.spanDuration > 0
    requires PreBlock(cfg, s, h, ev).Some? && PreBlock(cfg, s, h, ev).value.action.RotatedPending?
    ensures
      var o := PreBlock(cfg, s, h, ev);
      RotatePending(cfg, s, ev.choice, h, o.value.action.block, o.value.action.id) == o
  {
    hide Owner, SelectNext, PendingEnd;
  }

  lemma RotatedByCurrent(cfg: Config, s: Schedule, h: nat, ev: Event)
    requires s.spans != [] && cfg.spanDuration > 0
    requires PreBlock(cfg, s, h, ev).Some? && PreBlock(cfg, s, h, ev).value.action.RotatedCurrent?
    ensures RotateCurrent(cfg, s, ev.choice, h) == PreBlock(cfg, s, h, ev)
  {
    hide Owner, SelectNext, PendingEnd, SpanEnd;
  }

  /** Concretely: with every other active candidate failed, it falls back on the elected list
      and picks a failed producer again. */
  lemma CurrentRotationMayReselectFailed()
    returns (cfg: Config, s: Schedule, ch: Choice, h: nat)
    ensures Runway(s) && cfg.spanDuration > 0
    ensures RotateCurrent(cfg, s, ch, h).Some? && RotateCurrent(cfg, s, ch, h).value.action == RotatedCurrent
    ensures Last(RotateCurrent(cfg, s, ch, h).value.next.spans).producer in s.failed
  {
    cfg := Config(100, 0, 0);
    ch := Choice(true, [1, 2], [], map[], true);
    s := Schedule([Span(0, 99, 1)], Some(50), 1, Tracking(0, [], 0), {2}, {1, 2}, 0);
    h := 20;
    assert Owner(s.spans, 51) == Some(1);
    assert Shrink(49, 100) == 49;
    assert Keep([1, 2], {}) == [] by { assert [1, 2][1..] == [2] && [2][1..] == []; }
    assert Without([], {}) == [];
    assert Without([1, 2], {1}) == [2] by { assert [1, 2][1..] == [2] && [2][1..] == []; }
    assert Without([2], {}) == [2] by { assert [2][1..] == []; }
    assert s.active - s.failed - {1} == {};
    var p := SelectNext(ch, 1, {}, 51, 99, {}, false);
    assert p == Some(2);
  }

  /** Concretely: an agreed head at block 10 behind a milestone at 50 gives the finalized
      blocks 11 to 50 to another producer. */
  lemma HeadBehindMilestoneMovesFinalized()
    returns (cfg: Config, s: Schedule, ch: Choice, h: nat)
    ensures Runway(s) && s.milestone == Some(50) && cfg.spanDuration > 0
    ensures RotatePending(cfg, s, ch, h, 10, []).Some? && RotatePending(cfg, s, ch, h, 10, []).value.action == RotatedPending(10, [])
    ensures Owner(s.spans, 50) == Some(1) && Owner(RotatePending(cfg, s, ch, h, 10, []).value.next.spans, 50) == Some(2)
  {
    cfg := Config(100, 1, 0);
    ch := Choice(true, [1, 2], [], map[], true);
    s := Schedule([Span(0, 99, 1)], Some(50), 1, Tracking(10, [], 1), {}, {1, 2}, 0);
    h := 20;
    assert Owner(s.spans, 50) == Some(1) && Owner(s.spans, 11) == Some(1);
    assert [1, 2][1..] == [2] && [2][1..] == [];
    assert Keep([2], {1, 2}) == [2] && Keep([1, 2], {1, 2}) == [1, 2];
    assert Without([2], {1}) == [2] && Without([1, 2], {1}) == [2];
    assert {1} + s.failed == {1};
    assert PendingEnd(99, 10, 100) == Some(99);
    assert StartIndex([2], 1, 0) == 0;
    var p := SelectNext(ch, 1, {1, 2}, 11, 99, {1}, false);
    assert p == Some(2);
    OwnerOfNew(s.spans, Span(11, 99, 2), 50);
  }
}
