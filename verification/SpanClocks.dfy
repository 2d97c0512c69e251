/** The two rotation clocks over whole runs: how far apart forced rotations are, and what
    a pending-stall rotation proves about the heads observed before it. */
module SpanClocks {
  import opened Prelude
  import opened SpanSchedule
  import opened SpanRuns

  predicate IsRotation(a: Action) {
    a.RotatedCurrent? || a.RotatedPending?
  }

  // ----- what one step does to the clocks -----

  /** All a step can do to the clocks, and when it may rotate. */
  ghost predicate ClockStep(cfg: Config, s: Schedule, h: nat, ev: Event, o: Outcome)
    requires s.spans != []
  {
    var seen := Observed(cfg, s, h, ev);
    match o.action
    case Idle =>
      && o.next.lastMilestoneBlock == s.lastMilestoneBlock
      && (o.next.tracking == s.tracking || (seen.Some? && o.next.tracking == Tracking(seen.value.0, seen.value.1, h)))
      && (seen.Some? ==> (o.next.tracking.block, o.next.tracking.id) == seen.value)
      && (seen.Some? && s.tracking.height != 0 && seen.value == (s.tracking.block, s.tracking.id) ==> o.next.tracking == s.tracking)
    case NewMilestone =>
      o.next.lastMilestoneBlock == h && o.next.tracking == s.tracking && seen.None?
    case RotatedCurrent =>
      && seen.None?
      && s.lastMilestoneBlock != 0 && h - s.lastMilestoneBlock > Threshold(cfg, h)
      && o.next.lastMilestoneBlock == h + Buffer(cfg, h)
      && o.next.tracking == Debounced(cfg, h, s.tracking)
    case RotatedPending(head, id) =>
      && Ithaca(cfg, h)
      && seen == Some((head, id))
      && s.tracking.height != 0 && (s.tracking.block, s.tracking.id) == (head, id)
      && h - s.tracking.height > Threshold(cfg, h)
      && o.next.lastMilestoneBlock == h + Buffer(cfg, h)
      && o.next.tracking == Tracking(head, id, h + Buffer(cfg, h))
  }

  lemma EveryStepIsAClockStep(cfg: Config, s: Schedule, h: nat, ev: Event)
    requires s.spans != [] && cfg.spanDuration > 0
    requires PreBlock(cfg, s, h, ev).Some?
    ensures ClockStep(cfg, s, h, ev, PreBlock(cfg, s, h, ev).value)
  {
    hide Owner, SelectNext, PendingEnd, Shrink;
  }

  lemma ClockStepAt(r: Run, i: nat)
    requires IsRun(r) && i < |r.events|
    ensures ClockStep(r.cfg, r.states[i], r.first + i, r.events[i], Outcome(r.states[i + 1], r.actions[i]))
  {
    hide ClockStep;
    assert StepOf(r, i) == Some(Outcome(r.states[i + 1], r.actions[i]));
    EveryStepIsAClockStep(r.cfg, r.states[i], r.first + i, r.events[i]);
  }

  // ----- spacing -----

  /** The stall clock only runs from the fork on. */
  ghost predicate TrackingSinceFork(cfg: Config, s: Schedule, h: nat) {
    s.tracking.height != 0 ==> Ithaca(cfg, h)
  }

  lemma {:induction false} TrackingAlwaysSinceFork(r: Run, k: nat)
    requires IsRun(r) && k < |r.states| && TrackingSinceFork(r.cfg, r.states[0], r.first)
    ensures TrackingSinceFork(r.cfg, r.states[k], r.first + k)
  {
    hide PreBlock;
    if k > 0 {
      TrackingAlwaysSinceFork(r, k - 1);
      ClockStepAt(r, k - 1);
    }
  }

  /** Neither clock reads earlier than `since`. */
  ghost predicate ClocksNotBefore(s: Schedule, since: nat) {
    s.lastMilestoneBlock >= since && (s.tracking.height == 0 || s.tracking.height >= since)
  }

  /** After a rotation both clocks read later than that rotation, ever after. */
  lemma {:induction false} ClocksAfterRotation(r: Run, i: nat, k: nat)
    requires IsRun(r) && TrackingSinceFork(r.cfg, r.states[0], r.first)
    requires i < k < |r.states| && IsRotation(r.actions[i])
    ensures ClocksNotBefore(r.states[k], r.first + i + 1)
    decreases k
  {
    ClockStepAt(r, k - 1);
    hide PreBlock, Observed;
    if k - 1 == i {
      TrackingAlwaysSinceFork(r, i);
    } else {
      ClocksAfterRotation(r, i, k - 1);
    }
  }

  /** Any two forced rotations, by either path, are more than the threshold apart, with one
      height to spare, whatever milestones and heads come between them. */
  lemma RotationsAreSpaced(r: Run, i: nat, j: nat)
    requires IsRun(r) && TrackingSinceFork(r.cfg, r.states[0], r.first)
    requires i < j < |r.events| && IsRotation(r.actions[i]) && IsRotation(r.actions[j])
    ensures j - i > Threshold(r.cfg, r.first + j) + 1
    ensures j - i >= if r.first + j >= r.cfg.downtimeHeight then 12 else 7
  {
    ClocksAfterRotation(r, i, j);
    ClockStepAt(r, j);
  }

  /** Between the two steps there is no milestone, and the agreed head, whenever there is
      one, is the one tracked after the first. */
  ghost predicate HeadUnchanged(r: Run, i: nat, j: nat)
    requires IsRun(r) && i < j < |r.events|
  {
    forall l :: i < l < j ==>
      && r.actions[l] != NewMilestone
      && (Observed(r.cfg, r.states[l], r.first + l, r.events[l]).Some? ==>
            Observed(r.cfg, r.states[l], r.first + l, r.events[l]).value == (r.states[i + 1].tracking.block, r.states[i + 1].tracking.id))
  }

  ghost predicate Waiting(s: Schedule, t: Tracking, until: nat) {
    && s.lastMilestoneBlock >= until
    && s.tracking.height >= until
    && s.tracking.height != 0
    && (s.tracking.block, s.tracking.id) == (t.block, t.id)
  }

  lemma {:induction false} WaitingAfterRotation(r: Run, i: nat, j: nat, k: nat)
    requires IsRun(r) && TrackingSinceFork(r.cfg, r.states[0], r.first)
    requires i < k <= j < |r.events| && IsRotation(r.actions[i])
    requires r.states[i + 1].tracking.height != 0
    requires HeadUnchanged(r, i, j)
    ensures Waiting(r.states[k], r.states[i + 1].tracking, r.first + i + Buffer(r.cfg, r.first + i))
    decreases k
  {
    hide PreBlock, Observed;
    ClockStepAt(r, k - 1);
    if k - 1 == i {
      TrackingAlwaysSinceFork(r, i);
    } else {
      WaitingAfterRotation(r, i, j, k - 1);
    }
  }

  /** With no milestone, an unchanged agreed head and a running stall clock, the buffer
      comes on top. */
  lemma RotationsAreBuffered(r: Run, i: nat, j: nat)
    requires IsRun(r) && TrackingSinceFork(r.cfg, r.states[0], r.first)
    requires i < j < |r.events| && IsRotation(r.actions[i]) && IsRotation(r.actions[j])
    requires r.states[i + 1].tracking.height != 0
    requires HeadUnchanged(r, i, j)
    ensures j - i > Buffer(r.cfg, r.first + i) + Threshold(r.cfg, r.first + j)
    ensures j - i > if r.first + i >= r.cfg.downtimeHeight then 30 else 15
  {
    WaitingAfterRotation(r, i, j, j);
    ClockStepAt(r, j);
  }

  // ----- what a stall proves -----

  ghost function HeadSeen(r: Run, i: nat): Option<(nat, bytes)>
    requires IsRun(r) && i < |r.events|
  {
    Observed(r.cfg, r.states[i], r.first + i, r.events[i])
  }

  /** The clock of state k was started by an observation of the tracked head, not after
      the time it shows, and nothing else has been observed since. */
  ghost predicate StartedBy(r: Run, k: nat, i: nat)
    requires IsRun(r) && k < |r.states|
  {
    var t := r.states[k].tracking;
    && i < k
    && HeadSeen(r, i) == Some((t.block, t.id))
    && r.first + i <= t.height
    && forall l :: i < l < k && HeadSeen(r, l).Some? ==> HeadSeen(r, l) == Some((t.block, t.id))
  }

  lemma {:induction false} ClockHasStart(r: Run, k: nat) returns (i: nat)
    requires IsRun(r) && k < |r.states| && r.first > 0
    requires r.states[0].tracking.height == 0
    requires r.states[k].tracking.height != 0
    ensures StartedBy(r, k, i)
    decreases k
  {
    hide PreBlock, Observed;
    assert k > 0;
    ClockStepAt(r, k - 1);
    TrackingAlwaysSinceFork(r, k - 1);
    if r.states[k - 1].tracking.height == 0 || (r.states[k].tracking.block, r.states[k].tracking.id) != (r.states[k - 1].tracking.block, r.states[k - 1].tracking.id) {
      i := k - 1;
    } else {
      i := ClockHasStart(r, k - 1);
      ClockNotEarlier(r, k - 1);
    }
  }

  /** Debouncing keeps the head and only moves the clock forward. */
  ghost predicate ClockBounded(cfg: Config, s: Schedule, h: nat) {
    s.tracking.height < h + Buffer(cfg, h)
  }

  lemma {:induction false} ClockNotEarlier(r: Run, k: nat)
    requires IsRun(r) && k < |r.states| && r.first > 0
    requires r.states[0].tracking.height == 0
    ensures ClockBounded(r.cfg, r.states[k], r.first + k)
    decreases k
  {
    hide PreBlock, Observed;
    if k > 0 {
      ClockNotEarlier(r, k - 1);
      ClockStepAt(r, k - 1);
    }
  }

  lemma DebounceMovesForward(r: Run, k: nat)
    requires IsRun(r) && k < |r.events| && r.first > 0
    requires r.states[0].tracking.height == 0
    requires IsRotation(r.actions[k]) && r.states[k].tracking.height != 0
    ensures r.states[k].tracking.height < r.states[k + 1].tracking.height
    ensures r.states[k + 1].tracking == r.states[k].tracking.(height := r.states[k + 1].tracking.height)
  {
    hide PreBlock, Observed;
    ClockNotEarlier(r, k);
    ClockStepAt(r, k);
    TrackingAlwaysSinceFork(r, k);
  }

  /** If a pending-stall rotation fires on a head, then that head was observed before, and
      every head observed from the threshold before the rotation up to it was the same. */
  lemma StallIsReal(r: Run, j: nat) returns (i: nat)
    requires IsRun(r) && j < |r.events| && r.first > 0
    requires r.states[0].tracking.height == 0
    requires r.actions[j].RotatedPending?
    ensures i + Threshold(r.cfg, r.first + j) < j
    ensures HeadSeen(r, i) == Some((r.actions[j].block, r.actions[j].id))
    ensures HeadSeen(r, j) == Some((r.actions[j].block, r.actions[j].id))
    ensures forall l :: i < l <= j && HeadSeen(r, l).Some? ==> HeadSeen(r, l) == Some((r.actions[j].block, r.actions[j].id))
  {
    hide PreBlock, Observed;
    ClockStepAt(r, j);
    i := ClockHasStart(r, j);
  }
}
