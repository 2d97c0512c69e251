/** The block-producer schedule: spans, newest-first ownership, producer selection, and
    the three ways in which PreBlocker creates a span. Heights are Heimdall heights,
    block numbers are Bor block numbers. The model is post-Rio. */
module SpanSchedule {
  import opened Prelude

  datatype Span = Span(start: nat, end: nat, producer: nat)

  /** The agreed pending head, its hash, and the height the stall is measured from; the
      clock is not running while that height is zero. */
  datatype Tracking = Tracking(block: nat, id: bytes, height: nat)

  datatype Schedule = Schedule(
    spans: seq<Span>,
    milestone: Option<nat>,     // end block of the last milestone
    lastMilestoneBlock: nat,    // height of the last milestone, or a debounced height
    tracking: Tracking,
    failed: set<nat>,
    active: set<nat>,
    lastSpanBlock: nat)         // height at which the last span was created

  /** Parameters: the span length and the two fork heights. */
  datatype Config = Config(spanDuration: nat, ithacaHeight: int, downtimeHeight: int)

  function Ithaca(cfg: Config, h: nat): bool {
    cfg.ithacaHeight > 0 && h >= cfg.ithacaHeight
  }

  function Threshold(cfg: Config, h: nat): nat {
    if h >= cfg.downtimeHeight then 10 else 5
  }

  function Buffer(cfg: Config, h: nat): nat {
    if h >= cfg.downtimeHeight then 20 else 10
  }

  function U64(x: int): nat {
    x % TWO_64
  }

  function Last(spans: seq<Span>): Span
    requires spans != []
  {
    spans[|spans| - 1]
  }

  /** FindCurrentProducerID: the newest span holding the block decides. */
  function Owner(spans: seq<Span>, block: nat): Option<nat> {
    if spans == [] then None
    else if Last(spans).start <= block <= Last(spans).end then Some(Last(spans).producer)
    else Owner(spans[..|spans| - 1], block)
  }

  lemma OwnerOfNew(spans: seq<Span>, new': Span, block: nat)
    ensures Owner(spans + [new'], block)
         == if new'.start <= block <= new'.end then Some(new'.producer) else Owner(spans, block)
  {
    assert (spans + [new'])[..|spans|] == spans;
  }

  // ----- producer selection -----

  /** What selection reads from other keepers: the elected candidates, the recovery set
      of the future-span path, planned downtime, and whether the stores answered. */
  datatype Choice = Choice(
    electionOk: bool,
    candidates: seq<nat>,
    recovery: seq<nat>,
    downtime: map<nat, (nat, nat)>,
    storeOk: bool)

  function Keep(cs: seq<nat>, s: set<nat>): seq<nat> {
    if cs == [] then [] else (if cs[0] in s then [cs[0]] else []) + Keep(cs[1..], s)
  }

  function Without(cs: seq<nat>, s: set<nat>): seq<nat> {
    if cs == [] then [] else (if cs[0] !in s then [cs[0]] else []) + Without(cs[1..], s)
  }

  lemma {:induction false} KeepAre(cs: seq<nat>, s: set<nat>, p: nat)
    ensures p in Keep(cs, s) <==> p in cs && p in s
    ensures p in Without(cs, s) <==> p in cs && p !in s
  {
    if cs != [] {
      KeepAre(cs[1..], s, p);
      assert cs == [cs[0]] + cs[1..];
    }
  }

  predicate IsDown(ch: Choice, p: nat, start: nat, end: nat) {
    p in ch.downtime && start <= ch.downtime[p].1 && end >= ch.downtime[p].0
  }

  /** Position after the current producer's first one, or zero. */
  function StartIndex(cs: seq<nat>, current: nat, i: nat): nat
    requires i <= |cs|
    decreases |cs| - i
  {
    if i == |cs| then 0
    else if cs[i] == current then (i + 1) % |cs|
    else StartIndex(cs, current, i + 1)
  }

  /** The walk of SelectProducer: the first candidate that is not down, else the first. */
  function Walk(ch: Choice, cs: seq<nat>, from: nat, i: nat, start: nat, end: nat): (p: nat)
    requires cs != [] && i <= |cs|
    ensures p in cs
    decreases |cs| - i
  {
    if i == |cs| then cs[0]
    else
      var c := cs[(from + i) % |cs|];
      if IsDown(ch, c, start, end) then Walk(ch, cs, from, i + 1, start, end) else c
  }

  /** SelectNextSpanProducer without a requested target, as PreBlocker calls it. */
  function SelectNext(ch: Choice, current: nat, active: set<nat>, start: nat, end: nat,
                      excluded: set<nat>, recover: bool): Option<nat>
  {
    var preferred := Without(Keep(ch.candidates, active), excluded);
    var others := if preferred != [] then preferred else Without(Without(ch.candidates, {current}), excluded);
    var pool := if others == [] && recover then ch.recovery else others;
    if !ch.electionOk || pool == [] then None
    else Some(Walk(ch, pool, StartIndex(pool, current, 0), 0, start, end))
  }

  /** An explicit exclusion set is honoured by both candidate lists. */
  lemma SelectionHonoursExclusion(ch: Choice, current: nat, active: set<nat>, start: nat, end: nat, excluded: set<nat>)
    requires SelectNext(ch, current, active, start, end, excluded, false).Some?
    ensures SelectNext(ch, current, active, start, end, excluded, false).value !in excluded
    ensures SelectNext(ch, current, active, start, end, excluded, false).value in ch.candidates
  {
    var p := SelectNext(ch, current, active, start, end, excluded, false).value;
    KeepAre(Keep(ch.candidates, active), excluded, p);
    KeepAre(ch.candidates, active, p);
    KeepAre(Without(ch.candidates, {current}), excluded, p);
    KeepAre(ch.candidates, {current}, p);
  }

  /** AddNewVeBlopSpan: appends a span with the selected producer, or fails with no effect. */
  function AddSpan(s: Schedule, ch: Choice, h: nat, current: nat, start: nat, end: nat,
                   active: set<nat>, excluded: set<nat>, recover: bool): Option<Schedule>
  {
    match SelectNext(ch, current, active, start, end, excluded, recover)
    case None => None
    case Some(p) =>
      if !ch.storeOk then None
      else Some(s.(spans := s.spans + [Span(start, end, p)], lastSpanBlock := h))
  }

  // ----- the end of a rotated span -----

  /** The first loop of checkAndRotateCurrentSpan, on the distance x from the milestone to
      the end of the last span. */
  function Shrink(x: nat, duration: nat): nat
    requires duration > 0
    decreases x
  {
    if x > 2 * duration then Shrink(x - duration, duration) else x
  }

  /** How often it goes round. */
  function ShrinkSteps(x: nat, duration: nat): nat
    requires duration > 0
    decreases x
  {
    if x > 2 * duration then 1 + ShrinkSteps(x - duration, duration) else 0
  }

  /** It ends within two span lengths of the milestone, and above it if it started there: where
      it started if that was near enough, and otherwise more than one span length above it, */
  lemma {:induction false} ShrinkIsTight(x: nat, duration: nat)
    requires duration > 0
    ensures Shrink(x, duration) <= x && Shrink(x, duration) <= 2 * duration
    ensures x > 0 ==> Shrink(x, duration) > 0
    ensures x <= 2 * duration ==> Shrink(x, duration) == x
    ensures x > 2 * duration ==> Shrink(x, duration) > duration
    decreases x
  {
    if x > 2 * duration {
      ShrinkIsTight(x - duration, duration);
    }
  }

  /** and a whole number of span lengths below where it started. */
  lemma {:induction false} ShrinkIsCongruent(x: nat, duration: nat)
    requires duration > 0
    ensures x - Shrink(x, duration) == ShrinkSteps(x, duration) * duration
    decreases x
  {
    if x > 2 * duration {
      ShrinkIsCongruent(x - duration, duration);
      OneMoreStep(ShrinkSteps(x - duration, duration), duration);
    }
  }

  lemma OneMoreStep(n: nat, d: nat)
    ensures (1 + n) * d == d + n * d
  {
  }

  /** The end of a span that starts right behind the milestone. The distance is an unsigned
      64-bit number: it wraps when the milestone lies past the last span. */
  function SpanEnd(lastEnd: nat, milestone: nat, duration: nat): nat
    requires duration > 0
  {
    if milestone == lastEnd then lastEnd + duration else milestone + Shrink(U64(lastEnd - milestone), duration)
  }

  /** Whatever the milestone, the span is not empty and at most two span lengths long; it is one
      span length long behind a milestone at the end of the schedule. */
  lemma SpanEndIsTight(lastEnd: uint64, milestone: uint64, duration: nat)
    requires duration > 0
    ensures milestone < SpanEnd(lastEnd, milestone, duration) <= milestone + 2 * duration
    ensures lastEnd == milestone ==> SpanEnd(lastEnd, milestone, duration) == milestone + duration
  {
    ShrinkIsTight(U64(lastEnd - milestone), duration);
  }

  /** With a milestone past the last span the wrapped distance makes the loop walk through
      almost the whole range of 64-bit numbers. */
  lemma WrappedLoopIsLong(lastEnd: uint64, milestone: uint64, duration: nat)
    requires duration > 0 && lastEnd < milestone
    ensures ShrinkSteps(U64(lastEnd - milestone), duration) * duration >= TWO_64 - (milestone - lastEnd) - 2 * duration
  {
    ShrinkIsTight(U64(lastEnd - milestone), duration);
    ShrinkIsCongruent(U64(lastEnd - milestone), duration);
  }

  /** The two loops as they run, with unsigned 64-bit arithmetic: both stop. */
  method RotatedEnd(lastEnd: uint64, milestone: uint64, duration: uint64) returns (end: uint64)
    requires 0 < duration && lastEnd + duration < TWO_64 && milestone + 2 * duration < TWO_64
    ensures end == SpanEnd(lastEnd, milestone, duration)
  {
    hide U64;
    end := lastEnd;
    ghost var x := U64(lastEnd - milestone);
    Distance(lastEnd, milestone);
    NoWrap(2 * duration);
    while U64(end - milestone) > U64(2 * duration)
      invariant U64(end - milestone) == x && end == U64(milestone + x) && x < TWO_64
      invariant Shrink(x, duration) == Shrink(U64(lastEnd - milestone), duration)
      invariant x == 0 <==> lastEnd == milestone
      decreases x
    {
      CloserBy(end, milestone, x, duration);
      end := U64(end - duration);
      x := x - duration;
    }
    NoWrap(milestone + x);
    if end <= milestone {
      end := lastEnd;
      NoWrap(end + duration);
      while end <= milestone
        invariant end == lastEnd || end == lastEnd + duration
        decreases milestone - end
      {
        end := U64(end + duration);
      }
    }
  }

  lemma NoWrap(x: int)
    ensures 0 <= x < TWO_64 ==> U64(x) == x
  {
  }

  /** Adding back a wrapped difference. */
  lemma Distance(end: uint64, milestone: uint64)
    ensures U64(milestone + U64(end - milestone)) == end && U64(end - milestone) < TWO_64
    ensures U64(end - milestone) == 0 <==> end == milestone
  {
  }

  lemma CloserBy(end: uint64, milestone: uint64, x: nat, duration: nat)
    requires end == U64(milestone + x) && duration <= x < TWO_64
    ensures 0 <= U64(end - duration) < TWO_64
    ensures U64(end - duration) == U64(milestone + (x - duration)) && U64(U64(end - duration) - milestone) == x - duration
  {
  }

  // ----- the steps -----

  /** checkAndAddFutureSpan, after the new milestone is in place; None stands for an error. */
  function FutureSpan(cfg: Config, s: Schedule, ch: Choice, h: nat, milestoneEnd: nat, supporters: set<nat>): Option<Schedule>
    requires s.spans != []
  {
    var last := Last(s.spans);
    if milestoneEnd < last.start then Some(s)
    else match Owner(s.spans, last.end)
      case None => None
      case Some(current) =>
        match AddSpan(s, ch, h, current, U64(last.end + 1), U64(last.end + cfg.spanDuration), supporters, {}, Ithaca(cfg, h))
        case None => None
        case Some(s') => Some(s'.(active := supporters, failed := {}))
  }

  /** The milestone branch of PreBlocker. */
  function AddMilestone(cfg: Config, s: Schedule, ch: Choice, h: nat, milestoneEnd: nat, supporters: set<nat>): Option<Schedule>
    requires s.spans != []
  {
    FutureSpan(cfg, s.(milestone := Some(milestoneEnd), lastMilestoneBlock := h, active := supporters, failed := {}),
               ch, h, milestoneEnd, supporters)
  }

  /** What a step did. */
  datatype Action =
    | Idle
    | NewMilestone
    | RotatedCurrent
    | RotatedPending(block: nat, id: bytes)

  datatype Outcome = Outcome(next: Schedule, action: Action)

  function Debounced(cfg: Config, h: nat, t: Tracking): Tracking {
    if Ithaca(cfg, h) && t.height != 0 then t.(height := h + Buffer(cfg, h)) else t
  }

  predicate MilestoneOverdue(cfg: Config, s: Schedule, h: nat) {
    s.milestone.Some? && s.lastMilestoneBlock != 0 && h - s.lastMilestoneBlock > Threshold(cfg, h)
  }

  /** checkAndRotateCurrentSpan. */
  function RotateCurrent(cfg: Config, s: Schedule, ch: Choice, h: nat): Option<Outcome>
    requires s.spans != [] && cfg.spanDuration > 0
  {
    if !MilestoneOverdue(cfg, s, h) then Some(Outcome(s, Idle))
    else
      var end := SpanEnd(Last(s.spans).end, s.milestone.value, cfg.spanDuration);
      match Owner(s.spans, s.milestone.value + 1)
      case None => None
      case Some(current) =>
        match AddSpan(s, ch, h, current, s.milestone.value + 1, end, s.active - s.failed - {current}, {}, false)
        case None => Some(Outcome(s, Idle))
        case Some(s') =>
          Some(Outcome(s'.(lastMilestoneBlock := h + Buffer(cfg, h),
                           failed := s.failed + {current},
                           tracking := Debounced(cfg, h, s.tracking)), RotatedCurrent))
  }

  /** The end of a span minted from the pending head, None when it would overflow. */
  function PendingEnd(end: nat, head: nat, duration: nat): Option<nat>
    decreases head - end
  {
    if end > head then Some(end)
    else if duration == 0 || end > MAX_UINT64 - duration then None
    else PendingEnd(end + duration, head, duration)
  }

  /** The block whose producer is held responsible for the stall. */
  function StalledBlock(spans: seq<Span>, head: nat): nat
    requires spans != []
  {
    if head + 1 <= Last(spans).end then head + 1 else head
  }

  function StalledProducer(spans: seq<Span>, head: nat): Option<nat>
    requires spans != []
  {
    var direct := Owner(spans, StalledBlock(spans, head));
    if direct.None? && StalledBlock(spans, head) < Last(spans).start then Owner(spans, Last(spans).start) else direct
  }

  /** rotateSpanFromPendingHead with recordPendingStallRotation. */
  function RotatePending(cfg: Config, s: Schedule, ch: Choice, h: nat, head: nat, id: bytes): Option<Outcome>
    requires s.spans != []
  {
    var last := Last(s.spans);
    if head > last.end || head >= MAX_UINT64 then Some(Outcome(s, Idle))
    else match PendingEnd(last.end, head, cfg.spanDuration)
      case None => Some(Outcome(s, Idle))
      case Some(end) =>
        match StalledProducer(s.spans, head)
        case None => None
        case Some(current) =>
          match AddSpan(s, ch, h, current, head + 1, end, s.active, {current} + s.failed, false)
          case None => Some(Outcome(s, Idle))
          case Some(s') =>
            var debounce := h + Buffer(cfg, h);
            Some(Outcome(s'.(lastMilestoneBlock := debounce,
                             tracking := Tracking(head, id, debounce),
                             failed := s.failed + {current}), RotatedPending(head, id)))
  }

  /** checkAndRotateOnPendingStall. */
  function OnPendingHead(cfg: Config, s: Schedule, ch: Choice, h: nat, head: nat, id: bytes): Option<Outcome>
    requires s.spans != []
  {
    if s.tracking.height == 0 || head != s.tracking.block || id != s.tracking.id then
      Some(Outcome(s.(tracking := Tracking(head, id, h)), Idle))
    else if h - s.tracking.height <= Threshold(cfg, h) then Some(Outcome(s, Idle))
    else RotatePending(cfg, s, ch, h, head, id)
  }

  /** What the votes of a block give: the end of a valid majority milestone, whether a
      third supports a pending one, and the agreed head if there is one. */
  datatype Event = Event(
    majority: Option<nat>,
    supporters: set<nat>,
    pending: bool,
    head: Option<(nat, bytes)>,
    choice: Choice)

  /** The head PreBlocker acts on: none before Ithaca, none past the last span's end. */
  function Observed(cfg: Config, s: Schedule, h: nat, ev: Event): Option<(nat, bytes)>
    requires s.spans != []
  {
    if AddsMilestone(s, h, ev) || !ev.pending || !Ithaca(cfg, h) then None
    else if ev.head.Some? && ev.head.value.0 <= Last(s.spans).end then ev.head
    else None
  }

  /** A milestone is not added in the block right after a span was created. */
  predicate AddsMilestone(s: Schedule, h: nat, ev: Event) {
    ev.majority.Some? && h != s.lastSpanBlock + 1
  }

  /** The schedule part of PreBlocker at height h; None stands for an error. */
  function PreBlock(cfg: Config, s: Schedule, h: nat, ev: Event): Option<Outcome>
    requires s.spans != [] && cfg.spanDuration > 0
  {
    if AddsMilestone(s, h, ev) then
      match AddMilestone(cfg, s, ev.choice, h, ev.majority.value, ev.supporters)
      case None => None
      case Some(s') => Some(Outcome(s', NewMilestone))
    else if !ev.pending then RotateCurrent(cfg, s, ev.choice, h)
    else match Observed(cfg, s, h, ev)
      case None => Some(Outcome(s, Idle))
      case Some((head, id)) => OnPendingHead(cfg, s, ev.choice, h, head, id)
  }
}
