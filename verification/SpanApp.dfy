/** PreBlocker's schedule steps as they run: keeper state updated through cached contexts
    that are written back only on success. */
module SpanApp {
  import opened Prelude
  import opened SpanSchedule

  class HeimdallApp {
    const cfg: Config
    var store: Schedule

    constructor (cfg: Config, genesis: Schedule)
      requires genesis.spans != [] && Fits(cfg, genesis)
      ensures this.cfg == cfg && store == genesis && Valid()
    {
      this.cfg := cfg;
      store := genesis;
    }

    /** Block numbers fit in 64 bits, with room for another span or two. */
    static ghost predicate Fits(cfg: Config, s: Schedule)
      requires s.spans != []
    {
      && 0 < cfg.spanDuration && Last(s.spans).end + cfg.spanDuration < TWO_64
      && (s.milestone.Some? ==> s.milestone.value + 2 * cfg.spanDuration < TWO_64)
    }

    ghost predicate Valid()
      reads this
    {
      store.spans != [] && Fits(cfg, store)
    }

    /** FindCurrentProducerID: from the newest span down. */
    method FindCurrentProducerID(block: nat) returns (r: Option<nat>)
      ensures r == Owner(store.spans, block)
    {
      var spans := store.spans;
      var i := |spans|;
      assert spans[..i] == spans;
      while i > 0
        invariant 0 <= i <= |spans|
        invariant Owner(spans, block) == Owner(spans[..i], block)
      {
        assert spans[..i][..i - 1] == spans[..i - 1];
        i := i - 1;
        if spans[i].start <= block <= spans[i].end {
          return Some(spans[i].producer);
        }
      }
      return None;
    }

    /** checkAndAddFutureSpan, on the milestone branch's cached context. */
    method CheckAndAddFutureSpan(cache: Schedule, ch: Choice, h: nat, milestoneEnd: nat, supporters: set<nat>)
      returns (r: Option<Schedule>)
      requires store.spans != [] && cache.spans == store.spans
      ensures r == FutureSpan(cfg, cache, ch, h, milestoneEnd, supporters)
    {
      var lastSpan := Last(store.spans);
      if milestoneEnd < lastSpan.start {
        return Some(cache);
      }
      var endBlock := U64(lastSpan.end + cfg.spanDuration);
      var currentProducer := FindCurrentProducerID(lastSpan.end);
      if currentProducer.None? {
        return None;
      }
      var added := AddSpan(cache, ch, h, currentProducer.value, U64(lastSpan.end + 1), endBlock, supporters, {}, Ithaca(cfg, h));
      if added.None? {
        return None;
      }
      return Some(added.value.(active := supporters, failed := {}));
    }

    /** checkAndRotateCurrentSpan; false stands for an error. */
    method CheckAndRotateCurrentSpan(h: nat, ch: Choice) returns (ok: bool, ghost action: Action)
      requires Valid()
      modifies this
      ensures match RotateCurrent(cfg, old(store), ch, h)
              case None => !ok && store == old(store)
              case Some(o) => ok && store == o.next && action == o.action
    {
      action := Idle;
      var lastMilestoneBlock := if store.lastMilestoneBlock == 0 then h else store.lastMilestoneBlock;
      var diff := h - lastMilestoneBlock;
      if store.milestone.None? || diff <= Threshold(cfg, h) {
        return true, Idle;
      }
      var milestoneEnd := store.milestone.value;
      var endBlock := RotatedEnd(Last(store.spans).end, milestoneEnd, cfg.spanDuration);
      var currentProducer := FindCurrentProducerID(milestoneEnd + 1);
      if currentProducer.None? {
        return false, Idle;
      }
      var current := currentProducer.value;
      var candidates := store.active;
      candidates := candidates - store.failed;
      candidates := candidates - {current};
      var added := AddSpan(store, ch, h, current, milestoneEnd + 1, endBlock, candidates, {}, false);
      if added.None? {
        return true, Idle;
      }
      var cache := added.value;
      cache := cache.(lastMilestoneBlock := h + Buffer(cfg, h));
      cache := cache.(failed := cache.failed + {current});
      cache := DebouncePendingStallClock(cache, h, h + Buffer(cfg, h));
      store := cache;
      return true, RotatedCurrent;
    }

    method DebouncePendingStallClock(cache: Schedule, h: nat, debounceHeight: nat) returns (r: Schedule)
      requires debounceHeight == h + Buffer(cfg, h)
      ensures r == cache.(tracking := Debounced(cfg, h, cache.tracking))
    {
      r := cache;
      if !Ithaca(cfg, h) {
        return;
      }
      if cache.tracking.height == 0 {
        return;
      }
      r := cache.(tracking := Tracking(cache.tracking.block, cache.tracking.id, debounceHeight));
    }

    /** The runway loop of rotateSpanFromPendingHead. */
    method PendingRunwayEnd(lastEnd: uint64, head: uint64) returns (r: Option<nat>)
      ensures r == PendingEnd(lastEnd, head, cfg.spanDuration)
    {
      var endBlock: nat := lastEnd;
      while endBlock <= head
        invariant endBlock <= MAX_UINT64
        invariant PendingEnd(lastEnd, head, cfg.spanDuration) == PendingEnd(endBlock, head, cfg.spanDuration)
        decreases head - endBlock
      {
        if cfg.spanDuration == 0 || endBlock > MAX_UINT64 - cfg.spanDuration {
          return None;
        }
        endBlock := endBlock + cfg.spanDuration;
      }
      return Some(endBlock);
    }

    /** rotateSpanFromPendingHead and recordPendingStallRotation. */
    method RotateSpanFromPendingHead(h: nat, ch: Choice, head: uint64, id: bytes) returns (ok: bool, ghost action: Action)
      requires store.spans != [] && Last(store.spans).end < TWO_64
      modifies this
      ensures match RotatePending(cfg, old(store), ch, h, head, id)
              case None => !ok && store == old(store)
              case Some(o) => ok && store == o.next && action == o.action
    {
      action := Idle;
      var lastSpan := Last(store.spans);
      if head > lastSpan.end || head == MAX_UINT64 {
        return true, Idle;
      }
      var endBlock := PendingRunwayEnd(lastSpan.end, head);
      if endBlock.None? {
        return true, Idle;
      }
      var lookup := head;
      if head + 1 <= lastSpan.end {
        lookup := head + 1;
      }
      var currentProducer := FindCurrentProducerID(lookup);
      if currentProducer.None? && lookup < lastSpan.start {
        currentProducer := FindCurrentProducerID(lastSpan.start);
      }
      if currentProducer.None? {
        return false, Idle;
      }
      var current := currentProducer.value;
      var excluded := {current} + store.failed;
      var added := AddSpan(store, ch, h, current, head + 1, endBlock.value, store.active, excluded, false);
      if added.None? {
        return true, Idle;
      }
      var cache := added.value;
      var debounceHeight := h + Buffer(cfg, h);
      cache := cache.(lastMilestoneBlock := debounceHeight);
      cache := cache.(tracking := Tracking(head, id, debounceHeight));
      cache := cache.(failed := cache.failed + {current});
      store := cache;
      return true, RotatedPending(head, id);
    }

    /** checkAndRotateOnPendingStall. */
    method CheckAndRotateOnPendingStall(h: nat, ch: Choice, head: uint64, id: bytes) returns (ok: bool, ghost action: Action)
      requires store.spans != [] && Last(store.spans).end < TWO_64
      modifies this
      ensures match OnPendingHead(cfg, old(store), ch, h, head, id)
              case None => !ok && store == old(store)
              case Some(o) => ok && store == o.next && action == o.action
    {
      var t := store.tracking;
      if t.height == 0 || head != t.block || id != t.id {
        store := store.(tracking := Tracking(head, id, h));
        return true, Idle;
      }
      var stalled := h - t.height;
      if stalled <= Threshold(cfg, h) {
        return true, Idle;
      }
      ok, action := RotateSpanFromPendingHead(h, ch, head, id);
    }

    /** The schedule part of PreBlocker: on an error nothing is written, otherwise the new
        state is that of the specification. */
    method PreBlocker(h: nat, ev: Event) returns (ok: bool, ghost action: Action)
      requires Valid()
      modifies this
      ensures match PreBlock(cfg, old(store), h, ev)
              case None => !ok && store == old(store)
              case Some(o) => ok && store == o.next && action == o.action
    {
      if ev.majority.Some? && h != store.lastSpanBlock + 1 {
        var cache := store.(milestone := ev.majority);
        cache := cache.(lastMilestoneBlock := h);
        cache := cache.(active := ev.supporters, failed := {});
        var added := CheckAndAddFutureSpan(cache, ev.choice, h, ev.majority.value, ev.supporters);
        if added.None? {
          return false, Idle;
        }
        store := added.value;
        return true, NewMilestone;
      }
      if !ev.pending {
        ok, action := CheckAndRotateCurrentSpan(h, ev.choice);
        return;
      }
      if !Ithaca(cfg, h) {
        return true, Idle;
      }
      var lastSpan := Last(store.spans);
      if ev.head.None? || ev.head.value.0 > lastSpan.end {
        return true, Idle;
      }
      ok, action := CheckAndRotateOnPendingStall(h, ev.choice, ev.head.value.0, ev.head.value.1);
    }
  }
}
