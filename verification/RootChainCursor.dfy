/** The root-chain listener: chunked log queries with bisection on failure, and the
    persisted cursor that must never pass a block whose events were not handled. */
module RootChainCursor {
  import opened Prelude
  import opened BlockRanges

  const MAX_ROOT_CHAIN_BLOCK_RANGE: nat := 5000

  /** The stored cursor: never written, unreadable, or a block number. */
  datatype Stored = Missing | Unreadable | At(block: nat)

  /** splitBlockRange: the last block of the earlier half, which is as long as the later one or
      one block longer. */
  function Middle(from: nat, to: nat): (mid: nat)
    requires from < to
    ensures from <= mid < to
    ensures 0 <= (mid - from + 1) - (to - mid) <= 1
  {
    from + (to - from) / 2
  }

  /** A polled header, and how the environment behaves while it is processed: whether the
      chain parameters could be fetched (and the confirmations they ask for), whether asking
      the store for the key succeeded, and whether reading it did. */
  datatype Header = Header(number: nat, isFinalized: bool, paramsOk: bool, confirmations: nat, hasOk: bool, getOk: bool)

  /** The last block to process, None when there is none yet. */
  function Target(header: Header): Option<nat> {
    if !header.paramsOk then None
    else if header.isFinalized then Some(header.number)
    else if header.number <= header.confirmations then None
    else Some(header.number - header.confirmations)
  }

  /** The first block to process, None when there is nothing to do. An error of the store's
      Has is ignored and reads as a missing key. */
  function Start(stored: Stored, header: Header, target: nat): Option<nat> {
    if !header.hasOk || stored.Missing? then Some(target)
    else if !header.getOk then None
    else if stored.Unreadable? then Some(target)
    else if stored.block >= target then None
    else Some(stored.block + 1)
  }

  /** Whether handling blocks for this header continues where the cursor stands: the key was
      looked up, or there was none to lose, or the target happens to be the next block. */
  predicate Continues(stored: Stored, header: Header) {
    header.hasOk || !stored.At? || Target(header) in {None, Some(stored.block + 1)}
  }

  /** The handled ranges tile, in order and without a gap, everything from the initial
      cursor (or from the first block ever handled) up to the current one. */
  ghost predicate Gapless(initial: Stored, handled: seq<Range>, stored: Stored) {
    if initial.At? then stored.At? && Tiles(handled, initial.block + 1, stored.block)
    else if handled == [] then stored == initial
    else stored.At? && Tiles(handled, handled[0].from, stored.block)
  }

  /** Handling a first range for a header keeps the record gap-free exactly when the header
      continues at the cursor. */
  lemma {:induction false} GaplessIffContinues(initial: Stored, handled: seq<Range>, stored: Stored, header: Header, done: seq<Range>, end: nat)
    requires Gapless(initial, handled, stored)
    requires Target(header).Some? && Start(stored, header, Target(header).value).Some?
    requires done != [] && Tiles(done, Start(stored, header, Target(header).value).value, end)
    ensures Gapless(initial, handled + done, At(end)) <==> Continues(stored, header)
    ensures Continues(stored, header) && stored.At? ==> end > stored.block
  {
    TilesNotBackward(done[1..], done[0].to + 1, end);
    if stored.At? {
      var from := if initial.At? then initial.block + 1 else handled[0].from;
      TilesNotBackward(handled, from, stored.block);
      TilesConcat(handled, done, from, stored.block, end);
      if Tiles(done, stored.block + 1, end) {
        assert done[0].from == stored.block + 1;
      }
    } else {
      assert handled + done == done;
    }
  }

  /** An ignored error of Has makes the cursor jump over blocks nobody queried, or back
      over blocks already handled. */
  lemma HasErrorSkipsOrRewinds()
    ensures
      var ahead := Header(200, true, true, 12, false, true);
      && Start(At(100), ahead, 200) == Some(200)
      && !Gapless(At(90), [Range(91, 100)] + [Range(200, 200)], At(200))
    ensures
      var behind := Header(50, true, true, 12, false, true);
      && Start(At(100), behind, 50) == Some(50)
      && !Gapless(At(90), [Range(91, 100)] + [Range(50, 50)], At(50))
  {
    assert Tiles([Range(91, 100)], 91, 100);
    TilesConcat([Range(91, 100)], [Range(200, 200)], 91, 100, 200);
    TilesConcat([Range(91, 100)], [Range(50, 50)], 91, 100, 50);
  }

  // ----- what the queries account for -----

  /** The place right behind the cursor the handled ranges stand for; anywhere when there
      has never been a cursor. */
  ghost predicate Behind(initial: Stored, handled: seq<Range>, block: nat) {
    if handled != [] then block == handled[|handled| - 1].to + 1
    else initial.At? ==> block == initial.block + 1
  }

  /** The successful queries are the handled ranges, in order, and between them only ranges
      that started right behind the cursor of their time and were then asked for again,
      because the cursor could not be persisted. */
  ghost predicate Accounted(initial: Stored, answered: seq<Range>, handled: seq<Range>)
    decreases |answered|
  {
    if answered == [] then handled == []
    else
      var before, last := answered[..|answered| - 1], answered[|answered| - 1];
      || (handled != [] && handled[|handled| - 1] == last && Accounted(initial, before, handled[..|handled| - 1]))
      || (Behind(initial, handled, last.from) && Accounted(initial, before, handled))
  }

  lemma {:induction false} AccountedOneMore(initial: Stored, answered: seq<Range>, handled: seq<Range>, range: Range)
    requires Accounted(initial, answered, handled)
    ensures Accounted(initial, answered + [range], handled + [range])
    ensures Behind(initial, handled, range.from) ==> Accounted(initial, answered + [range], handled)
  {
    assert (answered + [range])[..|answered|] == answered && (handled + [range])[..|handled|] == handled;
  }

  lemma {:induction false} AccountedMore(initial: Stored, answered: seq<Range>, handled: seq<Range>, done: seq<Range>)
    requires Accounted(initial, answered, handled)
    ensures Accounted(initial, answered + done, handled + done)
    decreases |done|
  {
    hide Accounted;
    if done == [] {
      assert answered + done == answered && handled + done == handled;
    } else {
      var init, last := done[..|done| - 1], done[|done| - 1];
      AccountedMore(initial, answered, handled, init);
      AccountedOneMore(initial, answered + init, handled + init, last);
      assert answered + init + [last] == answered + done && handled + init + [last] == handled + done;
    }
  }

  /** A header that continues at the cursor keeps the account. */
  lemma {:induction false} HeaderAccounted(initial: Stored, answered: seq<Range>, handled: seq<Range>, stored: Stored, header: Header, done: seq<Range>, lost: seq<Range>, end: int)
    requires Gapless(initial, handled, stored) && Accounted(initial, answered, handled) && Continues(stored, header)
    requires Target(header).Some? && Start(stored, header, Target(header).value).Some?
    requires Tiles(done, Start(stored, header, Target(header).value).value, end)
    requires |lost| <= 1 && (lost != [] ==> lost[0].from == end + 1)
    ensures Accounted(initial, answered + done + lost, handled + done)
  {
    hide Accounted;
    var from := Start(stored, header, Target(header).value).value;
    AccountedMore(initial, answered, handled, done);
    if lost == [] {
      assert answered + done + lost == answered + done;
    } else {
      assert lost == [lost[0]];
      if done != [] {
        TilesLast(done, from, end);
      } else if handled != [] {
        TilesLast(handled, handled[0].from, stored.block);
        assert handled + done == handled;
      }
      AccountedOneMore(initial, answered + done, handled + done, lost[0]);
    }
  }

  // ----- the events -----

  datatype Log = Log(topics: seq<bytes>, data: bytes)

  /** The logs that are handled: those whose first topic is a known event. */
  function Selected(events: map<bytes, string>, logs: seq<Log>): seq<Log> {
    if logs == [] then []
    else
      var log := logs[|logs| - 1];
      Selected(events, logs[..|logs| - 1]) + if log.topics != [] && log.topics[0] in events then [log] else []
  }

  /** What the root chain answers about a range of final blocks. */
  type History = (nat, nat) -> seq<Log>

  /** Consecutive ranges answer one after the other what they answer together. */
  ghost predicate Additive(history: History) {
    forall from: nat, mid: nat, to: nat :: from <= mid < to ==> history(from, to) == history(from, mid) + history(mid + 1, to)
  }

  /** The events handled by these queries, in order. */
  ghost function EventsOf(events: map<bytes, string>, history: History, ranges: seq<Range>): seq<Log> {
    if ranges == [] then []
    else
      var last := ranges[|ranges| - 1];
      EventsOf(events, history, ranges[..|ranges| - 1]) + Selected(events, history(last.from, last.to))
  }

  /** Of a single log it depends on the first topic alone. */
  lemma SelectedOfOne(events: map<bytes, string>, log: Log)
    ensures Selected(events, [log]) == if |log.topics| > 0 && log.topics[0] in events.Keys then [log] else []
  {
    assert [log][..0] == [] && Selected(events, []) == [];
  }

  lemma {:induction false} SelectedConcat(events: map<bytes, string>, a: seq<Log>, b: seq<Log>)
    ensures Selected(events, a + b) == Selected(events, a) + Selected(events, b)
    decreases |b|
  {
    if b == [] {
      assert a + b == a;
    } else {
      var init := b[..|b| - 1];
      assert (a + b)[..|a + b| - 1] == a + init && (a + b)[|a + b| - 1] == b[|b| - 1];
      SelectedConcat(events, a, init);
    }
  }

  lemma EventsOneMore(events: map<bytes, string>, history: History, ranges: seq<Range>, range: Range)
    ensures EventsOf(events, history, ranges + [range]) == EventsOf(events, history, ranges) + Selected(events, history(range.from, range.to))
  {
    assert (ranges + [range])[..|ranges|] == ranges;
  }

  lemma {:induction false} TilesInit(a: seq<Range>, from: nat, to: int)
    requires Tiles(a, from, to) && a != []
    ensures var last := a[|a| - 1];
      last.to == to && from <= last.from <= to && Tiles(a[..|a| - 1], from, last.from - 1)
    decreases |a|
  {
    TilesNotBackward(a[1..], a[0].to + 1, to);
    if |a| > 1 {
      TilesInit(a[1..], a[0].to + 1, to);
      assert a[1..][..|a| - 2] == a[..|a| - 1][1..];
    }
  }

  /** However an interval was cut into queries, its events are those of one query. */
  lemma {:induction false} CuttingDoesNotMatter(events: map<bytes, string>, history: History, ranges: seq<Range>, from: nat, to: nat)
    requires Additive(history) && Tiles(ranges, from, to) && ranges != []
    ensures EventsOf(events, history, ranges) == Selected(events, history(from, to))
    decreases |ranges|
  {
    hide Tiles, Selected;
    TilesInit(ranges, from, to);
    var init, last := ranges[..|ranges| - 1], ranges[|ranges| - 1];
    if init == [] {
      TilesBase(from, to);
      assert EventsOf(events, history, init) == [];
    } else {
      TilesLast(init, from, last.from - 1);
      CuttingDoesNotMatter(events, history, init, from, last.from - 1);
      assert history(from, to) == history(from, last.from - 1) + history(last.from, to);
      SelectedConcat(events, history(from, last.from - 1), history(last.from, to));
    }
  }

  /** The events of the handled ranges are among those of the successful queries, and
      are all of them if every cursor was persisted. */
  lemma {:induction false} AccountedEvents(initial: Stored, answered: seq<Range>, handled: seq<Range>, events: map<bytes, string>, history: History)
    requires Accounted(initial, answered, handled)
    ensures |handled| <= |answered|
    ensures |handled| == |answered| ==> handled == answered
    ensures multiset(EventsOf(events, history, handled)) <= multiset(EventsOf(events, history, answered))
    decreases |answered|
  {
    hide Selected, EventsOf, Behind;
    if answered == [] {
    } else {
      var before, last := answered[..|answered| - 1], answered[|answered| - 1];
      assert answered == before + [last];
      EventsOneMore(events, history, before, last);
      if handled != [] && handled[|handled| - 1] == last && Accounted(initial, before, handled[..|handled| - 1]) {
        var init := handled[..|handled| - 1];
        assert handled == init + [last];
        AccountedEvents(initial, before, init, events, history);
        EventsOneMore(events, history, init, last);
      } else {
        AccountedEvents(initial, before, handled, events, history);
      }
    }
  }

  /** What the record of a run means. Every event between the initial and the current cursor
      was handled: exactly once, in order, if every cursor was persisted, and at least as
      often as it occurs in any case. */
  lemma {:induction false} EventsHandled(initial: nat, answered: seq<Range>, handled: seq<Range>, stored: Stored, events: map<bytes, string>, history: History)
    requires Additive(history) && Gapless(At(initial), handled, stored) && Accounted(At(initial), answered, handled)
    ensures stored.At? && stored.block >= initial
    ensures
      var due := if stored.block == initial then [] else Selected(events, history(initial + 1, stored.block));
      && multiset(due) <= multiset(EventsOf(events, history, answered))
      && (|answered| == |handled| ==> due == EventsOf(events, history, answered))
  {
    hide Tiles, Accounted, Selected, Additive;
    TilesNotBackward(handled, initial + 1, stored.block);
    AccountedEvents(At(initial), answered, handled, events, history);
    TilesBase(initial + 1, initial + 1);
    if handled != [] {
      TilesLast(handled, initial + 1, stored.block);
      CuttingDoesNotMatter(events, history, handled, initial + 1, stored.block);
    } else {
      assert EventsOf(events, history, handled) == [];
    }
  }

  /** A block above the initial cursor and up to the current one lies in a successful query,
      in one only if every cursor was persisted; no successful query reaches down to the
      initial cursor. */
  lemma {:induction false} BlocksQueried(initial: nat, answered: seq<Range>, handled: seq<Range>, stored: Stored, b: nat)
    requires Gapless(At(initial), handled, stored) && Accounted(At(initial), answered, handled)
    ensures initial < b <= stored.block ==> exists i :: 0 <= i < |answered| && answered[i].from <= b <= answered[i].to
    ensures forall i :: 0 <= i < |answered| ==> answered[i].from > initial
    ensures |answered| == |handled| ==>
      && (initial < b <= stored.block <==> exists i :: 0 <= i < |answered| && answered[i].from <= b <= answered[i].to)
      && forall i, j :: 0 <= i < j < |answered| ==> answered[i].to < answered[j].from
  {
    hide Tiles;
    TilesCoverOnce(handled, initial + 1, stored.block, b);
    AccountedEvents(At(initial), answered, handled, map[], (_, _) => []);
    AccountedRanges(initial, answered, handled, stored.block);
    if initial < b <= stored.block {
      var i :| 0 <= i < |handled| && handled[i].from <= b <= handled[i].to;
      assert handled[i] in answered;
    }
  }

  lemma {:induction false} AccountedRanges(initial: nat, answered: seq<Range>, handled: seq<Range>, end: nat)
    requires Accounted(At(initial), answered, handled) && Tiles(handled, initial + 1, end)
    ensures forall i :: 0 <= i < |handled| ==> handled[i] in answered
    ensures forall i :: 0 <= i < |answered| ==> answered[i].from > initial
    decreases |answered|
  {
    hide Tiles;
    if answered != [] {
      var before, last := answered[..|answered| - 1], answered[|answered| - 1];
      assert answered == before + [last];
      if handled != [] && handled[|handled| - 1] == last && Accounted(At(initial), before, handled[..|handled| - 1]) {
        TilesInit(handled, initial + 1, end);
        AccountedRanges(initial, before, handled[..|handled| - 1], last.from - 1);
        assert forall i :: 0 <= i < |handled| - 1 ==> handled[i] == handled[..|handled| - 1][i];
      } else {
        AccountedRanges(initial, before, handled, end);
        if handled != [] { TilesLast(handled, initial + 1, end); }
      }
    }
  }

  // ----- what one piece of processing does -----

  /** The ranges handled, the last successful query if its end could not be persisted, the last
      block handled (or the one before the first), and all queries made, oldest first. */
  datatype Walk = Walk(done: seq<Range>, lost: seq<Range>, end: int, queries: seq<Range>)

  /** How from..to may be processed: what was handled is a gap-free beginning of it. All of it
      was, unless a write was lost right behind, or the query of the next block alone failed.
      At most 2n-1 queries were made for n blocks, all of them within. */
  ghost predicate Walked(w: Walk, from: nat, to: nat) {
    && from - 1 <= w.end <= to && Tiles(w.done, from, w.end) && (w.done == [] <==> w.end == from - 1)
    && |w.lost| <= 1 && (w.lost != [] ==> w.lost[0].from == w.end + 1 && w.end < to)
    && 1 <= |w.queries| <= 2 * (to - from + 1) - 1
    && (forall i :: 0 <= i < |w.queries| ==> from <= w.queries[i].from <= w.queries[i].to <= to)
    && (w.end < to ==> w.lost != [] || w.queries[|w.queries| - 1] == Range(w.end + 1, w.end + 1))
    && |w.queries| >= |w.done| + |w.lost|
  }

  /** The whole range was asked for first, and nothing else if that succeeded. */
  ghost predicate OneQuery(w: Walk, from: nat, to: nat) {
    w.queries != [] && w.queries[0] == Range(from, to) && (|w.queries| == |w.done| + |w.lost| ==> |w.queries| == 1)
  }

  lemma WalkedAtOnce(from: nat, to: nat)
    requires from <= to
    ensures
      var r := Range(from, to);
      && Walked(Walk([r], [], to, [r]), from, to) && OneQuery(Walk([r], [], to, [r]), from, to)
      && Walked(Walk([], [r], from - 1, [r]), from, to) && OneQuery(Walk([], [r], from - 1, [r]), from, to)
      && (from == to ==> Walked(Walk([], [], from - 1, [r]), from, to) && OneQuery(Walk([], [], from - 1, [r]), from, to))
  {
    TilesBase(from, to);
  }

  /** One piece after the other, the first of them complete. */
  function Then(a: Walk, b: Walk): Walk {
    Walk(a.done + b.done, b.lost, b.end, a.queries + b.queries)
  }

  lemma {:induction false} WalkedThen(a: Walk, b: Walk, from: nat, mid: nat, to: nat)
    requires from <= mid < to && Walked(a, from, mid) && a.end == mid && Walked(b, mid + 1, to)
    ensures Walked(Then(a, b), from, to) && |Then(a, b).queries| <= 2 * (to - from + 1) - 2
    ensures a.lost == []
  {
    hide Tiles;
    TilesConcat(a.done, b.done, from, mid, b.end);
    var w := Then(a, b);
    assert w.queries[|w.queries| - 1] == b.queries[|b.queries| - 1];
    assert forall i :: 0 <= i < |w.queries| ==> w.queries[i] == if i < |a.queries| then a.queries[i] else b.queries[i - |a.queries|];
  }

  /** A longer range of which only the first part was walked, incompletely. */
  lemma WalkedPart(a: Walk, from: nat, mid: nat, to: nat)
    requires from <= mid < to && Walked(a, from, mid) && a.end < mid
    ensures Walked(a, from, to) && |a.queries| <= 2 * (to - from + 1) - 2
  {
    hide Tiles;
  }

  /** A failed query of the whole, and then its parts. */
  lemma WalkedAfterFailure(w: Walk, from: nat, to: nat)
    requires from <= to && Walked(w, from, to) && |w.queries| <= 2 * (to - from + 1) - 2
    ensures
      var w' := w.(queries := [Range(from, to)] + w.queries);
      Walked(w', from, to) && OneQuery(w', from, to)
  {
    hide Tiles;
    var queries := [Range(from, to)] + w.queries;
    assert queries[|queries| - 1] == w.queries[|w.queries| - 1];
    assert forall i :: 1 <= i < |queries| ==> queries[i] == w.queries[i - 1];
  }

  /** A block deep enough for a header: final, or with the confirmations asked for. */
  predicate Confirmed(header: Header, block: nat) {
    block + (if header.isFinalized then 0 else header.confirmations) <= header.number
  }

  ghost predicate ConfirmedByOne(headers: seq<Header>, block: nat) {
    exists i :: 0 <= i < |headers| && Confirmed(headers[i], block)
  }

  lemma ConfirmedMore(headers: seq<Header>, i: nat, asked: seq<Range>, from: nat, queries: seq<Range>)
    requires i < |headers| && forall k :: 0 <= k < |queries| ==> Confirmed(headers[i], queries[k].to)
    requires forall k :: from <= k < |asked| ==> ConfirmedByOne(headers, asked[k].to)
    ensures forall k :: from <= k < |asked + queries| ==> ConfirmedByOne(headers, (asked + queries)[k].to)
  {
    hide Confirmed;
    forall k | from <= k < |asked + queries| ensures ConfirmedByOne(headers, (asked + queries)[k].to) {
      if k < |asked| {
        assert (asked + queries)[k] == asked[k];
      } else {
        assert (asked + queries)[k] == queries[k - |asked|];
      }
    }
  }

  lemma ConfirmedOne(headers: seq<Header>, i: nat, block: nat)
    requires i < |headers| && Confirmed(headers[i], block)
    ensures ConfirmedByOne(headers, block)
  {
  }

  /** What a walk for a header means: nothing unconfirmed is asked for, and behind a readable
      cursor that has not reached the last confirmed block, the next block is asked for
      first and the last confirmed block is reached, unless something was lost or failed. */
  lemma WalkedForHeader(header: Header, stored: Stored, w: Walk)
    requires Target(header).Some? && Start(stored, header, Target(header).value).Some?
    requires Walked(w, Start(stored, header, Target(header).value).value, Target(header).value)
    ensures forall i :: 0 <= i < |w.queries| ==> Confirmed(header, w.queries[i].to)
    ensures w.done != [] ==> w.end >= 0 && Confirmed(header, w.end)
    ensures Confirmed(header, w.end + 1) ==> w.lost != [] || w.queries[|w.queries| - 1] == Range(w.end + 1, w.end + 1)
    ensures header.hasOk && stored.At? ==> forall i :: 0 <= i < |w.queries| ==> w.queries[i].from > stored.block
  {
    hide Tiles;
  }

  /** When there is work: the parameters are known, and the store yields no cursor, an
      unreadable one, or one behind the last confirmed block. */
  lemma WorkIff(header: Header, stored: Stored)
    ensures Target(header).Some? && Start(stored, header, Target(header).value).Some? <==>
      && header.paramsOk && (header.isFinalized || header.number > header.confirmations)
      && (|| !header.hasOk || stored.Missing?
          || (header.getOk && (stored.Unreadable? || Confirmed(header, stored.block + 1))))
  {
  }

  /** What a walk for a header does to the record. */
  lemma {:induction false} HeaderRecorded(initial: Stored, answered: seq<Range>, handled: seq<Range>, stored: Stored, header: Header, w: Walk)
    requires Target(header).Some? && Start(stored, header, Target(header).value).Some?
    requires Walked(w, Start(stored, header, Target(header).value).value, Target(header).value)
    ensures Gapless(initial, handled, stored) ==>
      var stored' := if w.done == [] || w.end < 0 then stored else At(w.end);
      && (Gapless(initial, handled + w.done, stored') <==> w.done == [] || Continues(stored, header))
      && (Continues(stored, header) && stored.At? ==> stored'.At? && stored'.block >= stored.block)
      && (Accounted(initial, answered, handled) && Continues(stored, header) ==>
            Accounted(initial, answered + w.done + w.lost, handled + w.done))
  {
    hide Tiles, Accounted, Gapless;
    if Gapless(initial, handled, stored) {
      if w.done == [] {
        assert handled + w.done == handled;
      } else {
        GaplessIffContinues(initial, handled, stored, header, w.done, w.end);
      }
      if Accounted(initial, answered, handled) && Continues(stored, header) {
        HeaderAccounted(initial, answered, handled, stored, header, w.done, w.lost, w.end);
      }
    }
  }

  class RootChainListener {
    var stored: Stored

    /** Ranges queried successfully whose end was then persisted, oldest first. */
    ghost var handled: seq<Range>

    /** All ranges queried, and those queried successfully, oldest first. */
    ghost var asked: seq<Range>
    ghost var answered: seq<Range>

    /** The events handed to handleLog, oldest first. */
    ghost var broadcast: seq<Log>

    /** The known events by topic, those of them the bridge supports, and what the root chain
        answers about its final blocks. */
    const events: map<bytes, string>
    const supported: set<string>
    const history: History

    constructor (stored: Stored, events: map<bytes, string>, supported: set<string>, history: History)
      ensures this.stored == stored && handled == [] && asked == [] && answered == [] && broadcast == []
      ensures this.events == events && this.supported == supported && this.history == history
      ensures Recorded() && Gapless(stored, handled, stored) && Accounted(stored, answered, handled)
    {
      this.stored, this.events, this.supported, this.history := stored, events, supported, history;
      handled, asked, answered, broadcast := [], [], [], [];
    }

    /** No query was wider than the limit, only what was asked was answered, and exactly the
        events of the answered queries were handled. */
    ghost predicate Recorded()
      reads this
    {
      && (forall i :: 0 <= i < |asked| ==> asked[i].from <= asked[i].to < asked[i].from + 5000)
      && (forall i :: 0 <= i < |answered| ==> answered[i] in asked)
      && broadcast == EventsOf(events, history, answered)
    }

    /** rootChainEventTopics. */
    function Topics(): set<bytes> {
      set topic | topic in events && events[topic] in supported
    }

    /** queryAndBroadcastEvents: fails, with no event handled, when the outside decides so or
        no topic is configured; otherwise handles the known events of the range in order. */
    method QueryAndBroadcastEvents(from: nat, to: nat) returns (ok: bool)
      requires Recorded() && from <= to < from + MAX_ROOT_CHAIN_BLOCK_RANGE
      modifies this`asked, this`answered, this`broadcast
      ensures Recorded()
      ensures asked == old(asked) + [Range(from, to)]
      ensures answered == old(answered) + (if ok then [Range(from, to)] else [])
      ensures broadcast == old(broadcast) + (if ok then Selected(events, history(from, to)) else [])
      ensures Topics() == {} ==> !ok
    {
      hide Selected, EventsOf;
      asked := asked + [Range(from, to)];
      if Topics() == {} {
        return false;
      }
      ok := *;  // the client is ready, and FilterLogs succeeds
      if ok {
        BroadcastEvents(history(from, to));
        EventsOneMore(events, history, answered, Range(from, to));
        answered := answered + [Range(from, to)];
      }
    }

    /** The loop over the logs of one answer. */
    method BroadcastEvents(logs: seq<Log>)
      modifies this`broadcast
      ensures broadcast == old(broadcast) + Selected(events, logs)
    {
      for i := 0 to |logs|
        invariant broadcast == old(broadcast) + Selected(events, logs[..i])
      {
        assert logs[..i + 1][..i] == logs[..i] && logs[..i + 1][i] == logs[i];
        if |logs[i].topics| == 0 {
          continue;
        }
        if logs[i].topics[0] !in events {
          continue;
        }
        broadcast := broadcast + [logs[i]];
      }
      assert logs[..|logs|] == logs;
    }

    /** persistLastRootBlock: writes the cursor, or fails and leaves it. */
    method PersistLastRootBlock(ghost from: nat, to: nat) returns (ok: bool)
      modifies this`stored, this`handled
      ensures old(Recorded()) ==> Recorded()
      ensures stored == if ok then At(to) else old(stored)
      ensures handled == old(handled) + (if ok then [Range(from, to)] else [])
    {
      ok := *;
      if ok {
        stored := At(to);
        handled := handled + [Range(from, to)];
      }
    }

    /** The record of a walk: what it handled and asked, with the cursor at its end. */
    twostate predicate Did(w: Walk)
      reads this
    {
      && handled == old(handled) + w.done
      && stored == (if w.done == [] || w.end < 0 then old(stored) else At(w.end))
      && answered == old(answered) + w.done + w.lost
      && asked == old(asked) + w.queries
    }

    /** processRootChainBlockRange: succeeds exactly if the whole range was handled. */
    method ProcessRootChainBlockRange(from: nat, to: nat) returns (ok: bool, ghost w: Walk)
      requires from <= to < from + MAX_ROOT_CHAIN_BLOCK_RANGE && Recorded()
      modifies this
      ensures Recorded() && Did(w) && Walked(w, from, to) && OneQuery(w, from, to)
      ensures ok <==> w.end == to
      decreases (to - from)
    {
      hide Tiles, Recorded, Walked, OneQuery;
      WalkedAtOnce(from, to);
      ghost var whole := Range(from, to);
      var queried := QueryAndBroadcastEvents(from, to);
      if queried {
        ok := PersistLastRootBlock(from, to);
        w := if ok then Walk([whole], [], to, [whole]) else Walk([], [whole], from - 1, [whole]);
        return;
      }
      if from >= to {
        ok, w := false, Walk([], [], from - 1, [whole]);
        return;
      }
      var mid := Middle(from, to);
      ghost var left;
      ok, left := ProcessRootChainBlockRange(from, mid);
      EndInRange(left, from, mid);
      if !ok {
        WalkedPart(left, from, mid, to);
        WalkedAfterFailure(left, from, to);
        w := left.(queries := [whole] + left.queries);
        return;
      }
      ghost var right;
      ok, right := ProcessRootChainBlockRange(mid + 1, to);
      EndInRange(right, mid + 1, to);
      WalkedThen(left, right, from, mid, to);
      WalkedAfterFailure(Then(left, right), from, to);
      w := Then(left, right).(queries := [whole] + Then(left, right).queries);
      assert handled == old(handled) + w.done && answered == old(answered) + w.done + w.lost && asked == old(asked) + w.queries;
    }

    /** The chunk loop of ProcessHeader: chunks of 5000 blocks, as long as they succeed. */
    method ProcessChunks(from: nat, to: nat) returns (ghost w: Walk)
      requires from <= to && Recorded()
      modifies this
      ensures Recorded() && Did(w) && Walked(w, from, to)
      ensures w.queries != [] && w.queries[0] == Range(from, if to - from < 5000 then to else from + 4999)
      ensures |w.queries| == |w.done| + |w.lost| ==> 5000 * (|w.queries| - 1) <= to - from
    {
      hide Tiles, Recorded, Walked;
      w := Walk([], [], from - 1, []);
      var chunkFrom := from;
      while chunkFrom <= to
        invariant from <= chunkFrom <= to + 1 && Recorded() && Did(w)
        invariant chunkFrom > from ==> Walked(w, from, chunkFrom - 1) && w.end == chunkFrom - 1
        invariant chunkFrom == from ==> w == Walk([], [], from - 1, [])
        invariant chunkFrom > from ==> w.queries != [] && w.queries[0] == Range(from, if to - from < 5000 then to else from + 4999)
        invariant |w.queries| >= |w.done| && w.lost == []
        invariant |w.queries| == |w.done| ==>
          if chunkFrom <= to then chunkFrom - from == 5000 * |w.queries| else 5000 * (|w.queries| - 1) <= to - from
        decreases (to + 1 - chunkFrom)
      {
        var chunkTo := chunkFrom + (MAX_ROOT_CHAIN_BLOCK_RANGE - 1);
        if chunkTo > to {
          chunkTo := to;
        }
        ghost var chunk;
        var ok;
        ok, chunk := ProcessRootChainBlockRange(chunkFrom, chunkTo);
        EndInRange(chunk, chunkFrom, chunkTo);
        ghost var before := w;
        w := Then(before, chunk);
        if chunkFrom == from {
          assert w == chunk;
        } else {
          EndInRange(before, from, chunkFrom - 1);
          WalkedThen(before, chunk, from, chunkFrom - 1, chunkTo);
        }
        assert handled == old(handled) + w.done && answered == old(answered) + w.done + w.lost && asked == old(asked) + w.queries;
        if !ok {
          if chunkTo < to {
            WalkedPart(w, from, chunkTo, to);
          }
          return;
        }
        chunkFrom := chunkTo + 1;
      }
    }

    lemma EndInRange(w: Walk, from: nat, to: nat)
      requires Walked(w, from, to)
      ensures from - 1 <= w.end <= to && (w.done == [] <==> w.end == from - 1)
      ensures w.end == to ==> w.lost == []
      ensures w.queries != [] && |w.queries| >= |w.done| + |w.lost|
    {
    }

    /** ProcessHeader: nothing when there is no target or nothing behind the cursor, otherwise
        a walk from the start block to the target; a gap-free record stays gap-free exactly
        when nothing was handled or the header continues at the cursor. No block without the
        confirmations asked for is queried, and the last block that has them is reached unless a
        write is lost or a block alone cannot be queried. The first block asked for is the one
        behind the cursor, or without a cursor the last one with its confirmations. */
    method ProcessHeader(header: Header, ghost initial: Stored) returns (ghost w: Walk)
      requires Recorded()
      modifies this
      ensures Recorded() && Did(w)
      ensures if Target(header).None? || Start(old(stored), header, Target(header).value).None?
              then w.queries == [] && w.done == [] && w.lost == []
              else Walked(w, Start(old(stored), header, Target(header).value).value, Target(header).value)
      ensures w.queries != [] <==>
        && header.paramsOk && (header.isFinalized || header.number > header.confirmations)
        && (|| !header.hasOk || old(stored).Missing?
            || (header.getOk && (old(stored).Unreadable? || Confirmed(header, old(stored).block + 1))))
      ensures w.queries != [] ==>
        if header.hasOk && old(stored).At? then w.queries[0].from == old(stored).block + 1
        else Confirmed(header, w.queries[0].from) && !Confirmed(header, w.queries[0].from + 1)
      ensures forall i :: 0 <= i < |w.queries| ==> Confirmed(header, w.queries[i].to)
      ensures stored.At? && stored != old(stored) ==> Confirmed(header, stored.block)
      ensures w.queries != [] && Confirmed(header, w.end + 1) ==>
        w.end >= -1 && (w.lost != [] || w.queries[|w.queries| - 1] == Range(w.end + 1, w.end + 1))
      ensures Gapless(initial, old(handled), old(stored)) ==>
        (Gapless(initial, handled, stored) <==> w.done == [] || Continues(old(stored), header))
      ensures Gapless(initial, old(handled), old(stored)) && Continues(old(stored), header) && old(stored).At? ==>
        stored.At? && stored.block >= old(stored).block
      ensures Gapless(initial, old(handled), old(stored)) && Accounted(initial, old(answered), old(handled)) && Continues(old(stored), header) ==>
        Accounted(initial, answered, handled)
    {
      hide Tiles, Recorded, Accounted, Gapless, Walked;
      WorkIff(header, stored);
      w := Walk([], [], 0, []);
      var target := Target(header);
      if target.None? {
        return;
      }
      var start := Start(stored, header, target.value);
      if start.None? {
        return;
      }
      w := ProcessChunks(start.value, target.value);
      EndInRange(w, start.value, target.value);
      WalkedForHeader(header, old(stored), w);
      HeaderRecorded(initial, old(answered), old(handled), old(stored), header, w);
    }

    /** Any sequence of headers whose key lookups do not fail: however queries, reads and
        writes fail, the handled ranges tile everything up to the cursor, which never moves
        back, and the successful queries are accounted for by them; nothing unconfirmed is ever
        queried or passed. So every event behind a
        readable initial cursor up to the current one has been handled, at least once, and
        exactly once in order if no write was lost. */
    method ProcessHeaders(headers: seq<Header>, ghost initial: Stored)
      requires Recorded() && Gapless(initial, handled, stored) && Accounted(initial, answered, handled)
      requires forall i :: 0 <= i < |headers| ==> headers[i].hasOk
      modifies this
      ensures Recorded() && Gapless(initial, handled, stored) && Accounted(initial, answered, handled)
      ensures old(handled) <= handled && old(asked) <= asked
      ensures old(stored).At? ==> stored.At? && stored.block >= old(stored).block
      ensures forall i :: |old(asked)| <= i < |asked| ==> ConfirmedByOne(headers, asked[i].to)
      ensures stored.At? && stored != old(stored) ==> ConfirmedByOne(headers, stored.block)
      ensures initial.At? && Additive(history) ==>
        && stored.At? && stored.block >= initial.block
        && var due := if stored.block == initial.block then [] else Selected(events, history(initial.block + 1, stored.block));
        && multiset(due) <= multiset(broadcast)
        && (|answered| == |handled| ==> broadcast == due)
    {
      hide Gapless, Accounted, Recorded, Selected, Additive, ConfirmedByOne, Confirmed, Walked, Target, Start, EventsOf;
      for i := 0 to |headers|
        invariant Recorded() && Gapless(initial, handled, stored) && Accounted(initial, answered, handled)
        invariant old(handled) <= handled && old(asked) <= asked
        invariant old(stored).At? ==> stored.At? && stored.block >= old(stored).block
        invariant forall k :: |old(asked)| <= k < |asked| ==> ConfirmedByOne(headers, asked[k].to)
        invariant stored.At? && stored != old(stored) ==> ConfirmedByOne(headers, stored.block)
      {
        ghost var before, cursor := asked, stored;
        ghost var w := ProcessHeader(headers[i], initial);
        ConfirmedMore(headers, i, before, |old(asked)|, w.queries);
        if stored != cursor && stored.At? {
          ConfirmedOne(headers, i, stored.block);
        }
      }
      RecordedEvents();
      if initial.At? && Additive(history) {
        EventsHandled(initial.block, answered, handled, stored, events, history);
      }
    }

    lemma RecordedEvents()
      ensures Recorded() ==> broadcast == EventsOf(events, history, answered)
    {
    }
  }
}
