/** Agreeing on the Bor chain id while several endpoints are probed concurrently: every
    probe is a sequence of atomic steps on three shared variables, interleaved freely. */
module ChainIdentity {
  import opened Prelude

  const PRIMARY: nat := 0
  const PRIMARY_ANCHOR_FAILURE_THRESHOLD: int := 2

  /** Where a probe stands: the atomic step it takes next, with its local variables. */
  datatype Step =
    | Calling                                  // waiting for the endpoint's chain id
    | CountingFailure                          // primaryProbeFailures.Add(1)
    | ClearingFailures(id: int)                // primaryProbeFailures.Store(0)
    | LoadingReclaim(id: int)                  // probe: expectedByPrimary.Load()
    | LoadingAnchored(id: int, reclaiming: bool)  // checkChainID: expectedByPrimary.Load()
    | StoringId(id: int, reclaiming: bool)     // expectedChainID.Store(id)
    | StoringFlag(id: int, reclaiming: bool)   // expectedByPrimary.Store(true)
    | LoadingId(id: int, reclaiming: bool)     // expectedChainID.Load()
    | LoadingFailures(id: int)                 // canAnchor: primaryProbeFailures.Load()
    | Swapping(id: int, seen: nat)             // expectedChainID.CompareAndSwap(nil, id)
    | Reloading(id: int, reclaiming: bool)     // expectedChainID.Load() after a lost race
    | Failed                                   // the endpoint did not answer
    | Rejected(id: int)                        // the id is not (yet) the expected one
    | Passed(id: int, reclaimed: bool)         // accepted; the primary may reclaim traffic
    | Crashed                                  // a nil expected id was compared

  /** A probe of an endpoint. `late` remembers whether the identity was already anchored by
      the primary when the endpoint's answer came in. */
  datatype Probe = Probe(endpoint: nat, step: Step, late: bool)

  /** The shared variables and the probes; `outcomes` and `firstReport` are the history: of
      the primary's probes in the order they touched the failure counter (true: answered),
      and of the first chain id the primary ever reported. */
  datatype State = State(
    expected: Option<int>,
    byPrimary: bool,
    failures: int,
    probes: map<nat, Probe>,
    outcomes: seq<bool>,
    firstReport: Option<int>)

  datatype Action =
    | Launch(probe: nat, endpoint: nat)
    | Reply(probe: nat, id: Option<int>)   // None: an error, or a nil chain id
    | Run(probe: nat)

  predicate Finished(step: Step) {
    step.Failed? || step.Rejected? || step.Passed? || step.Crashed?
  }

  /** After captureExpectedChainID, which runs before any probe. */
  function Start(captured: Option<int>): State {
    State(captured, captured.Some?, 0, map[], [], captured)
  }

  predicate Enabled(s: State, a: Action) {
    match a
    case Launch(p, _) => p !in s.probes
    case Reply(p, _) => p in s.probes && s.probes[p].step.Calling?
    case Run(p) => p in s.probes && !s.probes[p].step.Calling? && !Finished(s.probes[p].step)
  }

  function Next(s: State, a: Action): State
    requires Enabled(s, a)
  {
    match a
    case Launch(p, endpoint) => s.(probes := s.probes[p := Probe(endpoint, Calling, false)])
    case Reply(p, id) =>
      var probe := s.probes[p];
      var step :=
        if id.None? then (if probe.endpoint == PRIMARY then CountingFailure else Failed)
        else if probe.endpoint == PRIMARY then ClearingFailures(id.value)
        else LoadingId(id.value, false);
      s.(probes := s.probes[p := Probe(probe.endpoint, step, s.byPrimary)],
         firstReport := if probe.endpoint == PRIMARY && s.firstReport.None? then id else s.firstReport)
    case Run(p) =>
      var probe := s.probes[p];
      At(RunShared(s, probe), p, probe.(step := RunLocal(s, probe)))
  }

  function At(s: State, p: nat, probe: Probe): State {
    s.(probes := s.probes[p := probe])
  }

  /** The effect of a probe's next atomic step on the shared variables. */
  function RunShared(s: State, probe: Probe): State {
    match probe.step
    case CountingFailure => s.(failures := AddInt32(s.failures), outcomes := s.outcomes + [false])
    case ClearingFailures(_) => s.(failures := 0, outcomes := s.outcomes + [true])
    case StoringId(id, _) => s.(expected := Some(id))
    case StoringFlag(_, _) => s.(byPrimary := true)
    case Swapping(id, _) => if s.expected.None? then s.(expected := Some(id)) else s
    case _ => s
  }

  /** Where the probe stands afterwards. */
  function RunLocal(s: State, probe: Probe): Step {
    match probe.step
    case CountingFailure => Failed
    case ClearingFailures(id) => LoadingReclaim(id)
    case LoadingReclaim(id) => LoadingAnchored(id, !s.byPrimary)
    case LoadingAnchored(id, r) => if !s.byPrimary then StoringId(id, r) else LoadingId(id, r)
    case StoringId(id, r) => StoringFlag(id, r)
    case StoringFlag(id, r) => Passed(id, r)
    case LoadingId(id, r) =>
      if s.expected.Some? then Compare(s.expected.value, id, r)
      else if probe.endpoint == PRIMARY then Swapping(id, |s.outcomes|)
      else LoadingFailures(id)
    case LoadingFailures(id) =>
      if s.failures >= PRIMARY_ANCHOR_FAILURE_THRESHOLD then Swapping(id, |s.outcomes|) else Rejected(id)
    case Swapping(id, _) => if s.expected.None? then Passed(id, false) else Reloading(id, false)
    case Reloading(id, r) => if s.expected.Some? then Compare(s.expected.value, id, r) else Crashed
    case done => done
  }

  function Compare(expected: int, id: int, reclaiming: bool): Step {
    if expected == id then Passed(id, reclaiming) else Rejected(id)
  }

  /** atomic.Int32.Add(1). */
  function AddInt32(x: int): int {
    if x == 0x7fff_ffff then -0x8000_0000 else x + 1
  }

  /** How many of the last outcomes, up to the latest, were failures. */
  function Trailing(outcomes: seq<bool>): (n: nat)
    ensures n <= |outcomes|
    ensures forall i :: |outcomes| - n <= i < |outcomes| ==> !outcomes[i]
  {
    if outcomes == [] || outcomes[|outcomes| - 1] then 0
    else 1 + Trailing(outcomes[..|outcomes| - 1])
  }

  /** At most one probe of the primary is under way. */
  ghost predicate OnePrimary(s: State) {
    forall p, q :: p in s.probes && q in s.probes && p != q
      && s.probes[p].endpoint == PRIMARY && s.probes[q].endpoint == PRIMARY
      ==> Finished(s.probes[p].step) || Finished(s.probes[q].step)
  }

  /** A run: from the start, one enabled action after the other. */
  ghost predicate IsRun(states: seq<State>, actions: seq<Action>, captured: Option<int>) {
    && |states| == |actions| + 1 && states[0] == Start(captured)
    && forall i :: 0 <= i < |actions| ==> Enabled(states[i], actions[i]) && states[i + 1] == Next(states[i], actions[i])
  }

  // ------------------------------------------------------------------ the invariant

  /** A primary probe that reported `id` and is about to anchor it. */
  predicate Anchoring(probe: Probe, id: int) {
    probe.endpoint == PRIMARY &&
    match probe.step
    case ClearingFailures(i) => i == id
    case LoadingReclaim(i) => i == id
    case LoadingAnchored(i, r) => i == id && r
    case StoringId(i, r) => i == id && r
    case StoringFlag(i, r) => i == id && r
    case _ => false
  }

  /** What holds of a primary probe at each of its steps. */
  predicate PrimaryOk(s: State, probe: Probe) {
    && (probe.step.Calling? || probe.step.CountingFailure? || probe.step.Failed? || s.firstReport.Some?)
    && match probe.step
       case LoadingAnchored(_, r) => r == !s.byPrimary
       case StoringId(_, r) => r && !s.byPrimary
       case StoringFlag(id, r) => r && !s.byPrimary && s.expected == Some(id)
       case LoadingId(_, r) => !r && s.byPrimary
       case Passed(id, _) => s.byPrimary && s.expected == Some(id)
       case Rejected(id) => s.byPrimary && s.expected != Some(id)
       case LoadingFailures(_) => false
       case Swapping(_, _) => false
       case Reloading(_, _) => false
       case Crashed => false
       case _ => true
  }

  /** What holds of a fallback probe at each of its steps. */
  predicate FallbackOk(s: State, probe: Probe) {
    && (probe.late ==> s.byPrimary)
    && match probe.step
       case Calling => !probe.late
       case Failed => true
       case LoadingId(_, r) => !r
       case LoadingFailures(_) => !probe.late
       case Swapping(_, seen) => !probe.late && PrimaryWasDown(s.outcomes, seen)
       case Reloading(_, r) => !r && !probe.late && s.expected.Some?
       case Passed(id, r) => !r && (probe.late ==> s.expected == Some(id))
       case Rejected(id) => probe.late ==> s.expected != Some(id)
       case _ => false
  }

  /** At the moment `seen` outcomes were known, the last two were failures. */
  predicate PrimaryWasDown(outcomes: seq<bool>, seen: nat) {
    2 <= seen <= |outcomes| && !outcomes[seen - 1] && !outcomes[seen - 2]
  }

  ghost predicate Inv(s: State) {
    && (s.byPrimary ==> s.firstReport.Some? && s.expected == s.firstReport)
    && (s.firstReport.Some? && !s.byPrimary ==> exists p :: p in s.probes && Anchoring(s.probes[p], s.firstReport.value))
    && (forall p :: p in s.probes ==>
          if s.probes[p].endpoint == PRIMARY then PrimaryOk(s, s.probes[p]) else FallbackOk(s, s.probes[p]))
    && CounterOk(s)
  }

  /** The 32-bit counter is the number of consecutive failures, as long as that fits; it is
      never above it. */
  predicate CounterOk(s: State) {
    && -0x8000_0000 <= s.failures <= 0x7fff_ffff
    && s.failures <= Trailing(s.outcomes)
    && (Trailing(s.outcomes) <= 0x7fff_ffff ==> s.failures == Trailing(s.outcomes))
  }

  /** The background prober waits for all probes of a round before it starts the next, and
      probes each endpoint once in a round: an endpoint is only probed when every earlier
      probe of it has finished. */
  ghost predicate InRounds(s: State, a: Action) {
    a.Launch? ==> forall p :: p in s.probes && s.probes[p].endpoint == a.endpoint ==> Finished(s.probes[p].step)
  }

  // ------------------------------------------------------------------ one step

  lemma InRoundsKeepsOnePrimary(s: State, a: Action)
    requires OnePrimary(s) && Enabled(s, a) && InRounds(s, a)
    ensures OnePrimary(Next(s, a))
  {
    hide RunLocal, RunShared;
    if a.Run? { SharedOnly(s, s.probes[a.probe]); }
  }

  lemma SharedOnly(s: State, probe: Probe)
    ensures RunShared(s, probe).probes == s.probes
  {
  }

  lemma {:induction false} LaunchKeepsInv(s: State, p: nat, endpoint: nat)
    requires Inv(s) && Enabled(s, Launch(p, endpoint))
    ensures Inv(Next(s, Launch(p, endpoint)))
  {
    var s' := Next(s, Launch(p, endpoint));
    if s.firstReport.Some? && !s.byPrimary {
      var q :| q in s.probes && Anchoring(s.probes[q], s.firstReport.value);
      assert q in s'.probes && s'.probes[q] == s.probes[q];
    }
  }

  lemma {:induction false} ReplyKeepsInv(s: State, p: nat, id: Option<int>)
    requires Inv(s) && OnePrimary(s) && Enabled(s, Reply(p, id))
    ensures Inv(Next(s, Reply(p, id)))
  {
    hide PrimaryOk, FallbackOk;
    var s' := Next(s, Reply(p, id));
    forall q | q in s.probes
      ensures if s'.probes[q].endpoint == PRIMARY then PrimaryOk(s', s'.probes[q]) else FallbackOk(s', s'.probes[q])
    {
      ReplyKeepsProbe(s, p, id, q);
    }
    if s.firstReport.Some? && !s.byPrimary {
      var q :| q in s.probes && Anchoring(s.probes[q], s.firstReport.value);
      assert q in s'.probes && s'.probes[q] == s.probes[q];
    } else if s'.firstReport.Some? && !s.byPrimary {
      assert Anchoring(s'.probes[p], s'.firstReport.value);
    }
  }

  lemma {:induction false} ReplyKeepsProbe(s: State, p: nat, id: Option<int>, q: nat)
    requires Inv(s) && Enabled(s, Reply(p, id)) && q in s.probes
    ensures
      var s' := Next(s, Reply(p, id));
      if s'.probes[q].endpoint == PRIMARY then PrimaryOk(s', s'.probes[q]) else FallbackOk(s', s'.probes[q])
  {
    hide Anchoring, CounterOk;
  }

  /** The counter stays truthful. */
  lemma {:induction false} RunKeepsCounter(s: State, probe: Probe)
    requires CounterOk(s)
    ensures CounterOk(RunShared(s, probe))
  {
    hide RunLocal;
    var s' := RunShared(s, probe);
    if s'.outcomes != s.outcomes {
      assert s'.outcomes[..|s.outcomes|] == s.outcomes;
    }
  }

  /** The step leaves the probe where it may be. */
  lemma {:induction false} RunKeepsOwn(s: State, p: nat)
    requires Inv(s) && OnePrimary(s) && Enabled(s, Run(p))
    ensures
      var s', probe' := RunShared(s, s.probes[p]), s.probes[p].(step := RunLocal(s, s.probes[p]));
      if probe'.endpoint == PRIMARY then PrimaryOk(s', probe') else FallbackOk(s', probe')
  {
    hide OnePrimary, Inv, Anchoring;
    InvParts(s, p);
    if s.probes[p].step.LoadingFailures? && s.failures >= PRIMARY_ANCHOR_FAILURE_THRESHOLD {
      assert Trailing(s.outcomes) >= 2;
    }
  }

  /** What the invariant says about one probe that takes a step. */
  lemma {:induction false} InvParts(s: State, p: nat)
    requires Inv(s) && OnePrimary(s) && Enabled(s, Run(p))
    ensures if s.probes[p].endpoint == PRIMARY then PrimaryOk(s, s.probes[p]) else FallbackOk(s, s.probes[p])
    ensures CounterOk(s)
    ensures s.byPrimary ==> s.expected.Some? && s.expected == s.firstReport
    ensures s.firstReport.Some? && !s.byPrimary && s.probes[p].endpoint == PRIMARY ==>
      Anchoring(s.probes[p], s.firstReport.value)
  {
  }

  /** The step leaves every other probe where it may be. */
  lemma {:induction false} RunKeepsOther(s: State, p: nat, q: nat)
    requires Inv(s) && OnePrimary(s) && Enabled(s, Run(p)) && q in s.probes && q != p
    ensures
      var s', probe := RunShared(s, s.probes[p]), s.probes[q];
      if probe.endpoint == PRIMARY then PrimaryOk(s', probe) else FallbackOk(s', probe)
  {
    hide Anchoring, CounterOk;
    InvParts(s, p);
    hide Inv;
    RunEffect(s, p);
    hide RunShared;
  }

  /** All that a step can do to the shared variables. */
  lemma {:induction false} RunEffect(s: State, p: nat)
    requires Inv(s) && OnePrimary(s) && Enabled(s, Run(p))
    ensures
      var s' := RunShared(s, s.probes[p]);
      && s'.probes == s.probes && s'.firstReport == s.firstReport
      && s.outcomes <= s'.outcomes
      && (s.byPrimary ==> s'.byPrimary && s'.expected == s.expected)
      && (s.expected.Some? ==> s'.expected.Some?)
      && (s'.byPrimary && !s.byPrimary ==>
            s.probes[p].step.StoringFlag? && s'.expected == s.expected == s.firstReport && s.firstReport.Some?)
      && (s'.expected != s.expected ==> !s'.byPrimary && (s.probes[p].endpoint == PRIMARY || s.expected.None?))
      && (s.probes[p].endpoint != PRIMARY ==> s'.byPrimary == s.byPrimary)
  {
    hide OnePrimary;
    InvParts(s, p);
  }

  lemma {:induction false} RunKeepsInv(s: State, p: nat)
    requires Inv(s) && OnePrimary(s) && Enabled(s, Run(p))
    ensures Inv(Next(s, Run(p)))
  {
    hide PrimaryOk, FallbackOk, CounterOk;
    var s' := Next(s, Run(p));
    InvParts(s, p);
    RunKeepsCounter(s, s.probes[p]);
    RunEffect(s, p);
    RunKeepsOwn(s, p);
    forall q | q in s.probes && q != p
      ensures if s'.probes[q].endpoint == PRIMARY then PrimaryOk(s', s'.probes[q]) else FallbackOk(s', s'.probes[q])
    {
      RunKeepsOther(s, p, q);
      OnlyShared(RunShared(s, s.probes[p]), s', s'.probes[q]);
    }
    OnlyShared(RunShared(s, s.probes[p]), s', s'.probes[p]);
    if s.firstReport.Some? && !s'.byPrimary {
      var q :| q in s.probes && Anchoring(s.probes[q], s.firstReport.value);
      assert q in s'.probes && Anchoring(s'.probes[q], s.firstReport.value);
    }
  }

  /** What holds of a probe depends on the shared variables alone. */
  lemma OnlyShared(s: State, s': State, probe: Probe)
    requires s' == s.(probes := s'.probes)
    ensures PrimaryOk(s, probe) == PrimaryOk(s', probe) && FallbackOk(s, probe) == FallbackOk(s', probe)
    ensures CounterOk(s) == CounterOk(s')
  {
  }

  lemma {:induction false} NextKeepsInv(s: State, a: Action)
    requires Inv(s) && OnePrimary(s) && Enabled(s, a)
    ensures Inv(Next(s, a))
  {
    hide Inv, Next, Enabled;
    match a
    case Launch(p, endpoint) => LaunchKeepsInv(s, p, endpoint);
    case Reply(p, id) => ReplyKeepsInv(s, p, id);
    case Run(p) => RunKeepsInv(s, p);
  }

  /** What any action can do once the primary has anchored the identity, or before. */
  lemma {:induction false} NextEffect(s: State, a: Action)
    requires Inv(s) && OnePrimary(s) && Enabled(s, a)
    ensures
      var s' := Next(s, a);
      && (s.byPrimary ==> s'.byPrimary && s'.expected == s.expected && s'.firstReport == s.firstReport)
      && (s.expected.Some? ==> s'.expected.Some?)
      && (s.firstReport.Some? ==> s'.firstReport == s.firstReport)
  {
    hide PrimaryOk, FallbackOk, CounterOk, OnePrimary;
    if a.Run? { RunEffect(s, a.probe); }
  }

  // ------------------------------------------------------------------ whole runs

  /** In every state of every interleaving the invariant holds; in particular no probe ever
      compares with a missing id. */
  lemma {:induction false} RunInvariant(states: seq<State>, actions: seq<Action>, captured: Option<int>, n: nat)
    requires IsRun(states, actions, captured) && n < |states|
    requires forall i :: 0 <= i < |actions| ==> InRounds(states[i], actions[i])
    ensures Inv(states[n]) && OnePrimary(states[n])
    ensures forall p :: p in states[n].probes ==> !states[n].probes[p].step.Crashed?
  {
    hide Next, Enabled, InRounds;
    if n > 0 {
      RunInvariant(states, actions, captured, n - 1);
      assert states[n - 1 + 1] == Next(states[n - 1], actions[n - 1]);
      NextKeepsInv(states[n - 1], actions[n - 1]);
      InRoundsKeepsOnePrimary(states[n - 1], actions[n - 1]);
    }
  }

  /** Once the primary has anchored the identity, the expected id is the first id the primary
      ever reported, and it stays so for the rest of the run. */
  lemma {:induction false} AnchoredForGood(states: seq<State>, actions: seq<Action>, captured: Option<int>, m: nat, n: nat)
    requires IsRun(states, actions, captured) && m <= n < |states|
    requires forall i :: 0 <= i < |actions| ==> InRounds(states[i], actions[i])
    requires states[m].byPrimary
    ensures states[n].byPrimary && states[m].firstReport.Some?
    ensures states[n].expected == states[m].expected == states[m].firstReport == states[n].firstReport
    decreases n
  {
    hide Next, Enabled, InRounds, OnePrimary;
    RunInvariant(states, actions, captured, m);
    if m < n {
      AnchoredForGood(states, actions, captured, m, n - 1);
      RunInvariant(states, actions, captured, n - 1);
      assert states[n - 1 + 1] == Next(states[n - 1], actions[n - 1]);
      NextEffect(states[n - 1], actions[n - 1]);
    }
  }

  /** A primary probe that has answered and been counted, on its way to anchoring. */
  predicate Answering(probe: Probe) {
    probe.endpoint == PRIMARY
    && (probe.step.LoadingReclaim? || probe.step.LoadingAnchored? || probe.step.StoringId? || probe.step.StoringFlag?)
  }

  /** As long as the primary has not anchored the identity it has never answered, unless the
      probe that did is still on its way. */
  ghost predicate Unanswered(s: State) {
    !s.byPrimary ==> forall i :: 0 <= i < |s.outcomes| && s.outcomes[i] ==>
      i == |s.outcomes| - 1 && exists p :: p in s.probes && Answering(s.probes[p])
  }

  lemma {:induction false} RunKeepsUnanswered(s: State, p: nat)
    requires Inv(s) && OnePrimary(s) && Unanswered(s) && Enabled(s, Run(p))
    ensures Unanswered(Next(s, Run(p)))
  {
    hide Inv, CounterOk, Anchoring;
    InvParts(s, p);
    var s' := Next(s, Run(p));
    if exists q :: q in s.probes && Answering(s.probes[q]) {
      var q :| q in s.probes && Answering(s.probes[q]);
      if q != p {
        assert q in s'.probes && Answering(s'.probes[q]);
      } else if !s'.byPrimary {
        assert p in s'.probes && Answering(s'.probes[p]);
      }
    } else if s.probes[p].step.ClearingFailures? {
      assert p in s'.probes && Answering(s'.probes[p]);
    }
  }

  lemma {:induction false} NextKeepsUnanswered(s: State, a: Action)
    requires Inv(s) && OnePrimary(s) && Unanswered(s) && Enabled(s, a)
    ensures Unanswered(Next(s, a))
  {
    hide Inv, OnePrimary;
    if a.Run? {
      RunKeepsUnanswered(s, a.probe);
    } else if exists q :: q in s.probes && Answering(s.probes[q]) {
      var q :| q in s.probes && Answering(s.probes[q]);
      assert q in Next(s, a).probes && Answering(Next(s, a).probes[q]);
    }
  }

  lemma {:induction false} UnansweredAlways(states: seq<State>, actions: seq<Action>, captured: Option<int>, n: nat)
    requires IsRun(states, actions, captured) && n < |states|
    requires forall i :: 0 <= i < |actions| ==> InRounds(states[i], actions[i])
    ensures Unanswered(states[n])
  {
    hide Next, Enabled, InRounds, Inv, OnePrimary;
    if n > 0 {
      UnansweredAlways(states, actions, captured, n - 1);
      RunInvariant(states, actions, captured, n - 1);
      assert states[n - 1 + 1] == Next(states[n - 1], actions[n - 1]);
      NextKeepsUnanswered(states[n - 1], actions[n - 1]);
    }
  }

  /** The step at which a fallback about to install its id has read the failure counter. */
  ghost predicate Loads(states: seq<State>, actions: seq<Action>, m: nat, p: nat, seen: nat)
    requires |states| == |actions| + 1
  {
    && m < |actions| && actions[m] == Run(p) && p in states[m].probes && states[m].probes[p].step.LoadingFailures?
    && states[m].failures >= PRIMARY_ANCHOR_FAILURE_THRESHOLD && |states[m].outcomes| == seen
  }

  lemma {:induction false} OwnLoad(states: seq<State>, actions: seq<Action>, captured: Option<int>, n: nat, p: nat) returns (m: nat)
    requires IsRun(states, actions, captured) && n < |states|
    requires forall i :: 0 <= i < |actions| ==> InRounds(states[i], actions[i])
    requires p in states[n].probes && states[n].probes[p].endpoint != PRIMARY && states[n].probes[p].step.Swapping?
    ensures m < n && Loads(states, actions, m, p, states[n].probes[p].step.seen)
  {
    hide InRounds, Inv, OnePrimary, RunShared;
    assert n > 0;
    assert Enabled(states[n - 1], actions[n - 1]) && states[n - 1 + 1] == Next(states[n - 1], actions[n - 1]);
    if actions[n - 1] == Run(p) {
      m := n - 1;
    } else {
      OthersStay(states[n - 1], actions[n - 1], p);
      m := OwnLoad(states, actions, captured, n - 1, p);
    }
  }

  lemma OthersStay(s: State, a: Action, p: nat)
    requires Enabled(s, a) && a != Run(p) && p in Next(s, a).probes && Next(s, a).probes[p].step.Swapping?
    ensures p in s.probes && s.probes[p] == Next(s, a).probes[p]
  {
    if a.Run? { SharedOnly(s, s.probes[a.probe]); }
  }

  /** A fallback changes the expected id only from none and before the primary has anchored it.
      When it read the failure counter, all probes of the primary so far had failed, and
      there had been at least two. */
  lemma {:induction false} FallbackInstallsOnlyWhenPrimaryDown(states: seq<State>, actions: seq<Action>, captured: Option<int>, n: nat)
    returns (m: nat)
    requires IsRun(states, actions, captured) && n < |actions|
    requires forall i :: 0 <= i < |actions| ==> InRounds(states[i], actions[i])
    requires states[n + 1].expected != states[n].expected
    requires states[n].probes[actions[n].probe].endpoint != PRIMARY
    ensures states[n].expected.None? && !states[n].byPrimary
    ensures states[n].probes[actions[n].probe].step.Swapping?
    ensures
      var seen := states[n].probes[actions[n].probe].step.seen;
      && m < n && Loads(states, actions, m, actions[n].probe, seen)
      && 2 <= seen <= |states[n].outcomes|
      && forall i :: 0 <= i < seen ==> !states[n].outcomes[i]
  {
    hide OnePrimary, InRounds, PrimaryOk, CounterOk;
    RunInvariant(states, actions, captured, n);
    UnansweredAlways(states, actions, captured, n);
    assert Enabled(states[n], actions[n]);
    var probe := states[n].probes[actions[n].probe];
    assert probe.step.Swapping? && PrimaryWasDown(states[n].outcomes, probe.step.seen);
    m := OwnLoad(states, actions, captured, n, actions[n].probe);
  }

  /** A fallback whose answer comes in after the primary has anchored the identity is accepted
      only with the expected id, and rejected only with another. */
  lemma {:induction false} LateFallbackJudgedByAnchor(states: seq<State>, actions: seq<Action>, captured: Option<int>, n: nat, p: nat)
    requires IsRun(states, actions, captured) && n < |states|
    requires forall i :: 0 <= i < |actions| ==> InRounds(states[i], actions[i])
    requires p in states[n].probes && states[n].probes[p].endpoint != PRIMARY && states[n].probes[p].late
    ensures states[n].byPrimary
    ensures states[n].probes[p].step.Passed? ==> states[n].firstReport == Some(states[n].probes[p].step.id)
    ensures states[n].probes[p].step.Rejected? ==> states[n].firstReport != Some(states[n].probes[p].step.id)
  {
    hide OnePrimary, InRounds, PrimaryOk, CounterOk, Next, Enabled;
    RunInvariant(states, actions, captured, n);
  }

  /** Traffic is moved back to the primary by exactly the step that anchors the identity,
      although probe and checkChainID read the flag separately. */
  lemma {:induction false} ReclaimIffAnchors(states: seq<State>, actions: seq<Action>, captured: Option<int>, n: nat)
    requires IsRun(states, actions, captured) && n < |actions|
    requires forall i :: 0 <= i < |actions| ==> InRounds(states[i], actions[i])
    ensures !states[n].byPrimary && states[n + 1].byPrimary <==>
      actions[n].Run? && states[n + 1].probes[actions[n].probe].step.Passed? && states[n + 1].probes[actions[n].probe].step.reclaimed
  {
    hide OnePrimary, InRounds, CounterOk;
    RunInvariant(states, actions, captured, n);
    assert Enabled(states[n], actions[n]);
    if actions[n].Run? {
      InvParts(states[n], actions[n].probe);
    }
  }

  // ------------------------------------------------------------------ single verdicts

  /** Whenever a probe is accepted, at that moment its id is the expected one. */
  lemma AcceptedIsExpected(s: State, p: nat)
    requires Inv(s) && OnePrimary(s) && Enabled(s, Run(p))
    requires Next(s, Run(p)).probes[p].step.Passed?
    ensures Next(s, Run(p)).expected == Some(Next(s, Run(p)).probes[p].step.id)
  {
    hide OnePrimary, Anchoring, CounterOk;
    InvParts(s, p);
  }

  /** A probe that finds an expected id when it loads it, at first or after a lost race, passes
      exactly if its own is equal, whether or not the primary has anchored it. */
  lemma LoadedIdDecides(s: State, p: nat)
    requires Enabled(s, Run(p)) && s.expected.Some?
    requires s.probes[p].step.LoadingId? || s.probes[p].step.Reloading?
    ensures
      var step, id := Next(s, Run(p)).probes[p].step, s.probes[p].step.id;
      if s.expected.value == id then step.Passed? && step.id == id else step == Rejected(id)
  {
  }

  /** A fallback is turned away without a comparison exactly if no id is expected and the primary
      has failed fewer than two probes in a row. */
  lemma TooEarlyIff(s: State, p: nat)
    requires Enabled(s, Run(p)) && s.probes[p].endpoint != PRIMARY
    requires s.probes[p].step.LoadingFailures? && CounterOk(s) && |s.outcomes| <= 0x7fff_ffff
    ensures Next(s, Run(p)).probes[p].step == Rejected(s.probes[p].step.id) <==> Trailing(s.outcomes) < 2
    ensures Trailing(s.outcomes) >= 2 ==> Next(s, Run(p)).probes[p].step.Swapping? && Next(s, Run(p)).probes[p].step.id == s.probes[p].step.id
  {
  }

  /** Every answer of the primary is counted by the probe's next step, as a failure on top of the
      earlier ones or by clearing them. */
  lemma ReplyIsCounted(s: State, p: nat, id: Option<int>)
    requires Enabled(s, Reply(p, id)) && s.probes[p].endpoint == PRIMARY
    ensures
      var s' := Next(s, Reply(p, id));
      && Enabled(s', Run(p))
      && Next(s', Run(p)).outcomes == s.outcomes + [id.Some?]
      && (id.Some? ==> Next(s', Run(p)).failures == 0 && Next(s', Run(p)).probes[p].step == LoadingReclaim(id.value))
      && (id.None? ==> Next(s', Run(p)).probes[p].step.Failed?)
      && (id.None? && s.failures < 0x7fff_ffff ==> Next(s', Run(p)).failures == s.failures + 1)
  {
  }

  /** If it is not, and nobody comes in between, it installs its own id. */
  lemma FallbackInstalls(s: State, p: nat)
    requires Enabled(s, Run(p)) && s.probes[p].step.Swapping?
    ensures s.expected.None? ==>
      var s' := Next(s, Run(p));
      s'.expected == Some(s.probes[p].step.id) && s'.probes[p].step == Passed(s.probes[p].step.id, false)
    ensures s.expected.Some? ==>
      var s' := Next(s, Run(p));
      s'.expected == s.expected && s'.probes[p].step == Reloading(s.probes[p].step.id, false)
  {
  }

  // ------------------------------------------------------------------ without the rounds

  /** Some n actions, one after the other, lead from s to `end`. */
  ghost predicate Reaches(s: State, end: State, n: nat)
    decreases n
  {
    if n == 0 then s == end
    else exists a :: Enabled(s, a) && Reaches(Next(s, a), end, n - 1)
  }

  lemma ReachesBefore(s: State, a: Action, end: State, n: nat)
    requires Enabled(s, a) && Reaches(Next(s, a), end, n)
    ensures Reaches(s, end, n + 1)
  {
  }

  /** Two probes of the primary under way at once, at the steps x and y. */
  function Racing(expected: Option<int>, byPrimary: bool, outcomes: seq<bool>, x: Step, y: Step): State {
    State(expected, byPrimary, 0, map[1 := Probe(PRIMARY, x, false), 2 := Probe(PRIMARY, y, false)], outcomes, Some(137))
  }

  lemma ProbesDoNotMatter(s: State, probe: Probe, probes: map<nat, Probe>)
    ensures RunShared(s.(probes := probes), probe) == RunShared(s, probe).(probes := probes)
    ensures RunLocal(s.(probes := probes), probe) == RunLocal(s, probe)
  {
  }

  lemma RacingBefore(e: Option<int>, b: bool, o: seq<bool>, x: Step, y: Step, p: nat, e': Option<int>, b': bool, o': seq<bool>, z: Step, end: State, n: nat)
    requires 1 <= p <= 2
    requires
      var probe := Probe(PRIMARY, if p == 1 then x else y, false);
      var s := State(e, b, 0, map[], o, Some(137));
      && !probe.step.Calling? && !Finished(probe.step) && !probe.step.CountingFailure?
      && RunShared(s, probe) == State(e', b', 0, map[], o', Some(137)) && RunLocal(s, probe) == z
    requires Reaches(Racing(e', b', o', if p == 1 then z else x, if p == 2 then z else y), end, n)
    ensures Reaches(Racing(e, b, o, x, y), end, n + 1)
  {
    hide Reaches, RunShared, RunLocal;
    var s := Racing(e, b, o, x, y);
    var probe := Probe(PRIMARY, if p == 1 then x else y, false);
    ProbesDoNotMatter(State(e, b, 0, map[], o, Some(137)), probe, s.probes);
    assert Next(s, Run(p)) == Racing(e', b', o', if p == 1 then z else x, if p == 2 then z else y);
    ReachesBefore(s, Run(p), end, n);
  }

  lemma RacingStart(end: State, n: nat)
    requires Reaches(Racing(None, false, [], ClearingFailures(137), ClearingFailures(80002)), end, n)
    ensures Reaches(Start(None), end, n + 4)
  {
    hide Reaches;
    var s0 := Start(None);
    var s1 := Next(s0, Launch(1, PRIMARY));
    var s2 := Next(s1, Launch(2, PRIMARY));
    var s3 := Next(s2, Reply(1, Some(137)));
    var s4 := Next(s3, Reply(2, Some(80002)));
    assert s4 == Racing(None, false, [], ClearingFailures(137), ClearingFailures(80002));
    ReachesBefore(s3, Reply(2, Some(80002)), end, n);
    ReachesBefore(s2, Reply(1, Some(137)), end, n + 1);
    ReachesBefore(s1, Launch(2, PRIMARY), end, n + 2);
    ReachesBefore(s0, Launch(1, PRIMARY), end, n + 3);
  }

  /** Both probes find the identity not anchored. */
  lemma RacingChecks(end: State, n: nat)
    requires Reaches(Racing(None, false, [true, true], StoringId(137, true), StoringId(80002, true)), end, n)
    ensures Reaches(Racing(None, false, [], ClearingFailures(137), ClearingFailures(80002)), end, n + 6)
  {
    hide Reaches, Racing, Next, Enabled;
    SecondCheck(end, n);
    FirstCheck(ClearingFailures(80002), end, n + 3);
  }

  lemma SecondCheck(end: State, n: nat)
    requires Reaches(Racing(None, false, [true, true], StoringId(137, true), StoringId(80002, true)), end, n)
    ensures Reaches(Racing(None, false, [true], StoringId(137, true), ClearingFailures(80002)), end, n + 3)
  {
    hide Reaches, Racing, Next, Enabled;
    var x, done := StoringId(137, true), [true, true];
    RacingBefore(None, false, done, x, LoadingAnchored(80002, true), 2, None, false, done, StoringId(80002, true), end, n);
    RacingBefore(None, false, done, x, LoadingReclaim(80002), 2, None, false, done, LoadingAnchored(80002, true), end, n + 1);
    RacingBefore(None, false, [true], x, ClearingFailures(80002), 2, None, false, done, LoadingReclaim(80002), end, n + 2);
  }

  lemma FirstCheck(y: Step, end: State, n: nat)
    requires Reaches(Racing(None, false, [true], StoringId(137, true), y), end, n)
    ensures Reaches(Racing(None, false, [], ClearingFailures(137), y), end, n + 3)
  {
    hide Reaches, Racing, Next, Enabled;
    RacingBefore(None, false, [true], LoadingAnchored(137, true), y, 1, None, false, [true], StoringId(137, true), end, n);
    RacingBefore(None, false, [true], LoadingReclaim(137), y, 1, None, false, [true], LoadingAnchored(137, true), end, n + 1);
    RacingBefore(None, false, [], ClearingFailures(137), y, 1, None, false, [true], LoadingReclaim(137), end, n + 2);
  }

  /** Then the first anchors it. */
  lemma RacingAnchors(y: Step, end: State, n: nat)
    requires Reaches(Racing(Some(137), true, [true, true], Passed(137, true), y), end, n)
    ensures Reaches(Racing(None, false, [true, true], StoringId(137, true), y), end, n + 2)
  {
    hide Reaches, Racing, Next, Enabled;
    var done := [true, true];
    RacingBefore(Some(137), false, done, StoringFlag(137, true), y, 1, Some(137), true, done, Passed(137, true), end, n);
    RacingBefore(None, false, done, StoringId(137, true), y, 1, Some(137), false, done, StoringFlag(137, true), end, n + 1);
  }

  /** The first probe has anchored its id, the second is about to store its own. */
  const ANCHORED: State := Racing(Some(137), true, [true, true], Passed(137, true), StoringId(80002, true))

  lemma AnchoredReached()
    ensures Reaches(Start(None), ANCHORED, 12)
  {
    assert Reaches(ANCHORED, ANCHORED, 0);
    hide Reaches, Racing;
    RacingAnchors(StoringId(80002, true), ANCHORED, 0);
    RacingChecks(ANCHORED, 2);
    RacingStart(ANCHORED, 8);
  }

  lemma AnchorReplaced()
    ensures Enabled(ANCHORED, Run(2)) && Next(ANCHORED, Run(2)).expected == Some(80002)
    ensures ANCHORED.byPrimary && ANCHORED.expected == Some(137)
  {
  }

  /** Two probes of the primary under way at once, answered with different ids, can replace
      an identity the primary has already anchored: without rounds it is not kept. */
  lemma TwoPrimariesReplaceTheAnchor()
    ensures exists anchored, a, n ::
      && Reaches(Start(None), anchored, n) && Enabled(anchored, a)
      && anchored.byPrimary && anchored.expected == Some(137) && Next(anchored, a).expected == Some(80002)
  {
    hide Reaches, Racing, Next, Enabled, Start, ANCHORED;
    AnchoredReached();
    AnchorReplaced();
  }
}
