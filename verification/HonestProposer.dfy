/** The proposer's filter and the validators' checks are two separately written
    loops; here they are shown to agree on everything an honest proposer emits. */
module HonestProposer {
  import opened Prelude
  import opened Messages
  import opened VotingPower
  import opened VoteExtensions
  import opened ValidateVotes
  import opened FilterVotes

  // ----- the two passes, one vote at a time -----

  function Rendered(env: Env, req: Request, vals: seq<Validator>, limit: nat, votes: seq<Vote>, h: bytes): seq<Vote> {
    SecondPass(env, h, FirstPass(env, req, vals, limit, votes))
  }

  /** What one vote leaves in the block after Phuket. */
  function Emitted(j: Judgement, v: Vote, h: bytes): seq<Vote> {
    match j
    case Kept(g) => [if g == h then v else Strip(v)]
    case Stripped(_) => [Strip(v)]
    case _ => []
  }

  lemma {:induction false} SecondPassStep(env: Env, votes: seq<Vote>, v: Vote, h: bytes)
    ensures SecondPass(env, h, votes + [v]) == SecondPass(env, h, votes) + SecondEmit(env, h, v)
  {
    var all := votes + [v];
    assert all[..|votes|] == votes && all[|votes|] == v;
  }

  lemma EmittedTwice(env: Env, req: Request, vals: seq<Validator>, limit: nat, v: Vote, h: bytes)
    requires env.phuket
    requires |FirstEmit(Judge(env, req, vals, limit, v), v)| == 1
    ensures SecondEmit(env, h, FirstEmit(Judge(env, req, vals, limit, v), v)[0])
         == Emitted(Judge(env, req, vals, limit, v), v, h)
  {
  }

  lemma {:induction false} RenderStep(env: Env, req: Request, vals: seq<Validator>, limit: nat, votes: seq<Vote>, v: Vote, h: bytes)
    requires env.phuket
    ensures Rendered(env, req, vals, limit, votes + [v], h)
         == Rendered(env, req, vals, limit, votes, h) + Emitted(Judge(env, req, vals, limit, v), v, h)
  {
    hide Judge;
    var first := FirstPass(env, req, vals, limit, votes);
    var j := Judge(env, req, vals, limit, v);
    FirstPassOneMore(env, req, vals, limit, votes, v);
    if |FirstEmit(j, v)| == 1 {
      assert FirstEmit(j, v) == [FirstEmit(j, v)[0]];
      SecondPassStep(env, first, FirstEmit(j, v)[0], h);
      EmittedTwice(env, req, vals, limit, v, h);
    } else {
      assert first + FirstEmit(j, v) == first;
      assert SecondPass(env, h, first) + [] == SecondPass(env, h, first);
    }
  }

  /** A kept vote passes every check of the validating loop. */
  lemma KeptIsValid(env: Env, req: Request, vals: seq<Validator>, limit: nat, v: Vote, h: bytes)
    requires Judge(env, req, vals, limit, v) == Kept(h)
    ensures Active(v) && env.addrString(v.address).Some?
    ensures VoteOk(env, req, vals, v) && Raw(BlockHashOf(env, v)) == h
  {
  }

  /** A stripped entry is never active, and passes exactly when its flag is legal. */
  lemma StrippedIsInert(env: Env, req: Request, vals: seq<Validator>, v: Vote)
    requires env.knownFields([]) && Strip(v) == v
    ensures !Active(v)
    ensures VoteOk(env, req, vals, v) <==> ValidFlag(v.flag)
  {
  }

  // ----- the whole block -----

  /** A vote that is stripped before its flag has been looked at. */
  predicate StrippedUnseen(env: Env, limit: nat, v: Vote) {
    SizeFiltered(limit, v) || !env.knownFields(v.extension)
  }

  /** No vote with an illegal flag slips into the block as a placeholder. */
  ghost predicate FlagsHarmless(env: Env, limit: nat, votes: seq<Vote>) {
    forall i :: 0 <= i < |votes| ==> ValidFlag(votes[i].flag) || !StrippedUnseen(env, limit, votes[i])
  }

  ghost function Addressed(votes: seq<Vote>): set<bytes> {
    if votes == [] then {} else Addressed(votes[..|votes| - 1]) + {votes[|votes| - 1].address}
  }

  ghost function Committed(votes: seq<Vote>): set<bytes> {
    if votes == [] then {}
    else Committed(votes[..|votes| - 1]) + (if votes[|votes| - 1].flag == Commit then {votes[|votes| - 1].address} else {})
  }

  ghost predicate DistinctRaw(votes: seq<Vote>) {
    forall i, j :: 0 <= i < j < |votes| ==> votes[i].address != votes[j].address
  }

  lemma {:induction false} AddressedAre(votes: seq<Vote>, a: bytes)
    ensures a in Addressed(votes) <==> exists i :: 0 <= i < |votes| && votes[i].address == a
    ensures a in Committed(votes) <==> exists i :: 0 <= i < |votes| && votes[i].address == a && votes[i].flag == Commit
  {
    if votes != [] {
      AddressedAre(votes[..|votes| - 1], a);
    }
  }

  lemma {:induction false} AddressedStep(votes: seq<Vote>, v: Vote)
    ensures Addressed(votes + [v]) == Addressed(votes) + {v.address}
    ensures Committed(votes + [v]) == Committed(votes) + (if v.flag == Commit then {v.address} else {})
    ensures DistinctRaw(votes + [v]) <==> DistinctRaw(votes) && v.address !in Addressed(votes)
  {
    var all := votes + [v];
    assert all[..|votes|] == votes && all[|votes|] == v;
    assert forall i :: 0 <= i < |votes| ==> all[i] == votes[i];
    AddressedAre(votes, v.address);
  }

  /** An entry of the block is either stripped or kept with the majority hash. */
  ghost predicate Entry(env: Env, req: Request, vals: seq<Validator>, limit: nat, h: bytes, o: Vote) {
    Strip(o) == o || Judge(env, req, vals, limit, o) == Kept(h)
  }

  lemma EmittedEntry(env: Env, req: Request, vals: seq<Validator>, limit: nat, v: Vote, h: bytes)
    requires env.phuket && !Judge(env, req, vals, limit, v).Fatal?
    ensures var emitted := Emitted(Judge(env, req, vals, limit, v), v, h);
      && |emitted| <= 1
      && (|emitted| == 1 ==> Entry(env, req, vals, limit, h, emitted[0]))
      && (FlagsValid(emitted) <==> ValidFlag(v.flag) || !StrippedUnseen(env, limit, v))
  {
  }

  ghost predicate FlagsValid(votes: seq<Vote>) {
    forall k :: 0 <= k < |votes| ==> ValidFlag(votes[k].flag)
  }

  ghost predicate EntriesOnly(env: Env, req: Request, vals: seq<Validator>, limit: nat, votes: seq<Vote>, h: bytes) {
    && (forall o :: o in Rendered(env, req, vals, limit, votes, h) ==> Entry(env, req, vals, limit, h, o))
    && (FlagsValid(Rendered(env, req, vals, limit, votes, h)) <==> FlagsHarmless(env, limit, votes))
  }

  lemma {:induction false} EntriesOf(env: Env, req: Request, vals: seq<Validator>, limit: nat, votes: seq<Vote>, h: bytes)
    requires env.phuket
    requires Screened(env, req, vals, limit, votes)
    ensures EntriesOnly(env, req, vals, limit, votes, h)
  {
    if votes != [] {
      var init, v := votes[..|votes| - 1], votes[|votes| - 1];
      assert votes == init + [v];
      ScreenedPrefix(env, req, vals, limit, votes);
      EntriesOf(env, req, vals, limit, init, h);
      EntriesOfOneMore(env, req, vals, limit, init, v, h);
    }
  }

  lemma {:induction false} EntriesOfOneMore(env: Env, req: Request, vals: seq<Validator>, limit: nat, votes: seq<Vote>, v: Vote, h: bytes)
    requires env.phuket && !Judge(env, req, vals, limit, v).Fatal?
    requires EntriesOnly(env, req, vals, limit, votes, h)
    ensures EntriesOnly(env, req, vals, limit, votes + [v], h)
  {
    hide Judge, Rendered, StrippedUnseen, FlagsValid, ValidFlag;
    RenderStep(env, req, vals, limit, votes, v, h);
    EmittedEntry(env, req, vals, limit, v, h);
    var emitted := Emitted(Judge(env, req, vals, limit, v), v, h);
    FlagsAppend(Rendered(env, req, vals, limit, votes, h), emitted);
    var all := votes + [v];
    assert all[|votes|] == v && forall i :: 0 <= i < |votes| ==> all[i] == votes[i];
  }

  lemma FlagsAppend(a: seq<Vote>, b: seq<Vote>)
    ensures FlagsValid(a + b) <==> FlagsValid(a) && FlagsValid(b)
  {
    assert forall k :: 0 <= k < |a| ==> (a + b)[k] == a[k];
    assert forall k :: 0 <= k < |b| ==> (a + b)[|a| + k] == b[k];
  }

  /** The active entries are exactly the backers of the majority hash, each once. */
  ghost predicate BackersVote(env: Env, req: Request, vals: seq<Validator>, limit: nat, votes: seq<Vote>, h: bytes) {
    && DistinctVoters(env, Rendered(env, req, vals, limit, votes, h))
    && Voters(env, Rendered(env, req, vals, limit, votes, h), Anyone) == Backers(env, req, vals, limit, votes, h)
  }

  lemma {:induction false} VotersOf(env: Env, req: Request, vals: seq<Validator>, limit: nat, votes: seq<Vote>, h: bytes)
    requires env.phuket && env.knownFields([])
    requires Screened(env, req, vals, limit, votes)
    ensures BackersVote(env, req, vals, limit, votes, h)
  {
    if votes != [] {
      var init, v := votes[..|votes| - 1], votes[|votes| - 1];
      assert votes == init + [v];
      ScreenedPrefix(env, req, vals, limit, votes);
      VotersOf(env, req, vals, limit, init, h);
      VotersOfOneMore(env, req, vals, limit, init, v, h);
    }
  }

  lemma {:induction false} VotersOfOneMore(env: Env, req: Request, vals: seq<Validator>, limit: nat, votes: seq<Vote>, v: Vote, h: bytes)
    requires env.phuket && env.knownFields([])
    requires Screened(env, req, vals, limit, votes + [v])
    requires BackersVote(env, req, vals, limit, votes, h)
    ensures BackersVote(env, req, vals, limit, votes + [v], h)
  {
    hide Judge, Screened, DistinctVoters, Rendered, VoteOk, IsReference, HashesAgree;
    RenderStep(env, req, vals, limit, votes, v, h);
    BackersGrow(env, req, vals, limit, votes, v, h);
    var before := Rendered(env, req, vals, limit, votes, h);
    var j := Judge(env, req, vals, limit, v);
    if j == Kept(h) {
      KeptIsValid(env, req, vals, limit, v, h);
      NewBacker(env, req, vals, limit, votes, v, h);
      NewVoterDecides(env, before, v, Voters(env, before, Anyone));
      VotersStep(env, before, v);
    } else if |Emitted(j, v, h)| == 1 {
      assert Emitted(j, v, h) == [Strip(v)];
      StrippedIsInert(env, req, vals, Strip(v));
      SkippedVote(env, before, Strip(v));
    } else {
      assert before + [] == before;
    }
  }

  lemma ScreenedPrefix(env: Env, req: Request, vals: seq<Validator>, limit: nat, votes: seq<Vote>)
    requires votes != [] && Screened(env, req, vals, limit, votes)
    ensures Screened(env, req, vals, limit, votes[..|votes| - 1])
  {
  }

  lemma NewBacker(env: Env, req: Request, vals: seq<Validator>, limit: nat, votes: seq<Vote>, v: Vote, h: bytes)
    requires Screened(env, req, vals, limit, votes + [v])
    requires Judge(env, req, vals, limit, v) == Kept(h) && env.addrString(v.address).Some?
    ensures env.addrString(v.address).value !in Backers(env, req, vals, limit, votes, h)
  {
    var a := env.addrString(v.address).value;
    BackersAre(env, req, vals, limit, votes, h, a);
    var all := votes + [v];
    assert all[|votes|] == v && forall i :: 0 <= i < |votes| ==> all[i] == votes[i];
  }

  lemma VotersStep(env: Env, votes: seq<Vote>, v: Vote)
    requires Active(v) && env.addrString(v.address).Some?
    ensures Voters(env, votes + [v], Anyone) == Voters(env, votes, Anyone) + {env.addrString(v.address).value}
  {
    var all := votes + [v];
    assert all[..|votes|] == votes && all[|votes|] == v;
  }

  /** Committed votes all leave a committed entry, and entries keep their address. */
  ghost predicate AddressesKept(votes: seq<Vote>, out: seq<Vote>) {
    && Committed(votes) == Committed(out)
    && Addressed(out) <= Addressed(votes)
    && (DistinctRaw(votes) ==> DistinctRaw(out))
  }

  lemma {:induction false} AddressesOf(env: Env, req: Request, vals: seq<Validator>, limit: nat, votes: seq<Vote>, h: bytes)
    requires env.phuket
    requires Screened(env, req, vals, limit, votes)
    ensures AddressesKept(votes, Rendered(env, req, vals, limit, votes, h))
  {
    if votes != [] {
      var init, v := votes[..|votes| - 1], votes[|votes| - 1];
      assert votes == init + [v];
      ScreenedPrefix(env, req, vals, limit, votes);
      AddressesOf(env, req, vals, limit, init, h);
      RenderStep(env, req, vals, limit, init, v, h);
      CommittedLeavesEntry(env, req, vals, limit, v, h);
      AddressesOneMore(init, Rendered(env, req, vals, limit, init, h), v, Emitted(Judge(env, req, vals, limit, v), v, h));
    }
  }

  lemma {:induction false} AddressesOneMore(votes: seq<Vote>, out: seq<Vote>, v: Vote, emitted: seq<Vote>)
    requires AddressesKept(votes, out)
    requires |emitted| <= 1 && (v.flag == Commit ==> |emitted| == 1)
    requires |emitted| == 1 ==> emitted[0].address == v.address && emitted[0].flag == v.flag
    ensures AddressesKept(votes + [v], out + emitted)
  {
    hide Addressed, Committed, DistinctRaw;
    AddressedStep(votes, v);
    if |emitted| == 1 {
      assert emitted == [emitted[0]];
      AddressedStep(out, emitted[0]);
    } else {
      assert out + emitted == out;
    }
  }

  lemma CommittedLeavesEntry(env: Env, req: Request, vals: seq<Validator>, limit: nat, v: Vote, h: bytes)
    requires env.phuket && !Judge(env, req, vals, limit, v).Fatal?
    ensures var emitted := Emitted(Judge(env, req, vals, limit, v), v, h);
      && |emitted| <= 1
      && (v.flag == Commit ==> |emitted| == 1)
      && (|emitted| == 1 ==> emitted[0].address == v.address && emitted[0].flag == v.flag)
  {
  }

  /** Every entry of an honest block passes its own checks exactly if its flag is legal, and the
      active ones carry the majority hash. */
  lemma EntryPasses(env: Env, req: Request, vals: seq<Validator>, limit: nat, o: Vote, h: bytes)
    requires env.knownFields([]) && Entry(env, req, vals, limit, h, o)
    ensures VoteOk(env, req, vals, o) <==> ValidFlag(o.flag)
    ensures Active(o) ==> Raw(BlockHashOf(env, o)) == h
  {
    hide Judge, VoteOk;
    if Strip(o) == o {
      StrippedIsInert(env, req, vals, o);
    } else {
      KeptIsValid(env, req, vals, limit, o, h);
    }
  }

  lemma {:induction false} RenderedConsistent(env: Env, req: Request, vals: seq<Validator>, limit: nat, votes: seq<Vote>, h: bytes)
    requires env.phuket && env.knownFields([]) && Screened(env, req, vals, limit, votes)
    ensures
      var out := Rendered(env, req, vals, limit, votes, h);
      && (Consistent(env, req, vals, out) <==> FlagsHarmless(env, limit, votes))
      && Voters(env, out, Anyone) == Backers(env, req, vals, limit, votes, h)
  {
    hide Judge, VoteOk, Screened, Rendered, Entry, Voters, Backers, DistinctVoters, ValidFlag;
    var out := Rendered(env, req, vals, limit, votes, h);
    EntriesOf(env, req, vals, limit, votes, h);
    VotersOf(env, req, vals, limit, votes, h);
    forall k | 0 <= k < |out|
      ensures VoteOk(env, req, vals, out[k]) <==> ValidFlag(out[k].flag)
      ensures Active(out[k]) ==> Raw(BlockHashOf(env, out[k])) == h
    {
      assert out[k] in out;
      EntryPasses(env, req, vals, limit, out[k], h);
    }
    assert HashesAgree(env, out);
  }

  /** Whatever the filter emits is accepted by every validator in the same state and
      round, except if and only if a vote with an illegal block-id flag was stripped
      before its flag was looked at. */
  lemma HonestProposerAccepted(env: Env, req: Request, vals: seq<Validator>, maxTxBytes: int,
                               votes: seq<Vote>, out: seq<Vote>)
    requires DistinctAddresses(vals) && env.phuket && env.knownFields([])
    requires FilterOutcome(env, req, vals, maxTxBytes, votes, Some(out))
    ensures Accepts(env, req, vals, out) <==> FlagsHarmless(env, LimitFor(env, vals, maxTxBytes), votes)
  {
    hide Screened, FlagsHarmless, Consistent, Backers, Voters, Power, SecondPass, FirstPass;
    if req.height <= env.enableHeight {
      NoFlags(env, LimitFor(env, vals, maxTxBytes));
    } else {
      var limit := LimitFor(env, vals, maxTxBytes);
      var h :| HasQuorum(env, req, vals, limit, votes, h) && out == SecondPass(env, h, FirstPass(env, req, vals, limit, votes));
      RenderedConsistent(env, req, vals, limit, votes, h);
    }
  }

  lemma NoFlags(env: Env, limit: nat)
    ensures FlagsHarmless(env, limit, [])
  {
  }

  // ----- a rejected honest proposal -----

  /** Everything is well signed, known and decodable to an extension of height 9. */
  const OPEN_ENV: Env := Env(1, true, false, b => Some(if b == [1] then "a" else "b"), _ => true,
    _ => Some(VoteExtension(None, 9, [], None)), _ => true, (_, _, _) => Some([]), (_, _, _) => true)

  const ONE_VALIDATOR: seq<Validator> := [Validator("a", 1, Some([]))]
  const GOOD_VOTE: Vote := Vote([1], 1, Commit, seq(10, _ => 0), [0], seq(31, _ => 0), [0])
  const ILLEGAL_VOTE: Vote := Vote([2], 1, UnknownFlag(7), [], [], [], [])

  lemma IllegalFlagStripped()
    ensures
      var limit := LimitFor(OPEN_ENV, ONE_VALIDATOR, 1200);
      && Judge(OPEN_ENV, Request(10, 0), ONE_VALIDATOR, limit, GOOD_VOTE) == Kept([])
      && Judge(OPEN_ENV, Request(10, 0), ONE_VALIDATOR, limit, ILLEGAL_VOTE) == Stripped(false)
      && Strip(ILLEGAL_VOTE) == ILLEGAL_VOTE && StrippedUnseen(OPEN_ENV, limit, ILLEGAL_VOTE)
  {
  }

  lemma {:induction false} KeptAndStripped(env: Env, req: Request, vals: seq<Validator>, limit: nat, kept: Vote, stripped: Vote, h: bytes)
    requires env.phuket && env.addrString(kept.address).Some?
    requires Judge(env, req, vals, limit, kept) == Kept(h) && Judge(env, req, vals, limit, stripped) == Stripped(false)
    ensures Screened(env, req, vals, limit, [kept, stripped])
    ensures Rendered(env, req, vals, limit, [kept, stripped], h) == [kept, Strip(stripped)]
    ensures Backers(env, req, vals, limit, [kept, stripped], h) == {env.addrString(kept.address).value}
  {
    hide Judge, Rendered, Backers;
    NothingRendered(env, req, vals, limit, h);
    assert [] + [kept] == [kept] && [kept] + [stripped] == [kept, stripped];
    RenderStep(env, req, vals, limit, [], kept, h);
    RenderStep(env, req, vals, limit, [kept], stripped, h);
    BackersGrow(env, req, vals, limit, [], kept, h);
    BackersGrow(env, req, vals, limit, [kept], stripped, h);
  }

  lemma NothingRendered(env: Env, req: Request, vals: seq<Validator>, limit: nat, h: bytes)
    ensures Rendered(env, req, vals, limit, [], h) == [] && Backers(env, req, vals, limit, [], h) == {}
  {
  }

  lemma OneValidatorHoldsAll()
    ensures DistinctAddresses(ONE_VALIDATOR) && Power(ONE_VALIDATOR, {"a"}) > MajorityVP(ONE_VALIDATOR)
  {
    assert ONE_VALIDATOR[1..] == [];
  }

  /** Concretely: an otherwise perfect block in which the proposer kept an entry with an
      illegal flag, so that everybody rejects what the filter has emitted. */
  lemma IllegalFlagGetsRejected()
    ensures FilterOutcome(OPEN_ENV, Request(10, 0), ONE_VALIDATOR, 1200, [GOOD_VOTE, ILLEGAL_VOTE], Some([GOOD_VOTE, ILLEGAL_VOTE]))
    ensures !Accepts(OPEN_ENV, Request(10, 0), ONE_VALIDATOR, [GOOD_VOTE, ILLEGAL_VOTE])
  {
    hide Judge, Screened, Backers, Power, MajorityVP, StrippedUnseen, Rendered, DistinctAddresses, Accepts;
    var env, req, vals, votes := OPEN_ENV, Request(10, 0), ONE_VALIDATOR, [GOOD_VOTE, ILLEGAL_VOTE];
    var limit := LimitFor(env, vals, 1200);
    IllegalFlagStripped();
    KeptAndStripped(env, req, vals, limit, GOOD_VOTE, ILLEGAL_VOTE, []);
    OneValidatorHoldsAll();
    assert HasQuorum(env, req, vals, limit, votes, []);
    RenderedIsTheTwoPasses(env, req, vals, limit, votes, []);
    assert FilterOutcome(env, req, vals, 1200, votes, Some(votes));
    assert !FlagsHarmless(env, limit, votes) by {
      assert votes[1] == ILLEGAL_VOTE;
    }
    HonestProposerAccepted(env, req, vals, 1200, votes, votes);
  }

  lemma RenderedIsTheTwoPasses(env: Env, req: Request, vals: seq<Validator>, limit: nat, votes: seq<Vote>, h: bytes)
    ensures Rendered(env, req, vals, limit, votes, h) == SecondPass(env, h, FirstPass(env, req, vals, limit, votes))
  {
  }

  /** Nobody who committed the previous block is missing or downgraded in the block. */
  lemma HonestProposerComplete(env: Env, req: Request, vals: seq<Validator>, maxTxBytes: int,
                               votes: seq<Vote>, out: seq<Vote>, canonical: seq<VoteInfo>)
    requires DistinctAddresses(vals) && env.phuket && DistinctRaw(votes)
    requires FilterOutcome(env, req, vals, maxTxBytes, votes, Some(out))
    requires |canonical| == |votes|
    requires forall i :: 0 <= i < |votes| ==> canonical[i] == VoteInfo(votes[i].address, votes[i].flag)
    ensures Complete(canonical, out)
  {
    hide Judge;
    if req.height <= env.enableHeight {
      assert votes == [];
      return;
    }
    var limit := LimitFor(env, vals, maxTxBytes);
    var h :| HasQuorum(env, req, vals, limit, votes, h) && out == Rendered(env, req, vals, limit, votes, h);
    AddressesOf(env, req, vals, limit, votes, h);
    forall i | 0 <= i < |canonical| && canonical[i].flag == Commit
      ensures LastEntryCommits(out, canonical[i].address)
    {
      assert votes[i].flag == Commit;
      AddressedAre(votes, votes[i].address);
      AddressedAre(out, votes[i].address);
    }
  }

  /** What completeness means for votes with distinct addresses: everybody who committed the
      previous block is among those who commit in this list. */
  lemma CompleteIff(canonical: seq<VoteInfo>, votes: seq<Vote>)
    requires DistinctRaw(votes)
    ensures Complete(canonical, votes) <==>
      forall k :: 0 <= k < |canonical| && canonical[k].flag == Commit ==>
        exists i :: 0 <= i < |votes| && votes[i].address == canonical[k].address && votes[i].flag == Commit
  {
    forall k | 0 <= k < |canonical| && canonical[k].flag == Commit
      ensures LastEntryCommits(votes, canonical[k].address) <==>
        exists i :: 0 <= i < |votes| && votes[i].address == canonical[k].address && votes[i].flag == Commit
    {
    }
  }

  // ----- payload bound -----

  function Payload(votes: seq<Vote>): nat {
    if votes == [] then 0
    else Payload(votes[..|votes| - 1]) + |votes[|votes| - 1].extension| + |votes[|votes| - 1].nonRpExtension|
  }

  /** An entry carries at most its share, and nothing unless it is active. */
  ghost predicate WithinShare(env: Env, share: nat, o: Vote) {
    if Active(o) then env.addrString(o.address).Some? && |o.extension| + |o.nonRpExtension| <= share
    else |o.extension| + |o.nonRpExtension| == 0
  }

  lemma EntryPayload(env: Env, req: Request, vals: seq<Validator>, limit: nat, h: bytes, o: Vote)
    requires env.phuket && Entry(env, req, vals, limit, h, o)
    ensures WithinShare(env, limit + MAX_NON_RP_SIZE, o)
  {
  }

  lemma {:induction false} PayloadPerVoter(env: Env, out: seq<Vote>, share: nat)
    requires forall o :: o in out ==> WithinShare(env, share, o)
    requires DistinctVoters(env, out)
    ensures Payload(out) <= |Voters(env, out, Anyone)| * share
  {
    if out != [] {
      var init, o := out[..|out| - 1], out[|out| - 1];
      assert out == init + [o];
      assert WithinShare(env, share, o);
      PayloadPerVoter(env, init, share);
      PayloadOneMore(env, init, o, share);
    }
  }

  lemma {:induction false} PayloadOneMore(env: Env, votes: seq<Vote>, o: Vote, share: nat)
    requires WithinShare(env, share, o)
    requires DistinctVoters(env, votes) && DistinctVoters(env, votes + [o])
    requires Payload(votes) <= |Voters(env, votes, Anyone)| * share
    ensures Payload(votes + [o]) <= |Voters(env, votes + [o], Anyone)| * share
  {
    hide DistinctVoters, Voters;
    var all := votes + [o];
    assert all[..|votes|] == votes && all[|votes|] == o;
    if Active(o) {
      NewVoterDecides(env, votes, o, Voters(env, votes, Anyone));
      VotersStep(env, votes, o);
      OneMoreShare(|Voters(env, votes, Anyone)|, share);
    } else {
      SkippedVote(env, votes, o);
    }
  }

  lemma OneMoreShare(n: nat, share: nat)
    ensures (n + 1) * share == n * share + share
  {
  }

  ghost function Addresses(vals: seq<Validator>): set<string> {
    set v | v in vals :: v.address
  }

  lemma {:induction false} FewAddresses(vals: seq<Validator>)
    ensures |Addresses(vals)| <= |vals|
  {
    if vals != [] {
      FewAddresses(vals[1..]);
      assert Addresses(vals) == Addresses(vals[1..]) + {vals[0].address};
    }
  }

  lemma FewerElements(s: set<string>, t: set<string>)
    requires s <= t
    ensures |s| <= |t|
  {
    assert t == s + (t - s);
  }

  lemma BackersAreMembers(env: Env, req: Request, vals: seq<Validator>, limit: nat, votes: seq<Vote>, h: bytes)
    ensures Backers(env, req, vals, limit, votes, h) <= Addresses(vals)
  {
    forall a | a in Backers(env, req, vals, limit, votes, h) ensures a in Addresses(vals) {
      BackersAre(env, req, vals, limit, votes, h, a);
      FindIsMember(vals, a);
    }
  }

  lemma ShareOf(count: nat, n: nat, share: nat, maxTxBytes: int)
    requires n > 0 && count <= n
    requires share <= Quotient(Quotient(maxTxBytes, n), SAFETY_FACTOR)
    ensures count * share * 2 <= maxTxBytes || share == 0
  {
    if share > 0 {
      var per := maxTxBytes / n;
      assert maxTxBytes > 0 && 2 * share <= per;
      assert count * (2 * share) <= n * per by {
        assert count * (2 * share) <= n * (2 * share) <= n * per;
      }
      assert n * per <= maxTxBytes;
    }
  }

  /** Unless the per-validator limit had to be raised to the minimum, the extensions
      in the block take at most half of the bytes the block may carry. */
  lemma PayloadBound(env: Env, req: Request, vals: seq<Validator>, maxTxBytes: int, votes: seq<Vote>, out: seq<Vote>)
    requires DistinctAddresses(vals) && env.phuket && env.knownFields([])
    requires req.height > env.enableHeight && |vals| > 0
    requires CalculatedSize(maxTxBytes, |vals|) >= MIN_NON_RP_SIZE
    requires FilterOutcome(env, req, vals, maxTxBytes, votes, Some(out))
    ensures 2 * Payload(out) <= maxTxBytes
  {
    hide Judge;
    var limit := LimitFor(env, vals, maxTxBytes);
    var h :| HasQuorum(env, req, vals, limit, votes, h) && out == Rendered(env, req, vals, limit, votes, h);
    EntriesOf(env, req, vals, limit, votes, h);
    VotersOf(env, req, vals, limit, votes, h);
    forall o | o in out ensures WithinShare(env, limit + MAX_NON_RP_SIZE, o) {
      EntryPayload(env, req, vals, limit, h, o);
    }
    PayloadPerVoter(env, out, limit + MAX_NON_RP_SIZE);
    BackersAreMembers(env, req, vals, limit, votes, h);
    FewAddresses(vals);
    FewerElements(Backers(env, req, vals, limit, votes, h), Addresses(vals));
    ShareOf(|Voters(env, out, Anyone)|, |vals|, limit + MAX_NON_RP_SIZE, maxTxBytes);
  }
}
