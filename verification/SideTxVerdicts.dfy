/** tallyVotes, and what the two-thirds thresholds mean for side txs: accepted votes
    always tally, and opposite verdicts need double voting by more than a third. */
module SideTxVerdicts {
  import opened Prelude
  import opened Messages
  import opened VotingPower
  import opened VoteExtensions
  import opened ValidateVotes
  import opened TallyVotes
  import opened ByteOrder

  datatype Verdict = Approved | Rejected | Skipped

  datatype Tally = Tally(approved: seq<bytes>, rejected: seq<bytes>, skipped: seq<bytes>)

  ghost function Support(env: Env, vals: seq<Validator>, votes: seq<Vote>, tx: bytes, r: int32): nat {
    Power(vals, Voters(env, votes, Answered(tx, r)))
  }

  /** The verdict on one tx, in terms of who voted. */
  ghost function VerdictOn(env: Env, vals: seq<Validator>, votes: seq<Vote>, tx: bytes): Verdict {
    if Support(env, vals, votes, tx, VOTE_YES) > MajorityVP(vals) then Approved
    else if Support(env, vals, votes, tx, VOTE_NO) > MajorityVP(vals) then Rejected
    else Skipped
  }

  ghost predicate WithinTotal(env: Env, vals: seq<Validator>, votes: seq<Vote>, tx: bytes) {
    Support(env, vals, votes, tx, VOTE_YES) + Support(env, vals, votes, tx, VOTE_NO)
    + Support(env, vals, votes, tx, VOTE_UNSPECIFIED) <= Total(vals)
  }

  /** tallyVotes meets no error; `guarded` is shouldCheckVotingPower at this height. */
  ghost predicate Tallies(env: Env, vals: seq<Validator>, height: int, guarded: bool, votes: seq<Vote>) {
    && Aggregable(env, vals, height, votes)
    && (guarded ==> forall tx :: Voted(env, vals, votes, tx) ==> WithinTotal(env, vals, votes, tx))
  }

  ghost predicate Lists(env: Env, vals: seq<Validator>, votes: seq<Vote>, keys: seq<bytes>, list: seq<bytes>, verdict: Verdict) {
    && Ascending(list)
    && forall tx :: tx in list <==> tx in keys && VerdictOn(env, vals, votes, tx) == verdict
  }

  ghost predicate IsTally(env: Env, vals: seq<Validator>, votes: seq<Vote>, keys: seq<bytes>, t: Tally) {
    && Lists(env, vals, votes, keys, t.approved, Approved)
    && Lists(env, vals, votes, keys, t.rejected, Rejected)
    && Lists(env, vals, votes, keys, t.skipped, Skipped)
  }

  /** Each list holds, in ascending order and without repetition, exactly the voted
      txs with its verdict. */
  ghost predicate Decided(env: Env, vals: seq<Validator>, votes: seq<Vote>, list: seq<bytes>, verdict: Verdict) {
    && Ascending(list)
    && forall tx :: tx in list <==> Voted(env, vals, votes, tx) && VerdictOn(env, vals, votes, tx) == verdict
  }

  ghost predicate DecidesAll(env: Env, vals: seq<Validator>, votes: seq<Vote>, t: Tally) {
    && Decided(env, vals, votes, t.approved, Approved)
    && Decided(env, vals, votes, t.rejected, Rejected)
    && Decided(env, vals, votes, t.skipped, Skipped)
  }

  lemma ListOneMore(env: Env, vals: seq<Validator>, votes: seq<Vote>, keys: seq<bytes>, list: seq<bytes>, verdict: Verdict, tx: bytes)
    requires Ascending(keys + [tx])
    requires Lists(env, vals, votes, keys, list, verdict)
    ensures Lists(env, vals, votes, keys + [tx],
                  if VerdictOn(env, vals, votes, tx) == verdict then list + [tx] else list, verdict)
  {
    hide VerdictOn, LexLe;
    var all := keys + [tx];
    assert all[|keys|] == tx && forall i :: 0 <= i < |keys| ==> all[i] == keys[i];
    forall k | k in keys ensures k != tx && LexLe(k, tx) {
      var i :| 0 <= i < |keys| && keys[i] == k;
      assert all[i] == k;
    }
    assert forall k :: k in list ==> k in keys;
  }

  ghost predicate CountsSupport(env: Env, vals: seq<Validator>, votes: seq<Vote>, counts: Ballots) {
    forall tx, r: int32 :: Count(counts, tx, r) == Support(env, vals, votes, tx, r)
  }

  /** The threshold loop of tallyVotes over the sorted hashes. */
  method Partition(env: Env, vals: seq<Validator>, guarded: bool, ghost votes: seq<Vote>, counts: Ballots, keys: seq<bytes>)
    returns (r: Option<Tally>)
    requires CountsSupport(env, vals, votes, counts) && Ascending(keys)
    ensures r.Some? <==> (guarded ==> forall tx :: tx in keys ==> WithinTotal(env, vals, votes, tx))
    ensures r.Some? ==> IsTally(env, vals, votes, keys, r.value)
  {
    hide Support, Count, LexLe;
    var t := Tally([], [], []);
    for i := 0 to |keys|
      invariant IsTally(env, vals, votes, keys[..i], t)
      invariant guarded ==> forall tx :: tx in keys[..i] ==> WithinTotal(env, vals, votes, tx)
    {
      var tx := keys[i];
      var yes, no := Count(counts, tx, VOTE_YES), Count(counts, tx, VOTE_NO);
      if guarded && yes + no + Count(counts, tx, VOTE_UNSPECIFIED) > Total(vals) {
        assert tx in keys;
        return None;
      }
      assert keys[..i + 1] == keys[..i] + [tx];
      ListOneMore(env, vals, votes, keys[..i], t.approved, Approved, tx);
      ListOneMore(env, vals, votes, keys[..i], t.rejected, Rejected, tx);
      ListOneMore(env, vals, votes, keys[..i], t.skipped, Skipped, tx);
      if yes > MajorityVP(vals) {
        t := t.(approved := t.approved + [tx]);
      } else if no > MajorityVP(vals) {
        t := t.(rejected := t.rejected + [tx]);
      } else {
        t := t.(skipped := t.skipped + [tx]);
      }
    }
    assert keys[..|keys|] == keys;
    return Some(t);
  }

  /** tallyVotes: fails exactly when Tallies says so, and otherwise splits the voted
      txs by who voted for them. */
  method Tallying(env: Env, vals: seq<Validator>, height: int, guarded: bool, votes: seq<Vote>) returns (r: Option<Tally>)
    requires DistinctAddresses(vals)
    ensures r.Some? <==> Tallies(env, vals, height, guarded, votes)
    ensures r.Some? ==> DecidesAll(env, vals, votes, r.value)
    ensures r.Some? && guarded ==> forall tx :: Voted(env, vals, votes, tx) ==>
      Power(vals, Voters(env, votes, Answered(tx, VOTE_YES))) + Power(vals, Voters(env, votes, Answered(tx, VOTE_NO)))
      + Power(vals, Voters(env, votes, Answered(tx, VOTE_UNSPECIFIED))) <= Total(vals)
  {
    var ballots := AggregateVotes(env, vals, height, votes);
    if ballots.None? {
      return None;
    }
    var keys := SortKeys(ballots.value.Keys);
    assert forall tx :: tx in keys <==> Voted(env, vals, votes, tx);
    assert CountsSupport(env, vals, votes, ballots.value);
    r := Partition(env, vals, guarded, votes, ballots.value, keys);
  }

  lemma SameList(env: Env, vals: seq<Validator>, votes: seq<Vote>, list: seq<bytes>, list': seq<bytes>, verdict: Verdict)
    requires Decided(env, vals, votes, list, verdict) && Decided(env, vals, votes, list', verdict)
    ensures list == list'
  {
    var s := set tx | tx in list;
    assert forall tx :: tx in list' <==> tx in s;
    EnumerationIsUnique(list, list', s);
  }

  /** All validators derive the same three lists, in the same order. */
  lemma TallyIsDeterministic(env: Env, vals: seq<Validator>, votes: seq<Vote>, t: Tally, t': Tally)
    requires DecidesAll(env, vals, votes, t) && DecidesAll(env, vals, votes, t')
    ensures t == t'
  {
    SameList(env, vals, votes, t.approved, t'.approved, Approved);
    SameList(env, vals, votes, t.rejected, t'.rejected, Rejected);
    SameList(env, vals, votes, t.skipped, t'.skipped, Skipped);
  }

  // ----- accepted votes always tally -----

  /** On accepted votes a validator gives one answer per tx. */
  lemma OneAnswerEach(env: Env, req: Request, vals: seq<Validator>, votes: seq<Vote>, tx: bytes, r: int32, s: int32)
    requires Consistent(env, req, vals, votes) && r != s
    ensures Voters(env, votes, Answered(tx, r)) !! Voters(env, votes, Answered(tx, s))
  {
    forall v | v in votes ensures !(Meets(env, Answered(tx, r), v) && Meets(env, Answered(tx, s), v)) {
      var i :| 0 <= i < |votes| && votes[i] == v;
      assert VoteOk(env, req, vals, votes[i]);
      if Meets(env, Answered(tx, r), v) && Meets(env, Answered(tx, s), v) {
        OneAnswerPerTx(env.decode(v.extension).value, tx, r, s);
        assert false;
      }
    }
    ExclusiveCriteria(env, votes, Answered(tx, r), Answered(tx, s));
  }

  lemma PowerWithinTotal(env: Env, req: Request, vals: seq<Validator>, votes: seq<Vote>, tx: bytes)
    requires Consistent(env, req, vals, votes)
    ensures WithinTotal(env, vals, votes, tx)
  {
    var yes := Voters(env, votes, Answered(tx, VOTE_YES));
    var no := Voters(env, votes, Answered(tx, VOTE_NO));
    var open := Voters(env, votes, Answered(tx, VOTE_UNSPECIFIED));
    OneAnswerEach(env, req, vals, votes, tx, VOTE_YES, VOTE_NO);
    OneAnswerEach(env, req, vals, votes, tx, VOTE_YES, VOTE_UNSPECIFIED);
    OneAnswerEach(env, req, vals, votes, tx, VOTE_NO, VOTE_UNSPECIFIED);
    PowerUnion(vals, yes, no);
    assert yes * no == {};
    PowerEmpty(vals);
    DisjointQuorums(vals, yes + no, open);
  }

  /** Whatever ValidateVoteExtensions accepts above the enable height, tallyVotes tallies
      without error, whether or not the total-power guard is switched on. */
  lemma AcceptedVotesTally(env: Env, req: Request, vals: seq<Validator>, votes: seq<Vote>, guarded: bool)
    requires req.height > env.enableHeight
    requires Accepts(env, req, vals, votes)
    ensures Tallies(env, vals, req.height, guarded, votes)
  {
    forall i | 0 <= i < |votes| ensures Countable(env, vals, req.height, votes[i]) {
      assert VoteOk(env, req, vals, votes[i]);
    }
    forall tx ensures WithinTotal(env, vals, votes, tx) {
      PowerWithinTotal(env, req, vals, votes, tx);
    }
  }

  // ----- agreement between proposals -----

  /** This validator signed, as a member of the set, an extension with this answer. */
  ghost predicate SignedAnswer(env: Env, req: Request, vals: seq<Validator>, votes: seq<Vote>, a: string, tx: bytes, r: int32) {
    exists i ::
      && 0 <= i < |votes|
      && Meets(env, Answered(tx, r), votes[i])
      && env.addrString(votes[i].address) == Some(a)
      && Find(vals, a).Some?
      && ExtensionSigned(env, req, Find(vals, a).value, votes[i])
  }

  lemma VoterSigned(env: Env, req: Request, vals: seq<Validator>, votes: seq<Vote>, a: string, tx: bytes, r: int32)
    requires Consistent(env, req, vals, votes)
    requires a in Voters(env, votes, Answered(tx, r)) && Find(vals, a).Some?
    ensures SignedAnswer(env, req, vals, votes, a, tx, r)
  {
    VotersAre(env, votes, Answered(tx, r), a);
    var i :| 0 <= i < |votes| && Meets(env, Answered(tx, r), votes[i]) && env.addrString(votes[i].address) == Some(a);
    assert VoteOk(env, req, vals, votes[i]);
  }

  /** If one accepted commit approves a tx and another one, over the same validators,
      rejects it, then validators with more than a third of the power signed both YES
      and NO. */
  lemma OppositeVerdicts(env: Env, vals: seq<Validator>, tx: bytes,
                         req: Request, votes: seq<Vote>, req': Request, votes': seq<Vote>)
    returns (doubleVoters: set<string>)
    requires req.height > env.enableHeight && Accepts(env, req, vals, votes)
    requires req'.height > env.enableHeight && Accepts(env, req', vals, votes')
    requires VerdictOn(env, vals, votes, tx) == Approved
    requires VerdictOn(env, vals, votes', tx) == Rejected
    ensures 3 * Power(vals, doubleVoters) > Total(vals)
    ensures forall a :: a in doubleVoters && Find(vals, a).Some? ==>
      SignedAnswer(env, req, vals, votes, a, tx, VOTE_YES) && SignedAnswer(env, req', vals, votes', a, tx, VOTE_NO)
  {
    var yes := Voters(env, votes, Answered(tx, VOTE_YES));
    var no := Voters(env, votes', Answered(tx, VOTE_NO));
    doubleVoters := yes * no;
    QuorumIntersection(vals, yes, no);
    forall a | a in doubleVoters && Find(vals, a).Some?
      ensures SignedAnswer(env, req, vals, votes, a, tx, VOTE_YES) && SignedAnswer(env, req', vals, votes', a, tx, VOTE_NO)
    {
      VoterSigned(env, req, vals, votes, a, tx, VOTE_YES);
      VoterSigned(env, req', vals, votes', a, tx, VOTE_NO);
    }
  }

  /** Any two txs approved in one tally share YES voters holding more than a third. */
  lemma ApprovalsOverlap(env: Env, vals: seq<Validator>, votes: seq<Vote>, tx: bytes, tx': bytes)
    requires VerdictOn(env, vals, votes, tx) == Approved
    requires VerdictOn(env, vals, votes, tx') == Approved
    ensures 3 * Power(vals, Voters(env, votes, Answered(tx, VOTE_YES)) * Voters(env, votes, Answered(tx', VOTE_YES))) > Total(vals)
  {
    QuorumIntersection(vals, Voters(env, votes, Answered(tx, VOTE_YES)), Voters(env, votes, Answered(tx', VOTE_YES)));
  }

  /** Within one accepted commit the two thresholds exclude each other, so the order in
      which they are asked does not matter. */
  lemma VerdictIsUnambiguous(env: Env, req: Request, vals: seq<Validator>, votes: seq<Vote>, tx: bytes)
    requires req.height > env.enableHeight && Accepts(env, req, vals, votes)
    ensures !(Support(env, vals, votes, tx, VOTE_YES) > MajorityVP(vals) && Support(env, vals, votes, tx, VOTE_NO) > MajorityVP(vals))
  {
    PowerWithinTotal(env, req, vals, votes, tx);
  }

  // ----- the verdicts without the threshold -----

  /** The lists of a tally, in terms of who answered what: a voted tx is approved exactly if
      its YES voters hold more than two thirds of all power, otherwise rejected exactly if its
      NO voters do, and otherwise skipped. */
  lemma VerdictsAreTwoThirds(env: Env, vals: seq<Validator>, votes: seq<Vote>, t: Tally, tx: bytes)
    requires DecidesAll(env, vals, votes, t)
    ensures
      var voted := exists i, r: int32 :: 0 <= i < |votes| && Meets(env, Answered(tx, r), votes[i]) && InSet(env, vals, votes[i]);
      var yes := 3 * Power(vals, Voters(env, votes, Answered(tx, VOTE_YES))) > 2 * Total(vals);
      var no := 3 * Power(vals, Voters(env, votes, Answered(tx, VOTE_NO))) > 2 * Total(vals);
      && (tx in t.approved <==> voted && yes)
      && (tx in t.rejected <==> voted && !yes && no)
      && (tx in t.skipped <==> voted && !yes && !no)
  {
    hide Meets, Voters, Power, MajorityVP;
    MajorityIsTwoThirds(vals, Voters(env, votes, Answered(tx, VOTE_YES)));
    MajorityIsTwoThirds(vals, Voters(env, votes, Answered(tx, VOTE_NO)));
  }

  /** A voter for a tx approved, or rejected, need not be looked for: it has been voted on. */
  lemma ApprovedHaveVoters(env: Env, vals: seq<Validator>, votes: seq<Vote>, tx: bytes, r: int32)
    requires 3 * Power(vals, Voters(env, votes, Answered(tx, r))) > 2 * Total(vals)
    ensures Voted(env, vals, votes, tx)
  {
    if !Voted(env, vals, votes, tx) {
      NobodyVoted(env, vals, votes, tx, r);
      assert false;
    }
  }

  lemma {:induction false} NobodyVoted(env: Env, vals: seq<Validator>, votes: seq<Vote>, tx: bytes, r: int32)
    requires !Voted(env, vals, votes, tx)
    ensures Power(vals, Voters(env, votes, Answered(tx, r))) == 0
  {
    hide Meets;
    if votes == [] {
      PowerEmpty(vals);
    } else {
      var init, v := votes[..|votes| - 1], votes[|votes| - 1];
      assert votes == init + [v];
      VotedOneMore(env, vals, init, v, tx);
      NobodyVoted(env, vals, init, tx, r);
      PowerUnmoved(env, vals, init, v, Answered(tx, r));
    }
  }

  // ----- two loops over the same votes -----

  /** What validation checks of a vote and the tally does not check again. */
  ghost predicate CheckedOnce(env: Env, req: Request, vals: seq<Validator>, v: Vote) {
    IsFilteredPlaceholder(v)
    || (&& env.knownFields(v.extension)
        && (v.flag == Commit && env.addrString(v.address).Some? && env.decode(v.extension).Some? ==>
              && |v.signature| != 0 && MemberOk(env, req, vals, v)
              && var ve := env.decode(v.extension).value;
              && env.milestoneOk(ve.milestone) && |ve.sideTxResponses| <= 50
              && (forall k :: 0 <= k < |ve.sideTxResponses| ==> |Raw(ve.sideTxResponses[k].txHash)| == 32)
              && (!InSet(env, vals, v) ==> AnswersOk(ve.sideTxResponses))))
  }

  /** The validating loop and the aggregating loop, written apart, agree: votes are consistent
      exactly if they can be aggregated, no voter repeats and the rest is in order. */
  lemma ValidationIsTallyAndMore(env: Env, req: Request, vals: seq<Validator>, votes: seq<Vote>)
    ensures Consistent(env, req, vals, votes) <==>
      && Aggregable(env, vals, req.height, votes) && DistinctVoters(env, votes)
      && forall i :: 0 <= i < |votes| ==> CheckedOnce(env, req, vals, votes[i])
  {
    hide DistinctVoters, DistinctMembers, HashesAgree, VoteOk, Countable, CheckedOnce;
    forall i | 0 <= i < |votes| { VoteChecks(env, req, vals, votes[i]); }
    if Consistent(env, req, vals, votes) {
      DistinctVotersAreDistinctMembers(env, vals, votes);
    }
  }

  lemma VoteChecks(env: Env, req: Request, vals: seq<Validator>, v: Vote)
    ensures VoteOk(env, req, vals, v) <==> Countable(env, vals, req.height, v) && CheckedOnce(env, req, vals, v)
  {
    hide MemberOk;
  }

  lemma DistinctVotersAreDistinctMembers(env: Env, vals: seq<Validator>, votes: seq<Vote>)
    requires DistinctVoters(env, votes)
    ensures DistinctMembers(env, vals, votes)
  {
  }

  /** Votes are accepted, above the enable height, exactly if they are consistent and their
      voters hold more than two thirds of all power; at the enable height only without votes. */
  lemma AcceptedIff(env: Env, req: Request, vals: seq<Validator>, votes: seq<Vote>)
    requires env.enableHeight > 0 && req.height + 1 >= env.enableHeight
    ensures req.height > env.enableHeight ==>
      (Accepts(env, req, vals, votes) <==>
         Consistent(env, req, vals, votes) && 3 * Power(vals, Voters(env, votes, Anyone)) > 2 * Total(vals))
    ensures req.height <= env.enableHeight ==> (Accepts(env, req, vals, votes) <==> votes == [])
  {
    MajorityIsTwoThirds(vals, Voters(env, votes, Anyone));
  }
}
