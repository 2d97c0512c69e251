/** How PreBlocker turns the accepted votes of a block into approved, rejected and
    skipped side txs: aggregateVotes and tallyVotes. */
module TallyVotes {
  import opened Prelude
  import opened Messages
  import opened VotingPower
  import opened VoteExtensions
  import opened ValidateVotes

  type Ballots = map<bytes, map<int32, nat>>

  function Count(ballots: Ballots, tx: bytes, result: int32): nat {
    if tx in ballots && result in ballots[tx] then ballots[tx][result] else 0
  }

  // ----- specification -----

  /** One validator's answers, as aggregateVotes demands them. */
  ghost predicate AnswersOk(rs: seq<SideTxResponse>) {
    && (forall k :: 0 <= k < |rs| ==> ValidVote(rs[k].result))
    && (forall k, l :: 0 <= k < l < |rs| ==> Raw(rs[k].txHash) != Raw(rs[l].txHash))
  }

  ghost predicate Countable(env: Env, vals: seq<Validator>, height: int, v: Vote) {
    IsFilteredPlaceholder(v)
    || (&& ValidFlag(v.flag)
        && (v.flag == Commit ==>
              && env.addrString(v.address).Some?
              && env.decode(v.extension).Some?
              && env.decode(v.extension).value.height == height - 1
              && (InSet(env, vals, v) ==> AnswersOk(env.decode(v.extension).value.sideTxResponses))))
  }

  /** The in-set active votes come from different validators. */
  ghost predicate DistinctMembers(env: Env, vals: seq<Validator>, votes: seq<Vote>) {
    forall i, j :: 0 <= i < j < |votes| && Active(votes[i]) && Active(votes[j]) && InSet(env, vals, votes[i]) ==>
      env.addrString(votes[i].address) != env.addrString(votes[j].address)
  }

  /** aggregateVotes meets no error. */
  ghost predicate Aggregable(env: Env, vals: seq<Validator>, height: int, votes: seq<Vote>) {
    && (forall i :: 0 <= i < |votes| ==> Countable(env, vals, height, votes[i]))
    && DistinctMembers(env, vals, votes)
    && HashesAgree(env, votes)
  }

  /** Some member answered about this tx. */
  ghost predicate Voted(env: Env, vals: seq<Validator>, votes: seq<Vote>, tx: bytes) {
    exists i, r: int32 :: 0 <= i < |votes| && Meets(env, Answered(tx, r), votes[i]) && InSet(env, vals, votes[i])
  }

  /** Every count is the canonical power of the voters who gave that answer. */
  ghost predicate IsAggregate(env: Env, vals: seq<Validator>, votes: seq<Vote>, ballots: Ballots) {
    && (forall tx, r: int32 :: Count(ballots, tx, r) == Power(vals, Voters(env, votes, Answered(tx, r))))
    && (forall tx :: tx in ballots <==> Voted(env, vals, votes, tx))
  }

  // ----- one vote more -----

  lemma {:induction false} VotersOneMore(env: Env, votes: seq<Vote>, v: Vote, c: Criterion)
    ensures Voters(env, votes + [v], c)
         == Voters(env, votes, c)
            + (if Meets(env, c, v) && env.addrString(v.address).Some? then {env.addrString(v.address).value} else {})
  {
    var all := votes + [v];
    assert all[..|votes|] == votes && all[|votes|] == v;
  }

  /** A vote that is skipped, or whose validator is unknown, changes no count. */
  lemma PowerUnmoved(env: Env, vals: seq<Validator>, votes: seq<Vote>, v: Vote, c: Criterion)
    requires !Meets(env, c, v) || !InSet(env, vals, v)
    ensures Power(vals, Voters(env, votes + [v], c)) == Power(vals, Voters(env, votes, c))
  {
    VotersOneMore(env, votes, v, c);
    var before := Voters(env, votes, c);
    if Meets(env, c, v) && env.addrString(v.address).Some? {
      FindIsMember(vals, env.addrString(v.address).value);
      PowerOutside(vals, before, env.addrString(v.address).value);
    } else {
      assert before + {} == before;
    }
  }

  /** A member's vote adds its power to the answers it gives. */
  lemma PowerMoved(env: Env, vals: seq<Validator>, votes: seq<Vote>, v: Vote, c: Criterion)
    requires DistinctAddresses(vals)
    requires Meets(env, c, v) && InSet(env, vals, v)
    requires env.addrString(v.address).value !in Voters(env, votes, c)
    ensures Power(vals, Voters(env, votes + [v], c))
         == Power(vals, Voters(env, votes, c)) + Find(vals, env.addrString(v.address).value).value.power
  {
    VotersOneMore(env, votes, v, c);
    PowerAdd(vals, Voters(env, votes, c), env.addrString(v.address).value);
  }

  lemma VotedOneMore(env: Env, vals: seq<Validator>, votes: seq<Vote>, v: Vote, tx: bytes)
    ensures Voted(env, vals, votes + [v], tx)
       <==> || Voted(env, vals, votes, tx)
            || (InSet(env, vals, v) && exists r: int32 :: Meets(env, Answered(tx, r), v))
  {
    var all := votes + [v];
    assert all[|votes|] == v && forall i :: 0 <= i < |votes| ==> all[i] == votes[i];
    if Voted(env, vals, votes, tx) {
      var i, r: int32 :| 0 <= i < |votes| && Meets(env, Answered(tx, r), votes[i]) && InSet(env, vals, votes[i]);
      assert all[i] == votes[i];
    }
    if InSet(env, vals, v) && exists r: int32 :: Meets(env, Answered(tx, r), v) {
      var r: int32 :| Meets(env, Answered(tx, r), v);
      assert Meets(env, Answered(tx, r), all[|votes|]);
    }
  }

  // ----- the inner loop: one validator's responses -----

  /** Some response among the first n answers (tx, result). */
  ghost predicate AnsweredIn(rs: seq<SideTxResponse>, tx: bytes, result: int32) {
    exists k :: 0 <= k < |rs| && IsAnswer(rs[k], tx, result)
  }

  ghost predicate Credited(before: Ballots, after: Ballots, rs: seq<SideTxResponse>, power: nat) {
    && (forall tx, r: int32 :: Count(after, tx, r) == Count(before, tx, r) + if AnsweredIn(rs, tx, r) then power else 0)
    && (forall tx :: tx in after <==> tx in before || exists k :: 0 <= k < |rs| && Raw(rs[k].txHash) == tx)
  }

  function Credit(ballots: Ballots, tx: bytes, result: int32, power: nat): Ballots {
    var votes := if tx in ballots then ballots[tx] else map[];
    ballots[tx := votes[result := (if result in votes then votes[result] else 0) + power]]
  }

  lemma CreditCounts(ballots: Ballots, tx: bytes, result: int32, power: nat)
    ensures forall t, r: int32 :: Count(Credit(ballots, tx, result, power), t, r)
                               == Count(ballots, t, r) + if t == tx && r == result then power else 0
  {
  }

  lemma CreditedOneMore(before: Ballots, after: Ballots, rs: seq<SideTxResponse>, next: SideTxResponse, power: nat)
    requires Credited(before, after, rs, power)
    requires forall k :: 0 <= k < |rs| ==> Raw(rs[k].txHash) != Raw(next.txHash)
    ensures Credited(before, Credit(after, Raw(next.txHash), next.result, power), rs + [next], power)
  {
    var all := rs + [next];
    var credited := Credit(after, Raw(next.txHash), next.result, power);
    assert all[|rs|] == next && forall k :: 0 <= k < |rs| ==> all[k] == rs[k];
    CreditCounts(after, Raw(next.txHash), next.result, power);
    forall tx, r: int32
      ensures Count(credited, tx, r) == Count(before, tx, r) + if AnsweredIn(all, tx, r) then power else 0
    {
      assert AnsweredIn(all, tx, r) <==> AnsweredIn(rs, tx, r) || IsAnswer(next, tx, r) by {
        if AnsweredIn(rs, tx, r) {
          var k :| 0 <= k < |rs| && IsAnswer(rs[k], tx, r);
          assert IsAnswer(all[k], tx, r);
        }
        if IsAnswer(next, tx, r) {
          assert IsAnswer(all[|rs|], tx, r);
        }
      }
    }
    forall tx ensures tx in credited <==> tx in before || exists k :: 0 <= k < |all| && Raw(all[k].txHash) == tx {
      if exists k :: 0 <= k < |rs| && Raw(rs[k].txHash) == tx {
        var k :| 0 <= k < |rs| && Raw(rs[k].txHash) == tx;
        assert Raw(all[k].txHash) == tx;
      }
    }
  }

  lemma CreditedNone(ballots: Ballots, rs: seq<SideTxResponse>, power: nat)
    ensures Credited(ballots, ballots, rs[..0], power)
  {
  }

  lemma AnswersNone(rs: seq<SideTxResponse>)
    ensures AnswersOk(rs[..0])
  {
  }

  lemma AnswersOneMore(rs: seq<SideTxResponse>, i: nat, voted: set<bytes>)
    requires i < |rs| && AnswersOk(rs[..i])
    requires forall h :: h in voted <==> exists k :: 0 <= k < i && Raw(rs[k].txHash) == h
    ensures Raw(rs[i].txHash) !in voted ==> forall k :: 0 <= k < i ==> Raw(rs[..i][k].txHash) != Raw(rs[i].txHash)
    ensures Raw(rs[i].txHash) !in voted && ValidVote(rs[i].result) ==> AnswersOk(rs[..i + 1])
    ensures Raw(rs[i].txHash) in voted || !ValidVote(rs[i].result) ==> !AnswersOk(rs)
  {
  }

  method CreditResponses(ballots: Ballots, rs: seq<SideTxResponse>, power: nat) returns (r: Option<Ballots>)
    ensures r.Some? <==> AnswersOk(rs)
    ensures r.Some? ==> Credited(ballots, r.value, rs, power)
  {
    var after := ballots;
    var voted: set<bytes> := {};
    hide Credited, Credit, Count, AnswersOk, ValidVote;
    AnswersNone(rs);
    CreditedNone(ballots, rs, power);
    for i := 0 to |rs|
      invariant AnswersOk(rs[..i])
      invariant forall h :: h in voted <==> exists k :: 0 <= k < i && Raw(rs[k].txHash) == h
      invariant Credited(ballots, after, rs[..i], power)
    {
      AnswersOneMore(rs, i, voted);
      var tx := Raw(rs[i].txHash);
      if tx in voted || !ValidVote(rs[i].result) {
        return None;
      }
      assert rs[..i + 1] == rs[..i] + [rs[i]];
      CreditedOneMore(ballots, after, rs[..i], rs[i], power);
      after := Credit(after, tx, rs[i].result, power);
      voted := voted + {tx};
    }
    assert rs[..|rs|] == rs;
    return Some(after);
  }

  // ----- the outer loop -----

  datatype Progress = Progress(ballots: Ballots, members: set<string>, blockHash: Option<bytes>)

  ghost predicate IsMember(env: Env, vals: seq<Validator>, votes: seq<Vote>, a: string) {
    exists i :: 0 <= i < |votes| && Active(votes[i]) && InSet(env, vals, votes[i]) && env.addrString(votes[i].address) == Some(a)
  }

  ghost predicate Reached(env: Env, vals: seq<Validator>, height: int, votes: seq<Vote>, p: Progress) {
    && Aggregable(env, vals, height, votes)
    && IsAggregate(env, vals, votes, p.ballots)
    && IsReference(env, votes, p.blockHash)
    && (forall a :: a in p.members <==> IsMember(env, vals, votes, a))
  }

  lemma MemberOneMore(env: Env, vals: seq<Validator>, votes: seq<Vote>, v: Vote, a: string)
    ensures IsMember(env, vals, votes + [v], a)
       <==> IsMember(env, vals, votes, a) || (Active(v) && InSet(env, vals, v) && env.addrString(v.address) == Some(a))
  {
    var all := votes + [v];
    assert all[|votes|] == v && forall i :: 0 <= i < |votes| ==> all[i] == votes[i];
    if IsMember(env, vals, votes, a) {
      var i :| 0 <= i < |votes| && Active(votes[i]) && InSet(env, vals, votes[i]) && env.addrString(votes[i].address) == Some(a);
      assert all[i] == votes[i];
    }
  }

  lemma AggregateUnmoved(env: Env, vals: seq<Validator>, votes: seq<Vote>, v: Vote, ballots: Ballots)
    requires IsAggregate(env, vals, votes, ballots)
    requires !Active(v) || !InSet(env, vals, v)
    ensures IsAggregate(env, vals, votes + [v], ballots)
  {
    forall tx, r: int32 ensures Count(ballots, tx, r) == Power(vals, Voters(env, votes + [v], Answered(tx, r))) {
      PowerUnmoved(env, vals, votes, v, Answered(tx, r));
    }
    forall tx ensures tx in ballots <==> Voted(env, vals, votes + [v], tx) {
      VotedOneMore(env, vals, votes, v, tx);
    }
  }

  lemma AggregateMoved(env: Env, vals: seq<Validator>, votes: seq<Vote>, v: Vote, ballots: Ballots, after: Ballots)
    requires DistinctAddresses(vals)
    requires IsAggregate(env, vals, votes, ballots)
    requires Active(v) && InSet(env, vals, v) && env.decode(v.extension).Some?
    requires !IsMember(env, vals, votes, env.addrString(v.address).value)
    requires Credited(ballots, after, env.decode(v.extension).value.sideTxResponses,
                      Find(vals, env.addrString(v.address).value).value.power)
    ensures IsAggregate(env, vals, votes + [v], after)
  {
    var a := env.addrString(v.address).value;
    var rs := env.decode(v.extension).value.sideTxResponses;
    forall tx, r: int32 ensures Count(after, tx, r) == Power(vals, Voters(env, votes + [v], Answered(tx, r))) {
      VotersAre(env, votes, Answered(tx, r), a);
      if AnsweredIn(rs, tx, r) {
        PowerMoved(env, vals, votes, v, Answered(tx, r));
      } else {
        PowerUnmoved(env, vals, votes, v, Answered(tx, r));
      }
    }
    forall tx ensures tx in after <==> Voted(env, vals, votes + [v], tx) {
      VotedOneMore(env, vals, votes, v, tx);
      if exists k :: 0 <= k < |rs| && Raw(rs[k].txHash) == tx {
        var k :| 0 <= k < |rs| && Raw(rs[k].txHash) == tx;
        assert IsAnswer(rs[k], tx, rs[k].result);
        assert Meets(env, Answered(tx, rs[k].result), v);
      }
    }
  }

  lemma AggregableOneMore(env: Env, vals: seq<Validator>, height: int, votes: seq<Vote>, v: Vote, h: Option<bytes>)
    requires Aggregable(env, vals, height, votes) && IsReference(env, votes, h)
    ensures Aggregable(env, vals, height, votes + [v])
       <==> && Countable(env, vals, height, v)
            && (Active(v) ==>
                  && (h.None? || h.value == Raw(BlockHashOf(env, v)))
                  && (InSet(env, vals, v) ==> !IsMember(env, vals, votes, env.addrString(v.address).value)))
  {
    var all := votes + [v];
    assert all[|votes|] == v && forall i :: 0 <= i < |votes| ==> all[i] == votes[i];
    if Active(v) {
      ReferenceDecides(env, votes, v, h);
      assert DistinctMembers(env, vals, all) ==> InSet(env, vals, v) ==> !IsMember(env, vals, votes, env.addrString(v.address).value);
    } else {
      SkippedVote(env, votes, v);
    }
  }

  /** The body of the outer loop for one vote. */
  method CountVote(env: Env, vals: seq<Validator>, height: int, ghost before: seq<Vote>, p: Progress, v: Vote)
    returns (r: Option<Progress>)
    requires DistinctAddresses(vals)
    requires Reached(env, vals, height, before, p)
    ensures r.Some? <==> Aggregable(env, vals, height, before + [v])
    ensures r.Some? ==> Reached(env, vals, height, before + [v], r.value)
  {
    AggregableOneMore(env, vals, height, before, v, p.blockHash);
    forall a { MemberOneMore(env, vals, before, v, a); }
    hide Aggregable, IsAggregate, IsMember, HashesAgree, Credited;
    if !Active(v) {
      SkippedVote(env, before, v);
      AggregateUnmoved(env, vals, before, v, p.ballots);
    }
    if IsFilteredPlaceholder(v) {
      return Some(p);
    }
    if !ValidFlag(v.flag) {
      return None;
    }
    if v.flag != Commit {
      return Some(p);
    }
    if env.decode(v.extension).None? {
      return None;
    }
    var ve := env.decode(v.extension).value;
    if ve.height != height - 1 {
      return None;
    }
    var blockHash := p.blockHash;
    if blockHash.None? {
      blockHash := ve.blockHash;
    } else if env.addrString(v.address).None? || blockHash.value != Raw(ve.blockHash) {
      return None;
    }
    if env.addrString(v.address).None? {
      return None;
    }
    var address := env.addrString(v.address).value;
    CountedVote(env, before, v, p.blockHash);
    match Find(vals, address) {
      case None =>
        AggregateUnmoved(env, vals, before, v, p.ballots);
        return Some(p.(blockHash := blockHash));
      case Some(member) =>
        if address in p.members {
          return None;
        }
        var credited := CreditResponses(p.ballots, ve.sideTxResponses, member.power);
        if credited.None? {
          return None;
        }
        AggregateMoved(env, vals, before, v, p.ballots, credited.value);
        return Some(Progress(credited.value, p.members + {address}, blockHash));
    }
  }

  lemma AggregablePrefix(env: Env, vals: seq<Validator>, height: int, votes: seq<Vote>, n: nat)
    requires n <= |votes| && Aggregable(env, vals, height, votes)
    ensures Aggregable(env, vals, height, votes[..n])
  {
    assert forall i :: 0 <= i < n ==> votes[..n][i] == votes[i];
  }

  /** aggregateVotes: fails exactly when the votes are not countable, and otherwise
      sums canonical power over the voters of each answer. */
  method AggregateVotes(env: Env, vals: seq<Validator>, height: int, votes: seq<Vote>) returns (r: Option<Ballots>)
    requires DistinctAddresses(vals)
    ensures r.Some? <==> Aggregable(env, vals, height, votes)
    ensures r.Some? ==> IsAggregate(env, vals, votes, r.value)
  {
    PowerEmpty(vals);
    var p := Progress(map[], {}, None);
    for i := 0 to |votes|
      invariant Reached(env, vals, height, votes[..i], p)
    {
      assert votes[..i + 1] == votes[..i] + [votes[i]];
      var next := CountVote(env, vals, height, votes[..i], p, votes[i]);
      if next.None? {
        assert !Aggregable(env, vals, height, votes) by {
          if Aggregable(env, vals, height, votes) {
            AggregablePrefix(env, vals, height, votes, i + 1);
          }
        }
        return None;
      }
      p := next.value;
    }
    assert votes[..|votes|] == votes;
    return Some(p.ballots);
  }
}
