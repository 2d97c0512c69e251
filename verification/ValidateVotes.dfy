/** What every validator checks about the votes a proposer put in a block:
    ValidateVoteExtensions and ValidateVoteExtensionsCompleteness. */
module ValidateVotes {
  import opened Prelude
  import opened Messages
  import opened VotingPower
  import opened VoteExtensions

  ghost predicate ContentOk(env: Env, req: Request, v: Vote) {
    && env.addrString(v.address).Some?
    && |v.signature| != 0
    && env.decode(v.extension).Some?
    && var ve := env.decode(v.extension).value;
    && ve.height == req.height - 1
    && ResponsesOk(ve.sideTxResponses)
    && env.milestoneOk(ve.milestone)
  }

  predicate ExtensionSigned(env: Env, req: Request, member: Validator, v: Vote) {
    && member.pubKey.Some?
    && env.signBytes(v.extension, req.height - 1, req.round).Some?
    && env.verify(member.pubKey.value, env.signBytes(v.extension, req.height - 1, req.round).value, v.signature)
  }

  ghost predicate MemberOk(env: Env, req: Request, vals: seq<Validator>, v: Vote)
    requires env.addrString(v.address).Some?
  {
    match Find(vals, env.addrString(v.address).value)
    case None => !env.missingIsError
    case Some(member) => v.power == member.power && ExtensionSigned(env, req, member, v)
  }

  /** The checks that concern one vote alone. */
  ghost predicate VoteOk(env: Env, req: Request, vals: seq<Validator>, v: Vote) {
    IsFilteredPlaceholder(v)
    || (&& env.knownFields(v.extension)
        && ValidFlag(v.flag)
        && (v.flag == Commit ==> ContentOk(env, req, v) && MemberOk(env, req, vals, v)))
  }

  function BlockHashOf(env: Env, v: Vote): Option<bytes> {
    if env.decode(v.extension).Some? then env.decode(v.extension).value.blockHash else None
  }

  /** Once a non-nil block hash has been seen, every later one equals it. A nil hash
      never becomes the reference, so an earlier nil hash is let through. */
  ghost predicate HashesAgree(env: Env, votes: seq<Vote>) {
    forall i, j :: 0 <= i < j < |votes| && Active(votes[i]) && Active(votes[j]) && BlockHashOf(env, votes[i]).Some? ==>
      Raw(BlockHashOf(env, votes[j])) == BlockHashOf(env, votes[i]).value
  }

  /** Every check of the loop, over all votes together. */
  ghost predicate Consistent(env: Env, req: Request, vals: seq<Validator>, votes: seq<Vote>) {
    && (forall i :: 0 <= i < |votes| ==> VoteOk(env, req, vals, votes[i]))
    && DistinctVoters(env, votes)
    && HashesAgree(env, votes)
  }

  /** The votes of a proposal are accepted. */
  ghost predicate Accepts(env: Env, req: Request, vals: seq<Validator>, votes: seq<Vote>) {
    && Enabled(env, req.height + 1)
    && if req.height <= env.enableHeight then votes == [] else
       && Consistent(env, req, vals, votes)
       && Power(vals, Voters(env, votes, Anyone)) > MajorityVP(vals)
  }

  /** The reference hash after some votes: that of the first active vote with a non-nil one. */
  ghost predicate IsReference(env: Env, votes: seq<Vote>, blockHash: Option<bytes>) {
    if blockHash.None? then
      forall i :: 0 <= i < |votes| && Active(votes[i]) ==> BlockHashOf(env, votes[i]).None?
    else
      exists i :: 0 <= i < |votes| && Active(votes[i]) && BlockHashOf(env, votes[i]) == blockHash
  }

  lemma ReferenceDecides(env: Env, votes: seq<Vote>, v: Vote, blockHash: Option<bytes>)
    requires HashesAgree(env, votes) && IsReference(env, votes, blockHash) && Active(v)
    ensures HashesAgree(env, votes + [v])
       <==> blockHash.None? || blockHash.value == Raw(BlockHashOf(env, v))
  {
    var all := votes + [v];
    assert forall i :: 0 <= i < |votes| ==> all[i] == votes[i];
    if blockHash.Some? {
      var i :| 0 <= i < |votes| && Active(votes[i]) && BlockHashOf(env, votes[i]) == blockHash;
      assert all[i] == votes[i] && all[|votes|] == v;
      if blockHash.value == Raw(BlockHashOf(env, v)) {
        forall k, l | 0 <= k < l < |all| && Active(all[k]) && Active(all[l]) && BlockHashOf(env, all[k]).Some?
          ensures Raw(BlockHashOf(env, all[l])) == BlockHashOf(env, all[k]).value
        {
          if l == |votes| {
            // the reference and vote k agree already
            assert k == i || (k < i ==> Raw(BlockHashOf(env, votes[i])) == BlockHashOf(env, votes[k]).value);
            assert i < k ==> Raw(BlockHashOf(env, votes[k])) == BlockHashOf(env, votes[i]).value;
          } else {
            assert all[k] == votes[k] && all[l] == votes[l];
          }
        }
      }
    }
  }

  /** An active vote whose own checks pass extends the accepted prefix exactly when
      its voter is new. */
  lemma NewVoterDecides(env: Env, votes: seq<Vote>, v: Vote, seen: set<string>)
    requires DistinctVoters(env, votes) && Active(v) && env.addrString(v.address).Some?
    requires seen == Voters(env, votes, Anyone)
    ensures DistinctVoters(env, votes + [v]) <==> env.addrString(v.address).value !in seen
  {
    var all := votes + [v];
    assert forall i :: 0 <= i < |votes| ==> all[i] == votes[i];
    var a := env.addrString(v.address).value;
    VotersAre(env, votes, Anyone, a);
    if a in seen {
      var i :| 0 <= i < |votes| && Meets(env, Anyone, votes[i]) && env.addrString(votes[i].address) == Some(a);
      assert all[i] == votes[i] && all[|votes|] == v;
    } else {
      forall i, j | 0 <= i < j < |all| && Active(all[i]) && Active(all[j])
        ensures env.addrString(all[i].address) != env.addrString(all[j].address)
      {
        assert Meets(env, Anyone, all[i]);
      }
    }
  }

  lemma ConsistentPrefix(env: Env, req: Request, vals: seq<Validator>, votes: seq<Vote>, n: nat)
    requires n <= |votes| && Consistent(env, req, vals, votes)
    ensures Consistent(env, req, vals, votes[..n])
  {
    assert forall i :: 0 <= i < n ==> votes[..n][i] == votes[i];
  }

  lemma SkippedVote(env: Env, votes: seq<Vote>, v: Vote)
    requires !Active(v)
    ensures forall c :: Voters(env, votes + [v], c) == Voters(env, votes, c)
    ensures DistinctVoters(env, votes) ==> DistinctVoters(env, votes + [v])
    ensures HashesAgree(env, votes) ==> HashesAgree(env, votes + [v])
    ensures forall h :: IsReference(env, votes, h) ==> IsReference(env, votes + [v], h)
  {
    var all := votes + [v];
    assert all[..|votes|] == votes && all[|votes|] == v;
    assert forall i :: 0 <= i < |votes| ==> all[i] == votes[i];
    forall h | IsReference(env, votes, h) ensures IsReference(env, all, h) {
      if h.Some? {
        var i :| 0 <= i < |votes| && Active(votes[i]) && BlockHashOf(env, votes[i]) == h;
        assert all[i] == votes[i];
      }
    }
  }

  lemma CountedVote(env: Env, votes: seq<Vote>, v: Vote, h: Option<bytes>)
    requires Active(v) && env.addrString(v.address).Some?
    requires IsReference(env, votes, h)
    ensures Voters(env, votes + [v], Anyone) == Voters(env, votes, Anyone) + {env.addrString(v.address).value}
    ensures IsReference(env, votes + [v], if h.Some? then h else BlockHashOf(env, v))
  {
    var all := votes + [v];
    assert all[..|votes|] == votes && all[|votes|] == v;
    assert forall i :: 0 <= i < |votes| ==> all[i] == votes[i];
    if h.Some? {
      var i :| 0 <= i < |votes| && Active(votes[i]) && BlockHashOf(env, votes[i]) == h;
      assert all[i] == votes[i];
    }
  }

  /** One more vote keeps a list consistent exactly when it passes its own checks and,
      if it is active, comes from a new voter and carries the reference hash. */
  lemma ConsistentExtends(env: Env, req: Request, vals: seq<Validator>, votes: seq<Vote>, v: Vote,
                          seen: set<string>, h: Option<bytes>)
    requires Consistent(env, req, vals, votes)
    requires seen == Voters(env, votes, Anyone) && IsReference(env, votes, h)
    ensures Consistent(env, req, vals, votes + [v])
       <==> && VoteOk(env, req, vals, v)
            && (Active(v) ==> && env.addrString(v.address).value !in seen
                              && (h.None? || h.value == Raw(BlockHashOf(env, v))))
  {
    hide VoteOk, DistinctVoters, HashesAgree, IsReference, Voters;
    var all := votes + [v];
    assert all[|votes|] == v && forall i :: 0 <= i < |votes| ==> all[i] == votes[i];
    if !Active(v) {
      SkippedVote(env, votes, v);
    } else {
      ReferenceDecides(env, votes, v, h);
      if VoteOk(env, req, vals, v) {
        ActiveHasAddress(env, req, vals, v);
        NewVoterDecides(env, votes, v, seen);
      }
    }
    PairsOfPrefix(env, votes, v);
  }

  lemma ActiveHasAddress(env: Env, req: Request, vals: seq<Validator>, v: Vote)
    requires Active(v) && VoteOk(env, req, vals, v)
    ensures env.addrString(v.address).Some?
  {
  }

  lemma PairsOfPrefix(env: Env, votes: seq<Vote>, v: Vote)
    ensures DistinctVoters(env, votes + [v]) ==> DistinctVoters(env, votes)
    ensures HashesAgree(env, votes + [v]) ==> HashesAgree(env, votes)
  {
    var all := votes + [v];
    assert forall i :: 0 <= i < |votes| ==> all[i] == votes[i];
  }

  /** What the loop carries from one vote to the next. */
  datatype Tracker = Tracker(seen: set<string>, blockHash: Option<bytes>, sumVP: nat)

  ghost predicate Tracks(env: Env, vals: seq<Validator>, votes: seq<Vote>, t: Tracker) {
    && t.seen == Voters(env, votes, Anyone)
    && IsReference(env, votes, t.blockHash)
    && t.sumVP == Power(vals, t.seen)
  }

  /** The body of the validation loop for one vote. */
  method CheckVote(env: Env, req: Request, vals: seq<Validator>, ghost before: seq<Vote>, t: Tracker, v: Vote)
    returns (r: Option<Tracker>)
    requires DistinctAddresses(vals)
    requires Consistent(env, req, vals, before) && Tracks(env, vals, before, t)
    ensures r.Some? <==> Consistent(env, req, vals, before + [v])
    ensures r.Some? ==> Tracks(env, vals, before + [v], r.value)
  {
    hide Consistent, Power, Voters, IsReference, HashesAgree, DistinctVoters, ResponsesOk, DistinctAddresses;
    ConsistentExtends(env, req, vals, before, v, t.seen, t.blockHash);
    if !Active(v) {
      SkippedVote(env, before, v);
    }
    if IsFilteredPlaceholder(v) {
      return Some(t);
    }
    if !env.knownFields(v.extension) || !ValidFlag(v.flag) {
      return None;
    }
    if v.flag != Commit {
      return Some(t);
    }
    if env.addrString(v.address).None? || |v.signature| == 0 || env.decode(v.extension).None? {
      return None;
    }
    var address := env.addrString(v.address).value;
    var ve := env.decode(v.extension).value;
    if ve.height != req.height - 1 {
      return None;
    }
    var blockHash := t.blockHash;
    if blockHash.None? {
      blockHash := ve.blockHash;
    } else if blockHash.value != Raw(ve.blockHash) {
      return None;
    }
    var responses := ValidateSideTxResponses(ve.sideTxResponses);
    if responses.Err? || !env.milestoneOk(ve.milestone) || address in t.seen {
      return None;
    }
    CountedVote(env, before, v, t.blockHash);
    PowerAdd(vals, t.seen, address);
    var counted := Tracker(t.seen + {address}, blockHash, t.sumVP);
    match Find(vals, address) {
      case None =>
        return if env.missingIsError then None else Some(counted);
      case Some(member) =>
        if v.power != member.power || !ExtensionSigned(env, req, member, v) {
          return None;
        }
        return Some(counted.(sumVP := t.sumVP + member.power));
    }
  }

  /** ValidateVoteExtensions returns no error exactly on the lists Accepts describes. */
  method ValidateVoteExtensions(env: Env, req: Request, vals: seq<Validator>, votes: seq<Vote>) returns (ok: bool)
    requires DistinctAddresses(vals)
    ensures ok <==> Accepts(env, req, vals, votes)
  {
    if !Enabled(env, req.height + 1) {
      return false;
    }
    if req.height <= env.enableHeight {
      return |votes| == 0;
    }
    PowerEmpty(vals);
    var t := Tracker({}, None, 0);
    for i := 0 to |votes|
      invariant Consistent(env, req, vals, votes[..i]) && Tracks(env, vals, votes[..i], t)
    {
      assert votes[..i + 1] == votes[..i] + [votes[i]];
      var next := CheckVote(env, req, vals, votes[..i], t, votes[i]);
      if next.None? {
        assert !Consistent(env, req, vals, votes) by {
          if Consistent(env, req, vals, votes) {
            ConsistentPrefix(env, req, vals, votes, i + 1);
          }
        }
        return false;
      }
      t := next.value;
    }
    assert votes[..|votes|] == votes;
    return t.sumVP > MajorityVP(vals);
  }

  // ----- completeness -----

  datatype VoteInfo = VoteInfo(address: bytes, flag: BlockIDFlag)

  /** The last entry of a validator decides its flag. */
  ghost predicate LastEntryCommits(votes: seq<Vote>, address: bytes) {
    exists i :: 0 <= i < |votes| && votes[i].address == address && votes[i].flag == Commit
             && forall j :: i < j < |votes| ==> votes[j].address != address
  }

  /** Every validator that committed the previous block is still shown as committing. */
  ghost predicate Complete(canonical: seq<VoteInfo>, votes: seq<Vote>) {
    forall k :: 0 <= k < |canonical| && canonical[k].flag == Commit ==> LastEntryCommits(votes, canonical[k].address)
  }

  method ValidateVoteExtensionsCompleteness(canonical: seq<VoteInfo>, votes: seq<Vote>) returns (ok: bool)
    ensures ok <==> Complete(canonical, votes)
  {
    var flags: map<bytes, BlockIDFlag> := map[];
    for i := 0 to |votes|
      invariant forall a :: a in flags <==> exists j :: 0 <= j < i && votes[j].address == a
      invariant forall a :: a in flags ==>
        exists j :: 0 <= j < i && votes[j].address == a && votes[j].flag == flags[a]
                 && forall k :: j < k < i ==> votes[k].address != a
    {
      flags := flags[votes[i].address := votes[i].flag];
      assert votes[i].address in flags;
    }
    for k := 0 to |canonical|
      invariant forall l :: 0 <= l < k && canonical[l].flag == Commit ==> LastEntryCommits(votes, canonical[l].address)
    {
      var c := canonical[k];
      if c.flag != Commit {
        continue;
      }
      if c.address !in flags || flags[c.address] != Commit {
        return false;
      }
    }
    return true;
  }
}
