/** Extended votes as CometBFT hands them to the application, and the vocabulary
    in which validation, filtering and tallying are specified. */
module VoteExtensions {
  import opened Prelude
  import opened Messages
  import opened VotingPower

  datatype BlockIDFlag = Absent | Commit | Nil | UnknownFlag(code: int)

  datatype Vote = Vote(
    address: bytes,
    power: int,
    flag: BlockIDFlag,
    extension: bytes,
    signature: bytes,
    nonRpExtension: bytes,
    nonRpSignature: bytes)

  /** The block being proposed or processed: its height and the last commit's round. */
  datatype Request = Request(height: int, round: int)

  /** Code outside this model, as deterministic functions, with the consensus
      parameters and fork switches read from the context. */
  datatype Env = Env(
    enableHeight: int,
    phuket: bool,
    missingIsError: bool,
    addrString: bytes -> Option<string>,
    knownFields: bytes -> bool,
    decode: bytes -> Option<VoteExtension>,
    milestoneOk: Option<MilestoneProposition> -> bool,
    signBytes: (bytes, int, int) -> Option<bytes>,
    verify: (bytes, bytes, bytes) -> bool)

  const MAX_SIDE_TX_RESPONSES: nat := 50
  const HASH_LENGTH: nat := 32

  predicate ValidFlag(flag: BlockIDFlag) {
    !flag.UnknownFlag?
  }

  predicate ValidVote(result: int32) {
    result == VOTE_UNSPECIFIED || result == VOTE_YES || result == VOTE_NO
  }

  /** A committed vote whose whole payload was stripped by the proposer. */
  predicate IsFilteredPlaceholder(v: Vote) {
    && v.flag == Commit
    && |v.extension| == 0
    && |v.signature| == 0
    && |v.nonRpExtension| == 0
    && |v.nonRpSignature| == 0
  }

  function Strip(v: Vote): Vote {
    v.(extension := [], signature := [], nonRpExtension := [], nonRpSignature := [])
  }

  /** A placeholder is a committed vote with nothing left to strip. */
  lemma PlaceholderIff(v: Vote)
    ensures IsFilteredPlaceholder(v) <==> v.flag == Commit && Strip(v) == v
  {
  }

  /** The votes that are looked at and counted: committed, and not stripped. */
  predicate Active(v: Vote) {
    v.flag == Commit && !IsFilteredPlaceholder(v)
  }

  /** checkIfVoteExtensionsDisabled returns no error at this height. */
  predicate Enabled(env: Env, height: int) {
    env.enableHeight != 0 && height >= env.enableHeight
  }

  /** The voter is a member of the validator set. */
  predicate InSet(env: Env, vals: seq<Validator>, v: Vote) {
    env.addrString(v.address).Some? && Find(vals, env.addrString(v.address).value).Some?
  }

  // ----- what a vote says -----

  ghost predicate Responds(ve: VoteExtension, tx: bytes, result: int32) {
    exists k :: 0 <= k < |ve.sideTxResponses| && IsAnswer(ve.sideTxResponses[k], tx, result)
  }

  predicate IsAnswer(response: SideTxResponse, tx: bytes, result: int32) {
    Raw(response.txHash) == tx && response.result == result
  }

  /** What is asked of a voter when a group of voters is collected. */
  datatype Criterion =
    | Anyone
    | Answered(tx: bytes, result: int32)
    | SignedNonRp(extension: bytes)

  ghost predicate Meets(env: Env, c: Criterion, v: Vote) {
    && Active(v)
    && match c {
      case Anyone => true
      case Answered(tx, result) =>
        env.decode(v.extension).Some? && Responds(env.decode(v.extension).value, tx, result)
      case SignedNonRp(extension) => v.nonRpExtension == extension
    }
  }

  /** Addresses of the active voters meeting a criterion. */
  ghost function Voters(env: Env, votes: seq<Vote>, c: Criterion): set<string> {
    if votes == [] then {}
    else
      var v := votes[|votes| - 1];
      Voters(env, votes[..|votes| - 1], c)
      + (if Meets(env, c, v) && env.addrString(v.address).Some? then {env.addrString(v.address).value} else {})
  }

  lemma {:induction false} VotersAre(env: Env, votes: seq<Vote>, c: Criterion, a: string)
    ensures a in Voters(env, votes, c)
       <==> exists i :: 0 <= i < |votes| && Meets(env, c, votes[i]) && env.addrString(votes[i].address) == Some(a)
  {
    if votes != [] {
      VotersAre(env, votes[..|votes| - 1], c, a);
    }
  }

  /** No two active votes come from the same validator. */
  ghost predicate DistinctVoters(env: Env, votes: seq<Vote>) {
    forall i, j :: 0 <= i < j < |votes| && Active(votes[i]) && Active(votes[j]) ==>
      env.addrString(votes[i].address) != env.addrString(votes[j].address)
  }

  /** With distinct voters, exclusive criteria select disjoint groups. */
  lemma ExclusiveCriteria(env: Env, votes: seq<Vote>, c: Criterion, d: Criterion)
    requires DistinctVoters(env, votes)
    requires forall v :: v in votes ==> !(Meets(env, c, v) && Meets(env, d, v))
    ensures Voters(env, votes, c) !! Voters(env, votes, d)
  {
    forall a | a in Voters(env, votes, c) ensures a !in Voters(env, votes, d) {
      VotersAre(env, votes, c, a);
      VotersAre(env, votes, d, a);
    }
  }

  // ----- side tx responses -----

  /** At most fifty, each a 32-byte hash with a legal vote, no hash twice. */
  predicate ResponsesOk(rs: seq<SideTxResponse>) {
    && |rs| <= MAX_SIDE_TX_RESPONSES
    && (forall k :: 0 <= k < |rs| ==> |Raw(rs[k].txHash)| == HASH_LENGTH && ValidVote(rs[k].result))
    && (forall k, l :: 0 <= k < l < |rs| ==> Raw(rs[k].txHash) != Raw(rs[l].txHash))
  }

  /** validateSideTxResponses: accepts exactly the well-formed lists, and otherwise
      returns the hash of the first response that breaks the rule. */
  method ValidateSideTxResponses(rs: seq<SideTxResponse>) returns (r: Result<(), bytes>)
    ensures r.Ok? <==> ResponsesOk(rs)
    ensures r.Err? && |rs| <= MAX_SIDE_TX_RESPONSES ==>
              exists k :: 0 <= k < |rs| && r.error == Raw(rs[k].txHash)
                       && ResponsesOk(rs[..k]) && !ResponsesOk(rs[..k + 1])
  {
    if |rs| > MAX_SIDE_TX_RESPONSES {
      return Err([]);
    }
    var voted: set<bytes> := {};
    var i := 0;
    while i < |rs|
      invariant 0 <= i <= |rs|
      invariant ResponsesOk(rs[..i])
      invariant forall h :: h in voted <==> exists k :: 0 <= k < i && Raw(rs[k].txHash) == h
    {
      var hash := Raw(rs[i].txHash);
      if |hash| != HASH_LENGTH || !ValidVote(rs[i].result) || hash in voted {
        assert !ResponsesOk(rs[..i + 1]) by {
          assert rs[..i + 1][i] == rs[i];
          if hash in voted {
            var k :| 0 <= k < i && Raw(rs[k].txHash) == hash;
            assert rs[..i + 1][k] == rs[k];
          }
        }
        return Err(hash);
      }
      voted := voted + {hash};
      i := i + 1;
    }
    assert rs[..i] == rs;
    return Ok(());
  }

  /** A tx gets at most one answer from one well-formed extension. */
  lemma OneAnswerPerTx(ve: VoteExtension, tx: bytes, r: int32, s: int32)
    requires ResponsesOk(ve.sideTxResponses)
    requires Responds(ve, tx, r) && Responds(ve, tx, s)
    ensures r == s
  {
    var k :| 0 <= k < |ve.sideTxResponses| && IsAnswer(ve.sideTxResponses[k], tx, r);
    var l :| 0 <= l < |ve.sideTxResponses| && IsAnswer(ve.sideTxResponses[l], tx, s);
    assert k == l;
  }
}
