/** What a proposer does with the votes of its last commit before it puts them
    in a block: filterVoteExtensions. */
module FilterVotes {
  import opened Prelude
  import opened Messages
  import opened VotingPower
  import opened VoteExtensions
  import opened ValidateVotes

  const MIN_NON_RP_SIZE: nat := 31  // length of the dummy non-rp extension
  const MAX_NON_RP_SIZE: nat := 500
  const SAFETY_FACTOR: nat := 2
  const OVERHEAD_PER_VALIDATOR: nat := 500
  const MIN_VE_SIZE: nat := 10
  const MAX_VE_SIZE: nat := 10 * 1024

  /** Go's integer division. */
  function Quotient(a: int, b: nat): int
    requires b > 0
  {
    if a >= 0 then a / b else -((-a) / b)
  }

  function CalculatedSize(maxTxBytes: int, count: nat): int
    requires count > 0
  {
    Quotient(Quotient(maxTxBytes, count), SAFETY_FACTOR) - OVERHEAD_PER_VALIDATOR
  }

  function SizeLimit(maxTxBytes: int, count: nat): nat
    requires count > 0
  {
    var size := CalculatedSize(maxTxBytes, count);
    if size < MIN_NON_RP_SIZE then MIN_NON_RP_SIZE
    else if size > MAX_VE_SIZE then MAX_VE_SIZE
    else size
  }

  predicate SizeFiltered(limit: nat, v: Vote) {
    || |v.extension| < MIN_VE_SIZE
    || |v.extension| > limit
    || |v.nonRpExtension| < MIN_NON_RP_SIZE
    || |v.nonRpExtension| > MAX_NON_RP_SIZE
  }

  /** What becomes of one vote. `marked` says whether its validator was recorded as seen. */
  datatype Judgement =
    | Fatal
    | Dropped(marked: bool)
    | Stripped(marked: bool)
    | Kept(blockHash: bytes)
  {
    predicate Marks() {
      !Fatal? && (Kept? || marked)
    }
  }

  /** After Phuket an invalid vote leaves a placeholder behind; before, nothing. */
  function Refuse(env: Env, marked: bool): Judgement {
    if env.phuket then Stripped(marked) else Dropped(marked)
  }

  function Judge(env: Env, req: Request, vals: seq<Validator>, limit: nat, v: Vote): Judgement {
    if env.addrString(v.address).None? then Fatal
    else if env.phuket && SizeFiltered(limit, v) then Stripped(false)
    else if !env.knownFields(v.extension) then Refuse(env, false)
    else if !ValidFlag(v.flag) || v.flag != Commit then Dropped(false)
    else if |v.signature| == 0 then (if env.phuket then Stripped(false) else Fatal)
    else if env.decode(v.extension).None? then Refuse(env, false)
    else
      var ve := env.decode(v.extension).value;
      if ve.height != req.height - 1 || !ResponsesOk(ve.sideTxResponses) || !env.milestoneOk(ve.milestone) then
        Refuse(env, false)
      else
        match Find(vals, env.addrString(v.address).value)
        case None => Refuse(env, true)
        case Some(member) => JudgeMember(env, req, member, v, ve)
  }

  function JudgeMember(env: Env, req: Request, member: Validator, v: Vote, ve: VoteExtension): Judgement {
    var toSign := env.signBytes(v.extension, req.height - 1, req.round);
    if v.power != member.power then Refuse(env, true)
    else if member.pubKey.None? || toSign.None? then Fatal
    else if !env.verify(member.pubKey.value, toSign.value, v.signature) then
      (if env.phuket then Stripped(true) else Fatal)
    else if env.phuket && !env.verify(member.pubKey.value, v.nonRpExtension, v.nonRpSignature) then Stripped(true)
    else Kept(Raw(ve.blockHash))
  }

  /** The first pass raises no error: no vote is fatal, no recorded validator repeats. */
  ghost predicate Screened(env: Env, req: Request, vals: seq<Validator>, limit: nat, votes: seq<Vote>) {
    && (forall i :: 0 <= i < |votes| ==> !Judge(env, req, vals, limit, votes[i]).Fatal?)
    && (forall i, j ::
          (0 <= i < j < |votes| && Judge(env, req, vals, limit, votes[i]).Marks() && Judge(env, req, vals, limit, votes[j]).Marks())
          ==> env.addrString(votes[i].address) != env.addrString(votes[j].address))
  }

  function FirstEmit(j: Judgement, v: Vote): seq<Vote> {
    match j
    case Kept(_) => [v]
    case Stripped(_) => [Strip(v)]
    case _ => []
  }

  function FirstPass(env: Env, req: Request, vals: seq<Validator>, limit: nat, votes: seq<Vote>): seq<Vote> {
    if votes == [] then []
    else
      var v := votes[|votes| - 1];
      FirstPass(env, req, vals, limit, votes[..|votes| - 1]) + FirstEmit(Judge(env, req, vals, limit, v), v)
  }

  function SecondEmit(env: Env, majority: bytes, v: Vote): seq<Vote> {
    if IsFilteredPlaceholder(v) then [v]
    else if env.decode(v.extension).Some? && Raw(env.decode(v.extension).value.blockHash) == majority then [v]
    else if env.phuket then [Strip(v)]
    else []
  }

  function SecondPass(env: Env, majority: bytes, votes: seq<Vote>): seq<Vote> {
    if votes == [] then []
    else SecondPass(env, majority, votes[..|votes| - 1]) + SecondEmit(env, majority, votes[|votes| - 1])
  }

  /** Validators whose vote was kept with this block hash. */
  ghost function Backers(env: Env, req: Request, vals: seq<Validator>, limit: nat, votes: seq<Vote>, h: bytes): set<string> {
    if votes == [] then {}
    else
      var v := votes[|votes| - 1];
      Backers(env, req, vals, limit, votes[..|votes| - 1], h)
      + (if Judge(env, req, vals, limit, v) == Kept(h) && env.addrString(v.address).Some?
         then {env.addrString(v.address).value} else {})
  }

  ghost predicate HasQuorum(env: Env, req: Request, vals: seq<Validator>, limit: nat, votes: seq<Vote>, h: bytes) {
    Power(vals, Backers(env, req, vals, limit, votes, h)) > MajorityVP(vals)
  }

  /** The limit in force: none before Phuket. */
  function LimitFor(env: Env, vals: seq<Validator>, maxTxBytes: int): nat {
    if env.phuket && |vals| > 0 then SizeLimit(maxTxBytes, |vals|) else 0
  }

  /** The outcome of filterVoteExtensions; None stands for an error. */
  ghost predicate FilterOutcome(env: Env, req: Request, vals: seq<Validator>, maxTxBytes: int,
                                votes: seq<Vote>, r: Option<seq<Vote>>) {
    var limit := LimitFor(env, vals, maxTxBytes);
    if !Enabled(env, req.height + 1) then r.None?
    else if req.height <= env.enableHeight then r == (if votes == [] then Some([]) else None)
    else if env.phuket && |vals| == 0 then r.None?
    else if !Screened(env, req, vals, limit, votes) then r.None?
    else if r.Some? then
      exists h :: HasQuorum(env, req, vals, limit, votes, h)
               && r.value == SecondPass(env, h, FirstPass(env, req, vals, limit, votes))
    else forall h :: !HasQuorum(env, req, vals, limit, votes, h)
  }

  lemma {:induction false} BackersAre(env: Env, req: Request, vals: seq<Validator>, limit: nat, votes: seq<Vote>,
                                      h: bytes, a: string)
    ensures a in Backers(env, req, vals, limit, votes, h)
       <==> exists i :: 0 <= i < |votes| && Judge(env, req, vals, limit, votes[i]) == Kept(h)
                     && env.addrString(votes[i].address) == Some(a)
  {
    if votes != [] {
      BackersAre(env, req, vals, limit, votes[..|votes| - 1], h, a);
    }
  }

  /** At most one block hash can pass the threshold, so the order in which the
      map is walked does not matter. */
  lemma QuorumIsUnique(env: Env, req: Request, vals: seq<Validator>, limit: nat, votes: seq<Vote>, g: bytes, h: bytes)
    requires Screened(env, req, vals, limit, votes)
    requires HasQuorum(env, req, vals, limit, votes, g) && HasQuorum(env, req, vals, limit, votes, h)
    ensures g == h
  {
    if g != h {
      var s, t := Backers(env, req, vals, limit, votes, g), Backers(env, req, vals, limit, votes, h);
      forall a | a in s ensures a !in t {
        BackersAre(env, req, vals, limit, votes, g, a);
        BackersAre(env, req, vals, limit, votes, h, a);
      }
      DisjointQuorums(vals, s, t);
      assert false;
    }
  }

  lemma BackersGrow(env: Env, req: Request, vals: seq<Validator>, limit: nat, votes: seq<Vote>, v: Vote, h: bytes)
    ensures Backers(env, req, vals, limit, votes + [v], h)
         == Backers(env, req, vals, limit, votes, h)
            + (if Judge(env, req, vals, limit, v) == Kept(h) && env.addrString(v.address).Some?
               then {env.addrString(v.address).value} else {})
  {
    var all := votes + [v];
    assert all[..|votes|] == votes && all[|votes|] == v;
  }

  ghost function PowerFor(powers: map<bytes, nat>, h: bytes): nat {
    if h in powers then powers[h] else 0
  }

  ghost function Marked(env: Env, req: Request, vals: seq<Validator>, limit: nat, votes: seq<Vote>): set<string> {
    set i | 0 <= i < |votes| && Judge(env, req, vals, limit, votes[i]).Marks() && env.addrString(votes[i].address).Some?
      :: env.addrString(votes[i].address).value
  }

  ghost predicate Accumulated(env: Env, req: Request, vals: seq<Validator>, limit: nat, votes: seq<Vote>,
                              seen: set<string>, powers: map<bytes, nat>, valid: seq<Vote>) {
    && Screened(env, req, vals, limit, votes)
    && seen == Marked(env, req, vals, limit, votes)
    && (forall h :: PowerFor(powers, h) == Power(vals, Backers(env, req, vals, limit, votes, h)))
    && valid == FirstPass(env, req, vals, limit, votes)
  }

  /** Who can be kept or recorded at all. */
  lemma JudgedHaveAddress(env: Env, req: Request, vals: seq<Validator>, limit: nat, v: Vote)
    ensures !Judge(env, req, vals, limit, v).Fatal? ==> env.addrString(v.address).Some?
    ensures Judge(env, req, vals, limit, v).Kept? ==> Find(vals, env.addrString(v.address).value).Some?
  {
  }

  lemma ScreenedOneMore(env: Env, req: Request, vals: seq<Validator>, limit: nat, votes: seq<Vote>, v: Vote)
    requires Screened(env, req, vals, limit, votes)
    ensures
      var j := Judge(env, req, vals, limit, v);
      Screened(env, req, vals, limit, votes + [v]) <==>
        !j.Fatal? && (j.Marks() ==> env.addrString(v.address).Some? && env.addrString(v.address).value !in Marked(env, req, vals, limit, votes))
    ensures Marked(env, req, vals, limit, votes + [v])
         == Marked(env, req, vals, limit, votes)
            + (if Judge(env, req, vals, limit, v).Marks() && env.addrString(v.address).Some? then {env.addrString(v.address).value} else {})
  {
    hide Judge;
    JudgedHaveAddress(env, req, vals, limit, v);
    forall i | 0 <= i < |votes| { JudgedHaveAddress(env, req, vals, limit, votes[i]); }
    var all := votes + [v];
    assert all[|votes|] == v && forall i :: 0 <= i < |votes| ==> all[i] == votes[i];
    assert forall i :: 0 <= i < |votes| ==> Judge(env, req, vals, limit, all[i]) == Judge(env, req, vals, limit, votes[i]);
  }

  lemma ScreenedPrefixes(env: Env, req: Request, vals: seq<Validator>, limit: nat, votes: seq<Vote>, n: nat)
    requires n <= |votes| && Screened(env, req, vals, limit, votes)
    ensures Screened(env, req, vals, limit, votes[..n])
  {
    hide Judge;
    assert forall k :: 0 <= k < n ==> votes[..n][k] == votes[k];
  }

  /** One more vote adds its power to the hash it was kept with, and to no other. */
  lemma PowerOneMore(env: Env, req: Request, vals: seq<Validator>, limit: nat, votes: seq<Vote>, v: Vote, h: bytes)
    requires DistinctAddresses(vals) && Screened(env, req, vals, limit, votes + [v])
    ensures Power(vals, Backers(env, req, vals, limit, votes + [v], h))
         == Power(vals, Backers(env, req, vals, limit, votes, h))
            + if Judge(env, req, vals, limit, v) == Kept(h) && InSet(env, vals, v)
              then Find(vals, env.addrString(v.address).value).value.power else 0
  {
    hide Judge, Power, Backers;
    JudgedHaveAddress(env, req, vals, limit, v);
    BackersGrow(env, req, vals, limit, votes, v, h);
    var backers := Backers(env, req, vals, limit, votes, h);
    if Judge(env, req, vals, limit, v) == Kept(h) {
      var a := env.addrString(v.address).value;
      BackersAre(env, req, vals, limit, votes, h, a);
      var all := votes + [v];
      assert all[|votes|] == v && forall i :: 0 <= i < |votes| ==> all[i] == votes[i];
      PowerAdd(vals, backers, a);
    } else {
      assert backers + {} == backers;
    }
  }

  lemma FirstPassOneMore(env: Env, req: Request, vals: seq<Validator>, limit: nat, votes: seq<Vote>, v: Vote)
    ensures FirstPass(env, req, vals, limit, votes + [v])
         == FirstPass(env, req, vals, limit, votes) + FirstEmit(Judge(env, req, vals, limit, v), v)
  {
    hide Judge;
    var all := votes + [v];
    assert all[..|votes|] == votes && all[|votes|] == v;
  }

  /** The body of the first loop for one vote. */
  method JudgeVote(env: Env, req: Request, vals: seq<Validator>, limit: nat, ghost before: seq<Vote>, v: Vote,
                   seen: set<string>, powers: map<bytes, nat>, valid: seq<Vote>)
    returns (r: Option<(set<string>, map<bytes, nat>, seq<Vote>)>)
    requires DistinctAddresses(vals)
    requires Accumulated(env, req, vals, limit, before, seen, powers, valid)
    ensures r.None? <==> !Screened(env, req, vals, limit, before + [v])
    ensures r.Some? ==>
      Accumulated(env, req, vals, limit, before + [v], r.value.0, r.value.1, r.value.2)
  {
    hide Judge, Screened, Marked, Backers, Power, FirstPass, FirstEmit, DistinctAddresses;
    JudgedHaveAddress(env, req, vals, limit, v);
    ScreenedOneMore(env, req, vals, limit, before, v);
    FirstPassOneMore(env, req, vals, limit, before, v);
    var j := Judge(env, req, vals, limit, v);
    if j.Fatal? {
      return None;
    }
    var address := env.addrString(v.address).value;
    if j.Marks() && address in seen {
      return None;
    }
    var seen' := if j.Marks() then seen + {address} else seen;
    var powers' := powers;
    if j.Kept? {
      var power := Find(vals, address).value.power;
      powers' := powers[j.blockHash := (if j.blockHash in powers then powers[j.blockHash] else 0) + power];
    }
    forall h ensures PowerFor(powers', h) == Power(vals, Backers(env, req, vals, limit, before + [v], h)) {
      PowerOneMore(env, req, vals, limit, before, v, h);
    }
    return Some((seen', powers', valid + FirstEmit(j, v)));
  }

  /** Walks the map in any order until a hash passes the threshold. */
  method FindMajority(powers: map<bytes, nat>, threshold: nat) returns (majority: Option<bytes>)
    ensures majority.Some? ==> majority.value in powers && powers[majority.value] > threshold
    ensures majority.None? ==> forall h :: h in powers ==> powers[h] <= threshold
  {
    var rest := powers.Keys;
    majority := None;
    while rest != {} && majority.None?
      invariant rest <= powers.Keys
      invariant forall h :: h in powers.Keys - rest && majority.None? ==> powers[h] <= threshold
      invariant majority.Some? ==> majority.value in powers && powers[majority.value] > threshold
      decreases rest
    {
      var h :| h in rest;
      rest := rest - {h};
      if powers[h] > threshold {
        majority := Some(h);
      }
    }
  }

  /** The second loop: everything that does not carry the majority hash is stripped. */
  method FilterByBlockHash(env: Env, majority: bytes, valid: seq<Vote>) returns (filtered: seq<Vote>)
    ensures filtered == SecondPass(env, majority, valid)
  {
    hide SecondEmit;
    filtered := [];
    for i := 0 to |valid|
      invariant filtered == SecondPass(env, majority, valid[..i])
    {
      assert valid[..i + 1][..i] == valid[..i] && valid[..i + 1][i] == valid[i];
      filtered := filtered + SecondEmit(env, majority, valid[i]);
    }
    assert valid[..|valid|] == valid;
  }

  lemma NothingAccumulated(env: Env, req: Request, vals: seq<Validator>, limit: nat)
    ensures Accumulated(env, req, vals, limit, [], {}, map[], [])
  {
    PowerEmpty(vals);
  }

  /** filterVoteExtensions. */
  method FilterVoteExtensions(env: Env, req: Request, vals: seq<Validator>, maxTxBytes: int, votes: seq<Vote>)
    returns (r: Option<seq<Vote>>)
    requires DistinctAddresses(vals)
    ensures FilterOutcome(env, req, vals, maxTxBytes, votes, r)
  {
    hide Screened, Marked, Backers, Power, FirstPass, SecondPass, DistinctAddresses, LimitFor;
    if !Enabled(env, req.height + 1) {
      return None;
    }
    if req.height <= env.enableHeight {
      return if |votes| != 0 then None else Some([]);
    }
    if env.phuket && |vals| == 0 {
      return None;
    }
    var limit := LimitFor(env, vals, maxTxBytes);
    var seen: set<string> := {};
    var powers: map<bytes, nat> := map[];
    var valid: seq<Vote> := [];
    NothingAccumulated(env, req, vals, limit);
    assert votes[..0] == [];
    for i := 0 to |votes|
      invariant Accumulated(env, req, vals, limit, votes[..i], seen, powers, valid)
    {
      assert votes[..i + 1] == votes[..i] + [votes[i]];
      var next := JudgeVote(env, req, vals, limit, votes[..i], votes[i], seen, powers, valid);
      if next.None? {
        assert !Screened(env, req, vals, limit, votes) by {
          if Screened(env, req, vals, limit, votes) {
            ScreenedPrefixes(env, req, vals, limit, votes, i + 1);
          }
        }
        return None;
      }
      seen, powers, valid := next.value.0, next.value.1, next.value.2;
    }
    assert votes[..|votes|] == votes;
    var majority := FindMajority(powers, MajorityVP(vals));
    if majority.None? {
      assert forall h :: PowerFor(powers, h) <= MajorityVP(vals);
      return None;
    }
    assert PowerFor(powers, majority.value) > MajorityVP(vals);
    assert HasQuorum(env, req, vals, limit, votes, majority.value);
    var filtered := FilterByBlockHash(env, majority.value, valid);
    return Some(filtered);
  }
}
