/** Which votes an honest proposer passes on, said without the proposer's own case
    distinction: the two passes of the filter let through exactly the proper votes. */
module ProperVotes {
  import opened Prelude
  import opened Messages
  import opened VotingPower
  import opened VoteExtensions
  import opened ValidateVotes
  import opened FilterVotes
  import opened HonestProposer

  /** A vote every validator accepts, from a member of the set; after Phuket also of proper size
      and with the member's second signature, on the non-rp extension. */
  ghost predicate Proper(env: Env, req: Request, vals: seq<Validator>, limit: nat, v: Vote) {
    && Active(v) && VoteOk(env, req, vals, v) && InSet(env, vals, v)
    && (env.phuket ==>
          && 10 <= |v.extension| <= limit && 31 <= |v.nonRpExtension| <= 500
          && var member := Find(vals, env.addrString(v.address).value).value;
          && member.pubKey.Some? && env.verify(member.pubKey.value, v.nonRpExtension, v.nonRpSignature))
  }

  /** The first loop keeps exactly the proper votes, with their block hash. */
  lemma KeptIffProper(env: Env, req: Request, vals: seq<Validator>, limit: nat, v: Vote, h: bytes)
    ensures Judge(env, req, vals, limit, v) == Kept(h)
       <==> Proper(env, req, vals, limit, v) && Raw(BlockHashOf(env, v)) == h
  {
  }

  lemma {:induction false} RenderedAre(env: Env, req: Request, vals: seq<Validator>, limit: nat, votes: seq<Vote>, h: bytes, o: Vote)
    requires env.phuket
    ensures o in Rendered(env, req, vals, limit, votes, h)
       <==> exists i :: 0 <= i < |votes| && o in Emitted(Judge(env, req, vals, limit, votes[i]), votes[i], h)
  {
    hide Judge, Rendered, Emitted;
    if votes == [] {
      NothingRendered(env, req, vals, limit, h);
    } else {
      var init, v := votes[..|votes| - 1], votes[|votes| - 1];
      assert votes == init + [v];
      RenderedAre(env, req, vals, limit, init, h, o);
      RenderStep(env, req, vals, limit, init, v, h);
      if o in Emitted(Judge(env, req, vals, limit, v), v, h) {
        assert votes[|votes| - 1] == v;
      } else if o in Rendered(env, req, vals, limit, init, h) {
        var i :| 0 <= i < |init| && o in Emitted(Judge(env, req, vals, limit, init[i]), init[i], h);
        assert votes[i] == init[i];
      }
    }
  }

  lemma StrippedInactive(v: Vote)
    ensures !Active(Strip(v)) && Strip(Strip(v)) == Strip(v)
  {
  }

  /** Each active entry of a block is a proper vote that carries the block's majority hash, and
      each such vote is in the block unchanged. Every other committed vote leaves its
      placeholder. */
  lemma EmittedIffProper(env: Env, req: Request, vals: seq<Validator>, maxTxBytes: int, votes: seq<Vote>, out: seq<Vote>, h: bytes)
    requires env.phuket && req.height > env.enableHeight
    requires FilterOutcome(env, req, vals, maxTxBytes, votes, Some(out))
    requires HasQuorum(env, req, vals, LimitFor(env, vals, maxTxBytes), votes, h)
    ensures forall v ::
      v in out && Active(v) <==> v in votes && Proper(env, req, vals, LimitFor(env, vals, maxTxBytes), v) && Raw(BlockHashOf(env, v)) == h
    ensures forall v :: v in votes && v.flag == Commit && !(v in out && Active(v)) ==> Strip(v) in out
  {
    hide Judge, Screened, Proper, HasQuorum;
    var limit := LimitFor(env, vals, maxTxBytes);
    var g :| HasQuorum(env, req, vals, limit, votes, g) && out == Rendered(env, req, vals, limit, votes, g);
    QuorumIsUnique(env, req, vals, limit, votes, g, h);
    forall v
      ensures v in out && Active(v) <==> v in votes && Proper(env, req, vals, limit, v) && Raw(BlockHashOf(env, v)) == h
      ensures v in votes && v.flag == Commit && !(v in out && Active(v)) ==> Strip(v) in out
    {
      EmittedOne(env, req, vals, limit, votes, h, v);
    }
  }

  lemma EmittedOne(env: Env, req: Request, vals: seq<Validator>, limit: nat, votes: seq<Vote>, h: bytes, v: Vote)
    requires env.phuket && Screened(env, req, vals, limit, votes)
    ensures
      var out := Rendered(env, req, vals, limit, votes, h);
      && (v in out && Active(v) <==> v in votes && Proper(env, req, vals, limit, v) && Raw(BlockHashOf(env, v)) == h)
      && (v in votes && v.flag == Commit && !(v in out && Active(v)) ==> Strip(v) in out)
  {
    hide Judge, Proper, Rendered;
    RenderedAre(env, req, vals, limit, votes, h, v);
    RenderedAre(env, req, vals, limit, votes, h, Strip(v));
    KeptIffProper(env, req, vals, limit, v, h);
    StrippedInactive(v);
    if v in Rendered(env, req, vals, limit, votes, h) && Active(v) {
      var i :| 0 <= i < |votes| && v in Emitted(Judge(env, req, vals, limit, votes[i]), votes[i], h);
      StrippedInactive(votes[i]);
      assert votes[i] == v;
    }
    if v in votes {
      var i :| 0 <= i < |votes| && votes[i] == v;
      ProperIsActive(env, req, vals, limit, v);
      if v.flag == Commit {
        CommittedLeavesEntry(env, req, vals, limit, v, h);
      }
    }
  }

  lemma ProperIsActive(env: Env, req: Request, vals: seq<Validator>, limit: nat, v: Vote)
    ensures Proper(env, req, vals, limit, v) ==> Active(v)
  {
  }

  /** The filter finds a majority hash exactly if the members with a proper vote for it hold
      more than two thirds of all power. */
  lemma QuorumOfProperVotes(env: Env, req: Request, vals: seq<Validator>, limit: nat, votes: seq<Vote>, h: bytes, who: set<string>)
    requires forall a :: a in who <==> exists i :: 0 <= i < |votes| && Proper(env, req, vals, limit, votes[i])
                                              && Raw(BlockHashOf(env, votes[i])) == h && env.addrString(votes[i].address) == Some(a)
    ensures HasQuorum(env, req, vals, limit, votes, h) <==> 3 * Power(vals, who) > 2 * Total(vals)
  {
    hide Judge, Proper, Backers, Power, MajorityVP;
    var backers := Backers(env, req, vals, limit, votes, h);
    forall a ensures a in backers <==> a in who {
      BackersAre(env, req, vals, limit, votes, h, a);
      forall i | 0 <= i < |votes| { KeptIffProper(env, req, vals, limit, votes[i], h); }
    }
    assert backers == who;
    MajorityIsTwoThirds(vals, backers);
  }

  /** Every address converts, every member has a key, and all bytes to sign can be made. */
  ghost predicate NothingMissing(env: Env, vals: seq<Validator>) {
    && (forall a :: env.addrString(a).Some?)
    && (forall a, b :: env.addrString(a) == env.addrString(b) ==> a == b)
    && (forall v :: v in vals ==> v.pubKey.Some?)
    && (forall ext, height, round :: env.signBytes(ext, height, round).Some?)
  }

  /** What stops the filter at a single vote. */
  lemma FatalMeansMissing(env: Env, req: Request, vals: seq<Validator>, limit: nat, v: Vote)
    requires env.phuket && Judge(env, req, vals, limit, v).Fatal?
    ensures env.addrString(v.address).None?
         || (InSet(env, vals, v) && (Find(vals, env.addrString(v.address).value).value.pubKey.None?
                                     || env.signBytes(v.extension, req.height - 1, req.round).None?))
  {
  }

  lemma NeverFatal(env: Env, req: Request, vals: seq<Validator>, limit: nat, v: Vote)
    requires env.phuket && NothingMissing(env, vals)
    ensures !Judge(env, req, vals, limit, v).Fatal?
  {
    hide Judge;
    if Judge(env, req, vals, limit, v).Fatal? {
      FatalMeansMissing(env, req, vals, limit, v);
      FindIsMember(vals, env.addrString(v.address).value);
      assert false;
    }
  }

  /** No vote, however malformed, can keep an honest proposer from building its block: with one
      vote for each address the filter fails only if no block hash has a majority. */
  lemma FilterFailsOnlyWithoutQuorum(env: Env, req: Request, vals: seq<Validator>, maxTxBytes: int, votes: seq<Vote>)
    requires env.phuket && NothingMissing(env, vals) && DistinctRaw(votes)
    requires Enabled(env, req.height + 1) && req.height > env.enableHeight && |vals| > 0
    requires FilterOutcome(env, req, vals, maxTxBytes, votes, None)
    ensures forall h :: !HasQuorum(env, req, vals, LimitFor(env, vals, maxTxBytes), votes, h)
  {
    hide Judge, HasQuorum, LimitFor;
    var limit := LimitFor(env, vals, maxTxBytes);
    assert Screened(env, req, vals, limit, votes) by {
      forall i | 0 <= i < |votes| ensures !Judge(env, req, vals, limit, votes[i]).Fatal? {
        NeverFatal(env, req, vals, limit, votes[i]);
      }
    }
  }

  /** The share of a validator is the largest for which all of them, with the reserve, fit into
      half of the block; the limit is that share, kept between the least and the greatest. */
  lemma ShareIsLargest(maxTxBytes: nat, n: nat)
    requires n > 0
    ensures
      var size := CalculatedSize(maxTxBytes, n);
      && 2 * n * (size + 500) <= maxTxBytes < 2 * n * (size + 501)
      && SizeLimit(maxTxBytes, n) == (if size < 31 then 31 else if size > 10240 then 10240 else size)
  {
    var per := maxTxBytes / n;
    var half := per / 2;
    assert n * per <= maxTxBytes < n * (per + 1);
    assert 2 * half <= per < 2 * half + 2;
    assert CalculatedSize(maxTxBytes, n) == half - 500;
    TimesMonotone(n, 2 * half, per);
    TimesMonotone(n, per + 1, 2 * half + 2);
    Regroup(n, half);
    Regroup(n, half + 1);
  }

  lemma TimesMonotone(n: nat, a: nat, b: nat)
    requires a <= b
    ensures n * a <= n * b
  {
  }

  lemma Regroup(n: nat, x: nat)
    ensures n * (2 * x) == 2 * n * x
  {
  }

  /** Whom the filter records as seen, so that a second such vote stops it: whoever's vote is
      committed, of proper size and well made, whether or not it is then kept. */
  lemma SeenIff(env: Env, req: Request, vals: seq<Validator>, limit: nat, v: Vote)
    requires !Judge(env, req, vals, limit, v).Fatal?
    ensures Judge(env, req, vals, limit, v).Marks() <==>
      && v.flag == Commit && env.knownFields(v.extension) && ContentOk(env, req, v)
      && (env.phuket ==> 10 <= |v.extension| <= limit && 31 <= |v.nonRpExtension| <= 500)
  {
  }

  /** Which votes leave no entry in the first loop: after Phuket those not committed, as far as
      their flag is looked at. */
  lemma LeavesNothingIff(env: Env, req: Request, vals: seq<Validator>, limit: nat, v: Vote)
    requires env.phuket && !Judge(env, req, vals, limit, v).Fatal?
    ensures FirstEmit(Judge(env, req, vals, limit, v), v) == [] <==>
      v.flag != Commit && env.knownFields(v.extension) && 10 <= |v.extension| <= limit && 31 <= |v.nonRpExtension| <= 500
  {
  }
}
