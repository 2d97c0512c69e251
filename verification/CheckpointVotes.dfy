/** How PreBlocker ties the execution of a checkpoint tx to the signatures gathered for
    it: the majority non-rp extension, the tx it belongs to, the stored signatures and
    the post handlers that run. */
module CheckpointVotes {
  import opened Prelude
  import opened Messages
  import opened VotingPower
  import opened VoteExtensions
  import opened ValidateVotes
  import opened TallyVotes
  import opened ByteOrder
  import opened SideTxVerdicts

  /** A message of a tx: whether it is a MsgCheckpoint, the bytes it signs, and
      whether its module registered a side handler and a post handler. */
  datatype Msg = Msg(isCheckpoint: bool, signBytes: bytes, hasSideHandler: bool, hasPostHandler: bool)

  /** Codec and hashes, as deterministic functions. */
  datatype TxEnv = TxEnv(
    decodeTx: bytes -> Option<seq<Msg>>,
    txHash: bytes -> bytes,
    keccak: bytes -> bytes)

  ghost predicate Injective(f: bytes -> bytes) {
    forall x, y :: f(x) == f(y) ==> x == y
  }

  // ----- the majority non-rp extension -----

  function MemberPower(env: Env, vals: seq<Validator>, v: Vote): nat {
    if InSet(env, vals, v) then Find(vals, env.addrString(v.address).value).value.power else 0
  }

  /** Power behind one extension, counted once per vote. */
  ghost function Backing(env: Env, vals: seq<Validator>, votes: seq<Vote>, ext: bytes): nat {
    if votes == [] then 0
    else
      var v := votes[|votes| - 1];
      Backing(env, vals, votes[..|votes| - 1], ext)
      + if Active(v) && v.nonRpExtension == ext then MemberPower(env, vals, v) else 0
  }

  /** With distinct voters this is the power of the voters who sent the extension. */
  lemma {:induction false} BackingIsPower(env: Env, vals: seq<Validator>, votes: seq<Vote>, ext: bytes)
    requires DistinctAddresses(vals) && DistinctVoters(env, votes)
    requires forall v :: v in votes && Active(v) ==> env.addrString(v.address).Some?
    ensures Backing(env, vals, votes, ext) == Power(vals, Voters(env, votes, SignedNonRp(ext)))
  {
    if votes == [] {
      PowerEmpty(vals);
    } else {
      var init, v := votes[..|votes| - 1], votes[|votes| - 1];
      assert votes == init + [v];
      BackingIsPower(env, vals, init, ext);
      if Meets(env, SignedNonRp(ext), v) && InSet(env, vals, v) {
        var a := env.addrString(v.address).value;
        VotersAre(env, init, SignedNonRp(ext), a);
        PowerMoved(env, vals, init, v, SignedNonRp(ext));
      } else {
        PowerUnmoved(env, vals, init, v, SignedNonRp(ext));
      }
    }
  }

  ghost predicate Scannable(env: Env, vals: seq<Validator>, votes: seq<Vote>) {
    forall i :: 0 <= i < |votes| ==> Resolves(env, vals, votes[i])
  }

  predicate Resolves(env: Env, vals: seq<Validator>, v: Vote) {
    Active(v) ==> env.addrString(v.address).Some? && (env.missingIsError ==> InSet(env, vals, v))
  }

  ghost predicate Sent(votes: seq<Vote>, ext: bytes) {
    exists i :: 0 <= i < |votes| && Active(votes[i]) && votes[i].nonRpExtension == ext
  }

  /** The two maps of the scan: hash to extension, and hash to power. */
  ghost predicate Scanned(env: Env, t: TxEnv, vals: seq<Validator>, votes: seq<Vote>,
                          exts: map<bytes, bytes>, powers: map<bytes, nat>) {
    && exts.Keys == powers.Keys
    && (forall h :: h in exts ==> t.keccak(exts[h]) == h && powers[h] == Backing(env, vals, votes, exts[h]))
    && (forall e :: Sent(votes, e) ==> t.keccak(e) in exts)
    && (forall e :: !Sent(votes, e) ==> Backing(env, vals, votes, e) == 0)
    && (forall h :: h in exts ==> Sent(votes, exts[h]))
  }

  lemma ScannedNothing(env: Env, t: TxEnv, vals: seq<Validator>)
    ensures Scanned(env, t, vals, [], map[], map[])
  {
  }

  lemma BackingOneMore(env: Env, vals: seq<Validator>, votes: seq<Vote>, v: Vote, e: bytes)
    ensures Backing(env, vals, votes + [v], e)
         == Backing(env, vals, votes, e) + if Active(v) && v.nonRpExtension == e then MemberPower(env, vals, v) else 0
    ensures Sent(votes + [v], e) <==> Sent(votes, e) || (Active(v) && v.nonRpExtension == e)
  {
    var all := votes + [v];
    assert all[..|votes|] == votes && all[|votes|] == v;
    assert forall i :: 0 <= i < |votes| ==> all[i] == votes[i];
    if Sent(votes, e) {
      var i :| 0 <= i < |votes| && Active(votes[i]) && votes[i].nonRpExtension == e;
      assert all[i] == votes[i];
    }
  }

  lemma ScannedOneMore(env: Env, t: TxEnv, vals: seq<Validator>, votes: seq<Vote>, v: Vote,
                       exts: map<bytes, bytes>, powers: map<bytes, nat>)
    requires Injective(t.keccak) && Scanned(env, t, vals, votes, exts, powers)
    ensures !Active(v) ==> Scanned(env, t, vals, votes + [v], exts, powers)
    ensures Active(v) ==>
      var h := t.keccak(v.nonRpExtension);
      Scanned(env, t, vals, votes + [v], exts[h := v.nonRpExtension],
              powers[h := (if h in powers then powers[h] else 0) + MemberPower(env, vals, v)])
  {
    hide Backing, Sent, MemberPower;
    forall e { BackingOneMore(env, vals, votes, v, e); }
    if Active(v) {
      var h := t.keccak(v.nonRpExtension);
      assert h in exts ==> exts[h] == v.nonRpExtension;
      assert h !in exts ==> !Sent(votes, v.nonRpExtension);
    }
  }

  ghost predicate HasMajority(env: Env, vals: seq<Validator>, votes: seq<Vote>, ext: bytes) {
    Backing(env, vals, votes, ext) > MajorityVP(vals)
  }

  /** The extension PreBlocker goes by: the best-backed one, of several the one with the least
      hash, and after Phuket only if more than two thirds back it. */
  ghost predicate MajorityIs(env: Env, t: TxEnv, vals: seq<Validator>, votes: seq<Vote>, majority: Option<bytes>) {
    && (majority.None? <==> !Scannable(env, vals, votes) || (env.phuket && forall e :: !HasMajority(env, vals, votes, e)))
    && (majority.Some? ==> Leads(env, t, vals, votes, majority.value))
    && (majority.Some? && env.phuket ==> HasMajority(env, vals, votes, majority.value))
  }

  /** Nobody's power stands behind any extension and this one is empty, or this one comes first
      among those with the most power behind them. */
  ghost predicate Leads(env: Env, t: TxEnv, vals: seq<Validator>, votes: seq<Vote>, ext: bytes) {
    && (forall e :: Backing(env, vals, votes, e) <= Backing(env, vals, votes, ext))
    && (if Backing(env, vals, votes, ext) == 0 then ext == []
        else forall e :: Backing(env, vals, votes, e) == Backing(env, vals, votes, ext) ==> LexLe(t.keccak(ext), t.keccak(e)))
  }

  lemma LeaderIsUnique(env: Env, t: TxEnv, vals: seq<Validator>, votes: seq<Vote>, x: bytes, y: bytes)
    requires Injective(t.keccak) && Leads(env, t, vals, votes, x) && Leads(env, t, vals, votes, y)
    ensures x == y
  {
    hide Backing, LexLe;
    LexTotal(t.keccak(x), t.keccak(y));
  }

  /** The largest entry of the power map, of several the one with the least key. */
  method Heaviest(powers: map<bytes, nat>) returns (best: Option<bytes>, power: nat)
    ensures best.None? ==> power == 0 && forall h :: h in powers ==> powers[h] == 0
    ensures best.Some? ==> best.value in powers && powers[best.value] == power > 0
    ensures forall h :: h in powers ==> powers[h] <= power
    ensures best.Some? ==> forall h :: h in powers && powers[h] == power ==> LexLe(best.value, h)
  {
    hide LexLe;
    var keys := SortKeys(powers.Keys);
    assert forall k :: k in keys <==> k in powers;
    best, power := None, 0;
    ghost var at := 0;
    for i := 0 to |keys|
      invariant best.None? ==> power == 0
      invariant best.Some? ==> 0 <= at < i && best.value == keys[at] && best.value in powers && powers[best.value] == power > 0
      invariant forall k :: 0 <= k < i ==> powers[keys[k]] <= power && (k < at && best.Some? ==> powers[keys[k]] < power)
    {
      assert keys[i] in keys;
      if powers[keys[i]] > power {
        best, power, at := Some(keys[i]), powers[keys[i]], i;
      }
    }
    if best.Some? {
      forall h | h in powers && powers[h] == power ensures LexLe(best.value, h) {
        var k :| 0 <= k < |keys| && keys[k] == h;
        LexTotal(h, h);
      }
    }
  }

  /** getMajorityNonRpVoteExtension: the best-backed extension; after Phuket only one
      backed by more than two thirds will do. */
  method MajorityNonRp(env: Env, t: TxEnv, vals: seq<Validator>, votes: seq<Vote>) returns (r: Option<bytes>)
    requires Injective(t.keccak)
    ensures MajorityIs(env, t, vals, votes, r)
  {
    var exts: map<bytes, bytes> := map[];
    var powers: map<bytes, nat> := map[];
    hide Scanned, MemberPower, Backing, HasMajority, Injective;
    ScannedNothing(env, t, vals);
    assert votes[..0] == [];
    for i := 0 to |votes|
      invariant forall k :: 0 <= k < i ==> Resolves(env, vals, votes[k])
      invariant Scanned(env, t, vals, votes[..i], exts, powers)
    {
      var v := votes[i];
      assert votes[..i + 1] == votes[..i] + [v];
      ScannedOneMore(env, t, vals, votes[..i], v, exts, powers);
      if IsFilteredPlaceholder(v) || v.flag != Commit {
        continue;
      }
      var h := t.keccak(v.nonRpExtension);
      exts := exts[h := v.nonRpExtension];
      if !Resolves(env, vals, v) {
        return None;
      }
      powers := powers[h := (if h in powers then powers[h] else 0) + MemberPower(env, vals, v)];
    }
    assert votes[..|votes|] == votes;
    r := PickHeaviest(env, t, vals, votes, exts, powers);
  }

  method PickHeaviest(env: Env, t: TxEnv, vals: seq<Validator>, ghost votes: seq<Vote>,
                      exts: map<bytes, bytes>, powers: map<bytes, nat>)
    returns (r: Option<bytes>)
    requires Injective(t.keccak) && Scanned(env, t, vals, votes, exts, powers)
    ensures r.None? <==> env.phuket && forall e :: !HasMajority(env, vals, votes, e)
    ensures r.Some? ==> Leads(env, t, vals, votes, r.value)
    ensures r.Some? && env.phuket ==> HasMajority(env, vals, votes, r.value)
  {
    hide Backing, Sent, LexLe;
    var best, power := Heaviest(powers);
    forall e ensures Backing(env, vals, votes, e) <= power
             ensures best.Some? && Backing(env, vals, votes, e) == power ==> LexLe(best.value, t.keccak(e))
    {
      if Sent(votes, e) {
        assert t.keccak(e) in exts && exts[t.keccak(e)] == e;
      }
    }
    if env.phuket && power <= MajorityVP(vals) {
      return None;
    }
    var winner := if best.Some? then exts[best.value] else [];
    assert env.phuket ==> HasMajority(env, vals, votes, winner);
    return Some(winner);
  }

  // ----- the checkpoint tx and its signatures -----

  ghost predicate Carries(t: TxEnv, rawTx: bytes, signBytes: bytes) {
    && t.decodeTx(rawTx).Some?
    && exists k :: 0 <= k < |t.decodeTx(rawTx).value| && IsCheckpointFor(t.decodeTx(rawTx).value[k], signBytes)
  }

  predicate IsCheckpointFor(m: Msg, signBytes: bytes) {
    m.isCheckpoint && m.signBytes == signBytes
  }

  ghost predicate FirstCarrier(t: TxEnv, txs: seq<bytes>, signBytes: bytes, hash: Option<bytes>) {
    if hash.None? then forall i :: 0 <= i < |txs| ==> !Carries(t, txs[i], signBytes)
    else exists i :: 0 <= i < |txs| && Carries(t, txs[i], signBytes) && hash.value == t.txHash(txs[i])
                  && forall j :: 0 <= j < i ==> !Carries(t, txs[j], signBytes)
  }

  /** findCheckpointTx: the hash of the first tx that carries the sign bytes. */
  method FindCheckpointTx(t: TxEnv, txs: seq<bytes>, signBytes: bytes) returns (hash: Option<bytes>)
    ensures FirstCarrier(t, txs, signBytes, hash)
  {
    for i := 0 to |txs|
      invariant forall j :: 0 <= j < i ==> !Carries(t, txs[j], signBytes)
    {
      var decoded := t.decodeTx(txs[i]);
      if decoded.None? {
        continue;
      }
      for k := 0 to |decoded.value|
        invariant forall l :: 0 <= l < k ==> !IsCheckpointFor(decoded.value[l], signBytes)
      {
        if IsCheckpointFor(decoded.value[k], signBytes) {
          return Some(t.txHash(txs[i]));
        }
      }
    }
    return None;
  }

  datatype Signature = Signature(address: bytes, signature: bytes)

  predicate Signs(zurich: bool, ext: bytes, v: Vote) {
    (zurich ==> v.flag == Commit) && v.nonRpExtension == ext
  }

  /** getCheckpointSignatures: one entry per vote carrying the extension, in order. */
  function SignaturesOn(zurich: bool, ext: bytes, votes: seq<Vote>): seq<Signature> {
    if votes == [] then []
    else
      var v := votes[|votes| - 1];
      SignaturesOn(zurich, ext, votes[..|votes| - 1])
      + if Signs(zurich, ext, v) then [Signature(v.address, v.nonRpSignature)] else []
  }

  method GetCheckpointSignatures(zurich: bool, ext: bytes, votes: seq<Vote>) returns (sigs: seq<Signature>)
    ensures sigs == SignaturesOn(zurich, ext, votes)
  {
    sigs := [];
    for i := 0 to |votes|
      invariant sigs == SignaturesOn(zurich, ext, votes[..i])
    {
      assert votes[..i + 1][..i] == votes[..i] && votes[..i + 1][i] == votes[i];
      if zurich && votes[i].flag != Commit {
        continue;
      }
      if votes[i].nonRpExtension == ext {
        sigs := sigs + [Signature(votes[i].address, votes[i].nonRpSignature)];
      }
    }
    assert votes[..|votes|] == votes;
  }

  lemma {:induction false} SignaturesAre(zurich: bool, ext: bytes, votes: seq<Vote>, s: Signature)
    ensures s in SignaturesOn(zurich, ext, votes)
       <==> exists i :: 0 <= i < |votes| && Signs(zurich, ext, votes[i]) && s == Signature(votes[i].address, votes[i].nonRpSignature)
  {
    if votes != [] {
      SignaturesAre(zurich, ext, votes[..|votes| - 1], s);
    }
  }

  /** Addresses that appear among the stored signatures. */
  ghost function Signers(env: Env, sigs: seq<Signature>): set<string> {
    set i | 0 <= i < |sigs| && env.addrString(sigs[i].address).Some? :: env.addrString(sigs[i].address).value
  }

  lemma VotersAreSigners(env: Env, zurich: bool, ext: bytes, votes: seq<Vote>)
    ensures Voters(env, votes, SignedNonRp(ext)) <= Signers(env, SignaturesOn(zurich, ext, votes))
  {
    var sigs := SignaturesOn(zurich, ext, votes);
    forall a | a in Voters(env, votes, SignedNonRp(ext)) ensures a in Signers(env, sigs) {
      VotersAre(env, votes, SignedNonRp(ext), a);
      var i :| 0 <= i < |votes| && Meets(env, SignedNonRp(ext), votes[i]) && env.addrString(votes[i].address) == Some(a);
      var s := Signature(votes[i].address, votes[i].nonRpSignature);
      SignaturesAre(zurich, ext, votes, s);
      var k :| 0 <= k < |sigs| && sigs[k] == s;
    }
  }

  // ----- execution -----

  /** The message of an approved tx whose post handler runs: the first that has one and
      is not a checkpoint message other than the signed one. */
  function FirstHandled(msgs: seq<Msg>, skipCheckpoints: bool): Option<nat>
    ensures FirstHandled(msgs, skipCheckpoints).Some? ==>
      var k := FirstHandled(msgs, skipCheckpoints).value;
      k < |msgs| && msgs[k].hasPostHandler && !(msgs[k].isCheckpoint && skipCheckpoints)
  {
    if msgs == [] then None
    else if !(msgs[0].isCheckpoint && skipCheckpoints) && msgs[0].hasPostHandler then Some(0)
    else match FirstHandled(msgs[1..], skipCheckpoints)
      case None => None
      case Some(k) => Some(k + 1)
  }

  datatype Handled = Handled(tx: nat, msg: nat)

  /** The post handlers run for a block's txs, in order. */
  function HandledIn(t: TxEnv, txs: seq<bytes>, approved: set<bytes>, checkpoint: Option<bytes>): seq<Handled> {
    if txs == [] then []
    else
      var i := |txs| - 1;
      var hash := t.txHash(txs[i]);
      HandledIn(t, txs[..i], approved, checkpoint)
      + if hash !in approved || t.decodeTx(txs[i]).None? then []
        else match FirstHandled(t.decodeTx(txs[i]).value, checkpoint != Some(hash))
          case None => []
          case Some(k) => [Handled(i, k)]
  }

  lemma {:induction false} HandledAre(t: TxEnv, txs: seq<bytes>, approved: set<bytes>, checkpoint: Option<bytes>, e: Handled)
    requires e in HandledIn(t, txs, approved, checkpoint)
    ensures e.tx < |txs| && t.txHash(txs[e.tx]) in approved && t.decodeTx(txs[e.tx]).Some?
    ensures FirstHandled(t.decodeTx(txs[e.tx]).value, checkpoint != Some(t.txHash(txs[e.tx]))) == Some(e.msg)
  {
    var i := |txs| - 1;
    if e in HandledIn(t, txs[..i], approved, checkpoint) {
      HandledAre(t, txs[..i], approved, checkpoint, e);
    }
  }

  datatype Stored = Stored(txHash: bytes, ext: bytes, signatures: seq<Signature>)

  datatype Outcome = Outcome(stored: Option<Stored>, handled: seq<Handled>)

  /** The walk over one tx's messages. */
  method RunPostHandler(msgs: seq<Msg>, skipCheckpoints: bool) returns (ran: Option<nat>)
    ensures ran == FirstHandled(msgs, skipCheckpoints)
  {
    for k := 0 to |msgs|
      invariant FirstHandled(msgs, skipCheckpoints)
             == match FirstHandled(msgs[k..], skipCheckpoints) case None => None case Some(l) => Some(k + l)
    {
      assert msgs[k..][1..] == msgs[k + 1..];
      if msgs[k].isCheckpoint && skipCheckpoints {
        continue;
      }
      if msgs[k].hasPostHandler {
        return Some(k);
      }
    }
    return None;
  }

  /** The execution loop; an undecodable tx is an error. */
  method RunPostHandlers(t: TxEnv, txs: seq<bytes>, approved: set<bytes>, checkpoint: Option<bytes>)
    returns (r: Option<seq<Handled>>)
    ensures r.Some? <==> Decodable(t, txs)
    ensures r.Some? ==> r.value == HandledIn(t, txs, approved, checkpoint)
  {
    hide FirstHandled;
    var handled: seq<Handled> := [];
    for i := 0 to |txs|
      invariant handled == HandledIn(t, txs[..i], approved, checkpoint)
      invariant forall j :: 0 <= j < i ==> t.decodeTx(txs[j]).Some?
    {
      assert txs[..i + 1][..i] == txs[..i] && txs[..i + 1][i] == txs[i];
      var decoded := t.decodeTx(txs[i]);
      if decoded.None? {
        return None;
      }
      var hash := t.txHash(txs[i]);
      if hash in approved {
        var ran := RunPostHandler(decoded.value, checkpoint != Some(hash));
        if ran.Some? {
          handled := handled + [Handled(i, ran.value)];
        }
      }
    }
    assert txs[..|txs|] == txs;
    return Some(handled);
  }

  /** The tx the majority extension was made for, if the block holds it. */
  ghost predicate CheckpointIs(t: TxEnv, txs: seq<bytes>, majority: Option<bytes>, checkpoint: Option<bytes>) {
    if majority.None? || |majority.value| < 2 then checkpoint.None?
    else FirstCarrier(t, txs, majority.value[1..], checkpoint)
  }

  /** The signatures stored in a block: those on the majority extension, once its tx has
      been approved. */
  function SignaturesStored(zurich: bool, votes: seq<Vote>, approved: set<bytes>, majority: Option<bytes>, checkpoint: Option<bytes>): Option<Stored> {
    if majority.Some? && checkpoint.Some? && checkpoint.value in approved
    then Some(Stored(checkpoint.value, majority.value, SignaturesOn(zurich, majority.value, votes)))
    else None
  }

  ghost predicate Decodable(t: TxEnv, txs: seq<bytes>) {
    forall i :: 0 <= i < |txs| ==> t.decodeTx(txs[i]).Some?
  }

  /** What PreBlocker does after the tally. */
  ghost predicate Executes(env: Env, t: TxEnv, vals: seq<Validator>, zurich: bool, votes: seq<Vote>,
                           approved: set<bytes>, txs: seq<bytes>, out: Outcome) {
    exists majority, checkpoint ::
      && MajorityIs(env, t, vals, votes, majority)
      && CheckpointIs(t, txs, majority, checkpoint)
      && out.stored == SignaturesStored(zurich, votes, approved, majority, checkpoint)
      && out.handled == HandledIn(t, txs, approved, checkpoint)
  }

  /** The part of PreBlocker behind the tally; None stands for an error. */
  method ExecuteSideTxs(env: Env, t: TxEnv, vals: seq<Validator>, zurich: bool, votes: seq<Vote>,
                        approved: set<bytes>, txs: seq<bytes>)
    returns (r: Option<Outcome>)
    requires Injective(t.keccak)
    ensures r.Some? <==> Decodable(t, txs) && (env.phuket || Scannable(env, vals, votes))
    ensures r.Some? ==> Executes(env, t, vals, zurich, votes, approved, txs, r.value)
  {
    hide Injective, HasMajority, Backing, HandledIn, SignaturesOn, FirstCarrier, Scannable;
    var checkpoint: Option<bytes> := None;
    var stored: Option<Stored> := None;
    var majority := MajorityNonRp(env, t, vals, votes);
    if majority.None? {
      if !env.phuket {
        return None;
      }
    } else if |majority.value| >= 2 {
      checkpoint := FindCheckpointTx(t, txs, majority.value[1..]);
      if checkpoint.Some? && checkpoint.value in approved {
        var sigs := GetCheckpointSignatures(zurich, majority.value, votes);
        stored := Some(Stored(checkpoint.value, majority.value, sigs));
      }
    }
    assert CheckpointIs(t, txs, majority, checkpoint);
    assert stored == SignaturesStored(zurich, votes, approved, majority, checkpoint);
    var handled := RunPostHandlers(t, txs, approved, checkpoint);
    if handled.None? {
      return None;
    }
    return Some(Outcome(stored, handled.value));
  }

  // ----- the tie -----

  ghost predicate DistinctHashes(t: TxEnv, txs: seq<bytes>) {
    forall i, j :: 0 <= i < j < |txs| ==> t.txHash(txs[i]) != t.txHash(txs[j])
  }

  ghost predicate IsCheckpointRun(t: TxEnv, txs: seq<bytes>, e: Handled) {
    && e.tx < |txs|
    && t.decodeTx(txs[e.tx]).Some?
    && e.msg < |t.decodeTx(txs[e.tx]).value|
    && t.decodeTx(txs[e.tx]).value[e.msg].isCheckpoint
  }

  /** A block holds at most one side message per tx, and checkpoints are side messages. */
  ghost predicate OneCheckpointPerTx(t: TxEnv, txs: seq<bytes>) {
    forall i, k, l :: 0 <= i < |txs| && t.decodeTx(txs[i]).Some? && 0 <= k < l < |t.decodeTx(txs[i]).value| ==>
      !(t.decodeTx(txs[i]).value[k].isCheckpoint && t.decodeTx(txs[i]).value[l].isCheckpoint)
  }

  lemma HandledOnce(t: TxEnv, txs: seq<bytes>, approved: set<bytes>, checkpoint: Option<bytes>, e: Handled, e': Handled)
    requires DistinctHashes(t, txs)
    requires e in HandledIn(t, txs, approved, checkpoint) && e' in HandledIn(t, txs, approved, checkpoint)
    requires IsCheckpointRun(t, txs, e) && IsCheckpointRun(t, txs, e')
    ensures checkpoint == Some(t.txHash(txs[e.tx])) && e == e'
  {
    HandledAre(t, txs, approved, checkpoint, e);
    HandledAre(t, txs, approved, checkpoint, e');
  }

  ghost function ApprovedSet(tally: Tally): set<bytes> {
    set tx | tx in tally.approved
  }

  /** On accepted votes, after Zurich: at most one checkpoint message is post-handled in
      a block. If one is, its tx was approved by more than two thirds, and the same run
      stored a signature set whose signers hold more than two thirds of the power on an
      extension whose tail is what that message signs. */
  lemma CheckpointTiedToSignatures(env: Env, req: Request, t: TxEnv, vals: seq<Validator>, votes: seq<Vote>,
                                   tally: Tally, txs: seq<bytes>, out: Outcome, e: Handled)
    requires DistinctAddresses(vals) && env.phuket && req.height > env.enableHeight
    requires Accepts(env, req, vals, votes) && DecidesAll(env, vals, votes, tally)
    requires DistinctHashes(t, txs) && OneCheckpointPerTx(t, txs)
    requires Executes(env, t, vals, true, votes, ApprovedSet(tally), txs, out)
    requires e in out.handled && IsCheckpointRun(t, txs, e)
    ensures VerdictOn(env, vals, votes, t.txHash(txs[e.tx])) == Approved
    ensures out.stored.Some? && out.stored.value.txHash == t.txHash(txs[e.tx])
    ensures out.stored.value.ext[1..] == t.decodeTx(txs[e.tx]).value[e.msg].signBytes
    ensures Power(vals, Signers(env, out.stored.value.signatures)) > MajorityVP(vals)
    ensures forall e' :: e' in out.handled && IsCheckpointRun(t, txs, e') ==> e' == e
  {
    hide Accepts, Voted, Voters, Power, Backing, HandledIn, FirstCarrier;
    var approved := ApprovedSet(tally);
    var majority, checkpoint :|
      && MajorityIs(env, t, vals, votes, majority) && CheckpointIs(t, txs, majority, checkpoint)
      && out.stored == SignaturesStored(true, votes, approved, majority, checkpoint)
      && out.handled == HandledIn(t, txs, approved, checkpoint);
    HandledAre(t, txs, approved, checkpoint, e);
    HandledOnce(t, txs, approved, checkpoint, e, e);
    forall e' | e' in out.handled && IsCheckpointRun(t, txs, e') ensures e' == e {
      HandledOnce(t, txs, approved, checkpoint, e, e');
    }
    SignersHoldMajority(env, req, vals, votes, majority.value);
    TailIsSigned(t, txs, majority.value[1..], e);
  }

  lemma TailIsSigned(t: TxEnv, txs: seq<bytes>, signBytes: bytes, e: Handled)
    requires DistinctHashes(t, txs) && OneCheckpointPerTx(t, txs)
    requires IsCheckpointRun(t, txs, e) && FirstCarrier(t, txs, signBytes, Some(t.txHash(txs[e.tx])))
    ensures signBytes == t.decodeTx(txs[e.tx]).value[e.msg].signBytes
  {
    var i :| 0 <= i < |txs| && Carries(t, txs[i], signBytes) && t.txHash(txs[i]) == t.txHash(txs[e.tx]);
    assert i == e.tx;
    var msgs := t.decodeTx(txs[i]).value;
    var k :| 0 <= k < |msgs| && IsCheckpointFor(msgs[k], signBytes);
    assert k == e.msg;
  }

  lemma SignersHoldMajority(env: Env, req: Request, vals: seq<Validator>, votes: seq<Vote>, ext: bytes)
    requires DistinctAddresses(vals) && req.height > env.enableHeight
    requires Accepts(env, req, vals, votes) && HasMajority(env, vals, votes, ext)
    ensures Power(vals, Signers(env, SignaturesOn(true, ext, votes))) > MajorityVP(vals)
  {
    forall v | v in votes && Active(v) ensures env.addrString(v.address).Some? {
      var i :| 0 <= i < |votes| && votes[i] == v;
      assert VoteOk(env, req, vals, votes[i]);
    }
    BackingIsPower(env, vals, votes, ext);
    VotersAreSigners(env, true, ext, votes);
    PowerMonotone(vals, Voters(env, votes, SignedNonRp(ext)), Signers(env, SignaturesOn(true, ext, votes)));
  }

  /** On accepted votes no two extensions have a majority. */
  lemma MajorityIsUnique(env: Env, req: Request, vals: seq<Validator>, votes: seq<Vote>, x: bytes, y: bytes)
    requires DistinctAddresses(vals) && req.height > env.enableHeight && Accepts(env, req, vals, votes)
    requires HasMajority(env, vals, votes, x) && HasMajority(env, vals, votes, y)
    ensures x == y
  {
    hide Voters, Power, Backing;
    if x != y {
      forall v | v in votes && Active(v) ensures env.addrString(v.address).Some? {
        var i :| 0 <= i < |votes| && votes[i] == v;
        assert VoteOk(env, req, vals, votes[i]);
      }
      BackingIsPower(env, vals, votes, x);
      BackingIsPower(env, vals, votes, y);
      ExclusiveCriteria(env, votes, SignedNonRp(x), SignedNonRp(y));
      DisjointQuorums(vals, Voters(env, votes, SignedNonRp(x)), Voters(env, votes, SignedNonRp(y)));
      assert false;
    }
  }

  lemma FirstCarrierIsUnique(t: TxEnv, txs: seq<bytes>, signBytes: bytes, a: Option<bytes>, b: Option<bytes>)
    requires FirstCarrier(t, txs, signBytes, a) && FirstCarrier(t, txs, signBytes, b)
    ensures a == b
  {
    hide Carries;
  }

  /** Every validator that processes a block stores the same signatures and runs the same post
      handlers, although the maps are filled and walked in any order. */
  lemma ExecutionIsDeterministic(env: Env, t: TxEnv, vals: seq<Validator>, zurich: bool, votes: seq<Vote>,
                                 approved: set<bytes>, txs: seq<bytes>, out: Outcome, out': Outcome)
    requires Injective(t.keccak)
    requires Executes(env, t, vals, zurich, votes, approved, txs, out)
    requires Executes(env, t, vals, zurich, votes, approved, txs, out')
    ensures out == out'
  {
    hide HasMajority, HandledIn, SignaturesOn, FirstCarrier, Leads, Scannable;
    var m, c :| MajorityIs(env, t, vals, votes, m) && CheckpointIs(t, txs, m, c)
      && out.stored == SignaturesStored(zurich, votes, approved, m, c) && out.handled == HandledIn(t, txs, approved, c);
    var m', c' :| MajorityIs(env, t, vals, votes, m') && CheckpointIs(t, txs, m', c')
      && out'.stored == SignaturesStored(zurich, votes, approved, m', c') && out'.handled == HandledIn(t, txs, approved, c');
    if m.Some? && m'.Some? {
      LeaderIsUnique(env, t, vals, votes, m.value, m'.value);
    }
    if m.Some? && |m.value| >= 2 {
      FirstCarrierIsUnique(t, txs, m.value[1..], c, c');
    }
  }

  // ----- what runs -----

  /** The handler that runs is the first that may, and none runs only if none may. */
  lemma {:induction false} FirstHandledIsFirst(msgs: seq<Msg>, skipCheckpoints: bool, k: nat)
    requires k < |msgs| && msgs[k].hasPostHandler && (msgs[k].isCheckpoint ==> !skipCheckpoints)
    ensures FirstHandled(msgs, skipCheckpoints).Some? && FirstHandled(msgs, skipCheckpoints).value <= k
  {
    if k > 0 { FirstHandledIsFirst(msgs[1..], skipCheckpoints, k - 1); }
  }

  /** A message whose post handler may run: it has one, and it is no checkpoint message
      except in the tx the signatures belong to. */
  predicate MayRun(t: TxEnv, txs: seq<bytes>, checkpoint: Option<bytes>, i: nat, k: nat)
    requires i < |txs| && t.decodeTx(txs[i]).Some? && k < |t.decodeTx(txs[i]).value|
  {
    var m := t.decodeTx(txs[i]).value[k];
    m.hasPostHandler && (m.isCheckpoint ==> checkpoint == Some(t.txHash(txs[i])))
  }

  lemma {:induction false} ApprovedRuns(t: TxEnv, txs: seq<bytes>, approved: set<bytes>, checkpoint: Option<bytes>, i: nat, k: nat)
    requires i < |txs| && t.txHash(txs[i]) in approved && t.decodeTx(txs[i]).Some? && k < |t.decodeTx(txs[i]).value|
    requires MayRun(t, txs, checkpoint, i, k)
    ensures exists n :: 0 <= n <= k && Handled(i, n) in HandledIn(t, txs, approved, checkpoint)
  {
    if i == |txs| - 1 {
      var msgs := t.decodeTx(txs[i]).value;
      FirstHandledIsFirst(msgs, checkpoint != Some(t.txHash(txs[i])), k);
      var n := FirstHandled(msgs, checkpoint != Some(t.txHash(txs[i]))).value;
      assert Handled(i, n) in HandledIn(t, txs, approved, checkpoint);
    } else {
      ApprovedRuns(t, txs[..|txs| - 1], approved, checkpoint, i, k);
    }
  }

  /** Exactly which handlers run: in every approved tx that decodes, the first that may. */
  lemma {:induction false} HandledIff(t: TxEnv, txs: seq<bytes>, approved: set<bytes>, checkpoint: Option<bytes>, i: nat, k: nat)
    requires i < |txs| && t.decodeTx(txs[i]).Some? && k < |t.decodeTx(txs[i]).value|
    ensures Handled(i, k) in HandledIn(t, txs, approved, checkpoint) <==>
      && t.txHash(txs[i]) in approved && MayRun(t, txs, checkpoint, i, k)
      && forall j :: 0 <= j < k ==> !MayRun(t, txs, checkpoint, i, j)
  {
    hide FirstHandled, HandledIn;
    var skip := checkpoint != Some(t.txHash(txs[i]));
    if Handled(i, k) in HandledIn(t, txs, approved, checkpoint) {
      HandledAre(t, txs, approved, checkpoint, Handled(i, k));
      forall j | 0 <= j < k ensures !MayRun(t, txs, checkpoint, i, j) {
        if MayRun(t, txs, checkpoint, i, j) {
          FirstHandledIsFirst(t.decodeTx(txs[i]).value, skip, j);
          assert false;
        }
      }
    } else if t.txHash(txs[i]) in approved && MayRun(t, txs, checkpoint, i, k) {
      ApprovedRuns(t, txs, approved, checkpoint, i, k);
      var n :| 0 <= n <= k && Handled(i, n) in HandledIn(t, txs, approved, checkpoint);
      HandledAre(t, txs, approved, checkpoint, Handled(i, n));
      assert MayRun(t, txs, checkpoint, i, n);
    }
  }

  ghost predicate InBlockOrder(run: seq<Handled>, n: nat) {
    && (forall a :: 0 <= a < |run| ==> run[a].tx < n)
    && forall a, b :: 0 <= a < b < |run| ==> run[a].tx < run[b].tx
  }

  /** They run in block order, at most one for each tx. */
  lemma {:induction false} HandledInOrder(t: TxEnv, txs: seq<bytes>, approved: set<bytes>, checkpoint: Option<bytes>)
    ensures InBlockOrder(HandledIn(t, txs, approved, checkpoint), |txs|)
  {
    if txs != [] {
      HandledInOrder(t, txs[..|txs| - 1], approved, checkpoint);
    }
  }

  /** Every approved side tx other than a checkpoint is executed in the block, whatever
      becomes of the checkpoints. */
  lemma ApprovedTxIsExecuted(env: Env, t: TxEnv, vals: seq<Validator>, zurich: bool, votes: seq<Vote>,
                             approved: set<bytes>, txs: seq<bytes>, out: Outcome, i: nat, k: nat)
    requires Executes(env, t, vals, zurich, votes, approved, txs, out)
    requires i < |txs| && t.txHash(txs[i]) in approved && t.decodeTx(txs[i]).Some? && k < |t.decodeTx(txs[i]).value|
    requires t.decodeTx(txs[i]).value[k].hasPostHandler && !t.decodeTx(txs[i]).value[k].isCheckpoint
    ensures exists n :: 0 <= n <= k && Handled(i, n) in out.handled
  {
    hide MajorityIs, CheckpointIs, SignaturesStored, HandledIn;
    var majority, checkpoint :|
      && MajorityIs(env, t, vals, votes, majority) && CheckpointIs(t, txs, majority, checkpoint)
      && out.stored == SignaturesStored(zurich, votes, approved, majority, checkpoint)
      && out.handled == HandledIn(t, txs, approved, checkpoint);
    ApprovedRuns(t, txs, approved, checkpoint, i, k);
  }

  /** On accepted votes, the first tx with a checkpoint message whose sign bytes more than two
      thirds have signed gets, if approved, its signatures stored and that message handled,
      unless an earlier message of the tx has been. */
  lemma SignedCheckpointIsExecuted(env: Env, req: Request, t: TxEnv, vals: seq<Validator>, zurich: bool, votes: seq<Vote>,
                                   approved: set<bytes>, txs: seq<bytes>, out: Outcome, ext: bytes, i: nat, k: nat)
    requires DistinctAddresses(vals) && env.phuket && req.height > env.enableHeight && Accepts(env, req, vals, votes)
    requires Executes(env, t, vals, zurich, votes, approved, txs, out)
    requires |ext| >= 2 && 3 * Power(vals, Voters(env, votes, SignedNonRp(ext))) > 2 * Total(vals)
    requires i < |txs| && t.txHash(txs[i]) in approved && t.decodeTx(txs[i]).Some? && k < |t.decodeTx(txs[i]).value|
    requires IsCheckpointFor(t.decodeTx(txs[i]).value[k], ext[1..]) && t.decodeTx(txs[i]).value[k].hasPostHandler
    requires forall j :: 0 <= j < i ==> !Carries(t, txs[j], ext[1..])
    ensures out.stored == Some(Stored(t.txHash(txs[i]), ext, SignaturesOn(zurich, ext, votes)))
    ensures exists n :: 0 <= n <= k && Handled(i, n) in out.handled
  {
    hide Accepts, Voters, Power, Backing, HandledIn, SignaturesOn, Leads;
    var majority, checkpoint :|
      && MajorityIs(env, t, vals, votes, majority) && CheckpointIs(t, txs, majority, checkpoint)
      && out.stored == SignaturesStored(zurich, votes, approved, majority, checkpoint)
      && out.handled == HandledIn(t, txs, approved, checkpoint);
    SignedByMajority(env, req, vals, votes, ext);
    assert majority.Some?;
    MajorityIsUnique(env, req, vals, votes, majority.value, ext);
    assert Carries(t, txs[i], ext[1..]);
    CarrierFound(t, txs, ext[1..], checkpoint, i);
    ApprovedRuns(t, txs, approved, checkpoint, i, k);
  }

  lemma CarrierFound(t: TxEnv, txs: seq<bytes>, signBytes: bytes, hash: Option<bytes>, i: nat)
    requires FirstCarrier(t, txs, signBytes, hash)
    requires i < |txs| && Carries(t, txs[i], signBytes) && forall j :: 0 <= j < i ==> !Carries(t, txs[j], signBytes)
    ensures hash == Some(t.txHash(txs[i]))
  {
    hide Carries;
  }

  /** On accepted votes an extension signed by more than two thirds has the majority. */
  lemma SignedByMajority(env: Env, req: Request, vals: seq<Validator>, votes: seq<Vote>, ext: bytes)
    requires DistinctAddresses(vals) && req.height > env.enableHeight && Accepts(env, req, vals, votes)
    ensures HasMajority(env, vals, votes, ext) <==> 3 * Power(vals, Voters(env, votes, SignedNonRp(ext))) > 2 * Total(vals)
    ensures Scannable(env, vals, votes)
  {
    forall v | v in votes && Active(v) ensures env.addrString(v.address).Some? {
      var i :| 0 <= i < |votes| && votes[i] == v;
      assert VoteOk(env, req, vals, votes[i]);
    }
    forall i | 0 <= i < |votes| ensures Resolves(env, vals, votes[i]) {
      assert VoteOk(env, req, vals, votes[i]);
    }
    BackingIsPower(env, vals, votes, ext);
    MajorityIsTwoThirds(vals, Voters(env, votes, SignedNonRp(ext)));
  }

  /** After Zurich the stored signatures on an extension come from exactly the active voters
      who sent it. */
  lemma SignersAreVoters(env: Env, ext: bytes, votes: seq<Vote>)
    requires ext != []
    ensures Signers(env, SignaturesOn(true, ext, votes)) == Voters(env, votes, SignedNonRp(ext))
  {
    VotersAreSigners(env, true, ext, votes);
    var sigs := SignaturesOn(true, ext, votes);
    forall a | a in Signers(env, sigs) ensures a in Voters(env, votes, SignedNonRp(ext)) {
      var k :| 0 <= k < |sigs| && env.addrString(sigs[k].address) == Some(a);
      SignaturesAre(true, ext, votes, sigs[k]);
      VotersAre(env, votes, SignedNonRp(ext), a);
    }
  }

  /** Each comes from a committed vote and is its signature, one for each such vote. */
  lemma {:induction false} SignaturesFromCommits(ext: bytes, votes: seq<Vote>, s: Signature)
    ensures s in SignaturesOn(true, ext, votes) <==>
      exists i :: 0 <= i < |votes| && votes[i].flag == Commit && votes[i].nonRpExtension == ext
               && votes[i].address == s.address && votes[i].nonRpSignature == s.signature
  {
    SignaturesAre(true, ext, votes, s);
  }
}
