/** The cap on side txs, end to end: what PrepareProposal lets in, what ProcessProposal
    accepts, and what ExtendVote answers. */
module SideTxCap {
  import opened Prelude
  import opened Messages
  import opened VotingPower
  import opened VoteExtensions
  import opened ValidateVotes
  import opened SideTxVerdicts
  import opened CheckpointVotes

  /** Decoding and hashing, the proto size of a tx, the proposer's other reasons to leave
      a tx out, and the side handlers' answers. */
  datatype ProposalEnv = ProposalEnv(
    t: TxEnv,
    size: bytes -> nat,
    unwanted: bytes -> bool,
    vote: (bytes, nat) -> int32)

  function SideMsgs(msgs: seq<Msg>): nat {
    if msgs == [] then 0 else SideMsgs(msgs[..|msgs| - 1]) + if msgs[|msgs| - 1].hasSideHandler then 1 else 0
  }

  method CountSideHandlers(msgs: seq<Msg>) returns (n: nat)
    ensures n == SideMsgs(msgs)
  {
    n := 0;
    for i := 0 to |msgs|
      invariant n == SideMsgs(msgs[..i])
    {
      assert msgs[..i + 1][..i] == msgs[..i] && msgs[..i + 1][i] == msgs[i];
      if msgs[i].hasSideHandler {
        n := n + 1;
      }
    }
    assert msgs[..|msgs|] == msgs;
  }

  function SideMsgsIn(env: ProposalEnv, tx: bytes): nat {
    if env.t.decodeTx(tx).Some? then SideMsgs(env.t.decodeTx(tx).value) else 0
  }

  function SideTotal(env: ProposalEnv, txs: seq<bytes>): nat {
    if txs == [] then 0 else SideTotal(env, txs[..|txs| - 1]) + SideMsgsIn(env, txs[|txs| - 1])
  }

  function SizeOf(env: ProposalEnv, txs: seq<bytes>): nat {
    if txs == [] then 0 else SizeOf(env, txs[..|txs| - 1]) + env.size(txs[|txs| - 1])
  }

  ghost predicate SingleSideMsgs(env: ProposalEnv, txs: seq<bytes>) {
    forall i :: 0 <= i < |txs| ==> env.t.decodeTx(txs[i]).Some? && SideMsgsIn(env, txs[i]) <= 1
  }

  /** ProcessProposal's side-tx checks on the txs after the first. */
  ghost predicate WithinCap(env: ProposalEnv, zurich: bool, txs: seq<bytes>) {
    SingleSideMsgs(env, txs) && (zurich ==> SideTotal(env, txs) <= MAX_SIDE_TX_RESPONSES)
  }

  lemma {:induction false} SideTotalGrows(env: ProposalEnv, txs: seq<bytes>, n: nat)
    requires n <= |txs|
    ensures SideTotal(env, txs[..n]) <= SideTotal(env, txs)
    decreases |txs| - n
  {
    if n < |txs| {
      assert txs[..n + 1][..n] == txs[..n];
      SideTotalGrows(env, txs, n + 1);
    } else {
      assert txs[..n] == txs;
    }
  }

  lemma TotalOfNone(env: ProposalEnv)
    ensures SideTotal(env, []) == 0
  {
  }

  lemma TotalOneMore(env: ProposalEnv, txs: seq<bytes>, tx: bytes)
    ensures SideTotal(env, txs + [tx]) == SideTotal(env, txs) + SideMsgsIn(env, tx)
    ensures SizeOf(env, txs + [tx]) == SizeOf(env, txs) + env.size(tx)
  {
    assert (txs + [tx])[..|txs|] == txs;
  }

  /** A tx is taken when it fits the remaining bytes, has at most one side message, does
      not exceed the cap, and nothing else speaks against it. */
  predicate Fits(env: ProposalEnv, zurich: bool, maxTxBytes: int, first: bytes, txs: seq<bytes>, tx: bytes) {
    && env.size(first) + SizeOf(env, txs) + env.size(tx) <= maxTxBytes
    && SideMsgsIn(env, tx) <= 1
    && !(zurich && SideMsgsIn(env, tx) == 1 && SideTotal(env, txs) >= MAX_SIDE_TX_RESPONSES)
    && !env.unwanted(tx)
  }

  /** Txs are taken greedily, in order. */
  function Picked(env: ProposalEnv, zurich: bool, maxTxBytes: int, first: bytes, proposed: seq<bytes>): seq<bytes> {
    if proposed == [] then []
    else
      var before := Picked(env, zurich, maxTxBytes, first, proposed[..|proposed| - 1]);
      var tx := proposed[|proposed| - 1];
      if Fits(env, zurich, maxTxBytes, first, before, tx) then before + [tx] else before
  }

  /** A tx that would fit but cannot be decoded. */
  predicate Undecodable(env: ProposalEnv, zurich: bool, maxTxBytes: int, first: bytes, proposed: seq<bytes>, i: nat)
    requires i < |proposed|
  {
    && env.size(first) + SizeOf(env, Picked(env, zurich, maxTxBytes, first, proposed[..i])) + env.size(proposed[i]) <= maxTxBytes
    && env.t.decodeTx(proposed[i]).None?
  }

  lemma PickedNone(env: ProposalEnv, zurich: bool, maxTxBytes: int, first: bytes, proposed: seq<bytes>)
    ensures Picked(env, zurich, maxTxBytes, first, proposed[..0]) == []
    ensures SideTotal(env, []) == 0 && SizeOf(env, []) == 0
  {
  }

  lemma PickedOneMore(env: ProposalEnv, zurich: bool, maxTxBytes: int, first: bytes, proposed: seq<bytes>, i: nat, txs: seq<bytes>)
    requires i < |proposed| && txs == Picked(env, zurich, maxTxBytes, first, proposed[..i])
    ensures Picked(env, zurich, maxTxBytes, first, proposed[..i + 1])
         == if Fits(env, zurich, maxTxBytes, first, txs, proposed[i]) then txs + [proposed[i]] else txs
    ensures Undecodable(env, zurich, maxTxBytes, first, proposed, i) <==>
      env.size(first) + SizeOf(env, txs) + env.size(proposed[i]) <= maxTxBytes && env.t.decodeTx(proposed[i]).None?
  {
    assert proposed[..i + 1][..i] == proposed[..i] && proposed[..i + 1][i] == proposed[i];
  }

  /** The tx loop of PrepareProposal. `first` is the encoded commit at index 0, and the
      wall-clock budget runs out after `patience` txs. An undecodable tx is an error. */
  method PrepareTxs(env: ProposalEnv, zurich: bool, maxTxBytes: int, first: bytes, proposed: seq<bytes>, patience: nat)
    returns (r: Option<seq<bytes>>)
    ensures r.Some? ==>
      r.value == Picked(env, zurich, maxTxBytes, first, if patience < |proposed| then proposed[..patience] else proposed)
    ensures r.Some? ==> WithinCap(env, zurich, r.value)
    ensures r.Some? ==> env.size(first) + SizeOf(env, r.value) <= if env.size(first) > maxTxBytes then env.size(first) else maxTxBytes
    ensures r.None? <==> exists i :: 0 <= i < |proposed| && i < patience && Undecodable(env, zurich, maxTxBytes, first, proposed, i)
  {
    hide Picked, Undecodable, SideMsgs, SideTotal, SizeOf;
    PickedNone(env, zurich, maxTxBytes, first, proposed);
    var txs: seq<bytes> := [];
    var totalTxBytes := env.size(first);
    var sideTxsCount := 0;
    for i := 0 to |proposed|
      invariant sideTxsCount == SideTotal(env, txs) && (zurich ==> sideTxsCount <= MAX_SIDE_TX_RESPONSES)
      invariant SingleSideMsgs(env, txs)
      invariant totalTxBytes == env.size(first) + SizeOf(env, txs)
      invariant totalTxBytes <= if env.size(first) > maxTxBytes then env.size(first) else maxTxBytes
      invariant i <= patience && txs == Picked(env, zurich, maxTxBytes, first, proposed[..i])
      invariant forall j :: 0 <= j < i ==> !Undecodable(env, zurich, maxTxBytes, first, proposed, j)
    {
      if i >= patience {
        return Some(txs);
      }
      var tx := proposed[i];
      PickedOneMore(env, zurich, maxTxBytes, first, proposed, i, txs);
      if totalTxBytes + env.size(tx) > maxTxBytes {
        continue;
      }
      var decoded := env.t.decodeTx(tx);
      if decoded.None? {
        return None;
      }
      var sideHandlersCount := CountSideHandlers(decoded.value);
      if sideHandlersCount > 1 {
        continue;
      }
      if zurich && sideHandlersCount == 1 && sideTxsCount >= MAX_SIDE_TX_RESPONSES {
        continue;
      }
      if env.unwanted(tx) {
        continue;
      }
      TotalOneMore(env, txs, tx);
      if sideHandlersCount == 1 {
        sideTxsCount := sideTxsCount + 1;
      }
      totalTxBytes := totalTxBytes + env.size(tx);
      txs := txs + [tx];
    }
    assert proposed[..|proposed|] == proposed;
    return Some(txs);
  }

  /** The side-tx checks of ProcessProposal, made after each tx. */
  method ProcessTxs(env: ProposalEnv, zurich: bool, txs: seq<bytes>) returns (ok: bool)
    ensures ok <==> WithinCap(env, zurich, txs)
  {
    hide SideMsgs, SideTotal;
    TotalOfNone(env);
    var sideTxsCount := 0;
    assert txs[..0] == [];
    for i := 0 to |txs|
      invariant SingleSideMsgs(env, txs[..i])
      invariant sideTxsCount == SideTotal(env, txs[..i])
      invariant zurich ==> sideTxsCount <= MAX_SIDE_TX_RESPONSES
    {
      assert txs[..i + 1] == txs[..i] + [txs[i]];
      TotalOneMore(env, txs[..i], txs[i]);
      SideTotalGrows(env, txs, i + 1);
      var decoded := env.t.decodeTx(txs[i]);
      if decoded.None? {
        return false;
      }
      var sideHandlersCount := CountSideHandlers(decoded.value);
      if sideHandlersCount > 1 {
        return false;
      }
      if sideHandlersCount == 1 {
        sideTxsCount := sideTxsCount + 1;
      }
      if zurich && sideTxsCount > MAX_SIDE_TX_RESPONSES {
        return false;
      }
    }
    assert txs[..|txs|] == txs;
    return true;
  }

  // ----- the proposer leaves nothing out without a reason -----

  /** A tx is left out only if it does not fit, has several side messages, would exceed the cap of
      fifty, or is unwanted. */
  lemma LeftOutForAReason(env: ProposalEnv, zurich: bool, maxTxBytes: int, first: bytes, proposed: seq<bytes>, tx: bytes)
    ensures
      var txs := Picked(env, zurich, maxTxBytes, first, proposed);
      var side := if env.t.decodeTx(tx).Some? then SideMsgs(env.t.decodeTx(tx).value) else 0;
      Picked(env, zurich, maxTxBytes, first, proposed + [tx]) == txs + [tx] <==>
        !(|| env.size(first) + SizeOf(env, txs) + env.size(tx) > maxTxBytes || side > 1
          || (zurich && side == 1 && SideTotal(env, txs) >= 50) || env.unwanted(tx))
  {
    assert (proposed + [tx])[..|proposed|] == proposed;
    var txs := Picked(env, zurich, maxTxBytes, first, proposed);
    assert |txs + [tx]| != |txs|;
  }

  lemma NothingPicked(env: ProposalEnv, zurich: bool, maxTxBytes: int, first: bytes)
    ensures Picked(env, zurich, maxTxBytes, first, []) == []
  {
  }

  lemma CapOfPrefix(env: ProposalEnv, zurich: bool, txs: seq<bytes>, tx: bytes)
    requires WithinCap(env, zurich, txs + [tx])
    ensures WithinCap(env, zurich, txs) && env.t.decodeTx(tx).Some? && SideMsgs(env.t.decodeTx(tx).value) <= 1
    ensures zurich && SideMsgs(env.t.decodeTx(tx).value) == 1 ==> SideTotal(env, txs) < 50
  {
    hide SideMsgs;
    var all := txs + [tx];
    assert all[|txs|] == tx && forall i :: 0 <= i < |txs| ==> all[i] == txs[i];
    TotalOneMore(env, txs, tx);
  }

  /** A list that ProcessProposal would accept, that fits and holds nothing unwanted is proposed
      in full. */
  lemma {:induction false} AcceptableIsProposed(env: ProposalEnv, zurich: bool, maxTxBytes: int, first: bytes, txs: seq<bytes>)
    requires WithinCap(env, zurich, txs)
    requires env.size(first) + SizeOf(env, txs) <= maxTxBytes && forall tx :: tx in txs ==> !env.unwanted(tx)
    ensures Picked(env, zurich, maxTxBytes, first, txs) == txs
    decreases |txs|
  {
    hide WithinCap, SizeOf, SideTotal, SideMsgs, Picked;
    NothingPicked(env, zurich, maxTxBytes, first);
    if txs != [] {
      var init, tx := txs[..|txs| - 1], txs[|txs| - 1];
      assert txs == init + [tx] && tx in txs;
      CapOfPrefix(env, zurich, init, tx);
      TotalOneMore(env, init, tx);
      AcceptableIsProposed(env, zurich, maxTxBytes, first, init);
      LeftOutForAReason(env, zurich, maxTxBytes, first, init, tx);
    }
  }

  // ----- ExtendVote -----

  /** One answer per side message of a tx. */
  function AnswersTo(env: ProposalEnv, tx: bytes, msgs: seq<Msg>): seq<SideTxResponse> {
    if msgs == [] then []
    else
      AnswersTo(env, tx, msgs[..|msgs| - 1])
      + if msgs[|msgs| - 1].hasSideHandler
        then [SideTxResponse(Some(env.t.txHash(tx)), env.vote(tx, |msgs| - 1))] else []
  }

  function AnswersToAll(env: ProposalEnv, txs: seq<bytes>): seq<SideTxResponse> {
    if txs == [] then []
    else
      var tx := txs[|txs| - 1];
      AnswersToAll(env, txs[..|txs| - 1])
      + if env.t.decodeTx(tx).Some? then AnswersTo(env, tx, env.t.decodeTx(tx).value) else []
  }

  function Truncated(rs: seq<SideTxResponse>): seq<SideTxResponse> {
    if |rs| <= MAX_SIDE_TX_RESPONSES then rs else rs[..MAX_SIDE_TX_RESPONSES]
  }

  /** The first fifty answers are kept. */
  lemma TruncatedIsPrefix(rs: seq<SideTxResponse>)
    ensures Truncated(rs) <= rs && |Truncated(rs)| == if |rs| < 50 then |rs| else 50
  {
  }

  method AnswerTx(env: ProposalEnv, tx: bytes, msgs: seq<Msg>, before: seq<SideTxResponse>) returns (after: seq<SideTxResponse>)
    requires |before| < MAX_SIDE_TX_RESPONSES
    ensures after == Truncated(before + AnswersTo(env, tx, msgs))
  {
    after := before;
    for k := 0 to |msgs|
      invariant after == before + AnswersTo(env, tx, msgs[..k])
      invariant |after| < MAX_SIDE_TX_RESPONSES
    {
      assert msgs[..k + 1][..k] == msgs[..k] && msgs[..k + 1][k] == msgs[k];
      if !msgs[k].hasSideHandler {
        continue;
      }
      after := after + [SideTxResponse(Some(env.t.txHash(tx)), env.vote(tx, k))];
      assert after == before + AnswersTo(env, tx, msgs[..k + 1]);
      if |after| == MAX_SIDE_TX_RESPONSES {
        AnswersPrefix(env, tx, msgs, k + 1);
        return;
      }
    }
    assert msgs[..|msgs|] == msgs;
  }

  lemma {:induction false} AnswersPrefix(env: ProposalEnv, tx: bytes, msgs: seq<Msg>, n: nat)
    requires n <= |msgs|
    ensures AnswersTo(env, tx, msgs[..n]) <= AnswersTo(env, tx, msgs)
    decreases |msgs| - n
  {
    if n < |msgs| {
      assert msgs[..n + 1][..n] == msgs[..n];
      AnswersPrefix(env, tx, msgs, n + 1);
    } else {
      assert msgs[..n] == msgs;
    }
  }

  lemma {:induction false} AllAnswersPrefix(env: ProposalEnv, txs: seq<bytes>, n: nat)
    requires n <= |txs|
    ensures AnswersToAll(env, txs[..n]) <= AnswersToAll(env, txs)
    decreases |txs| - n
  {
    if n < |txs| {
      assert txs[..n + 1][..n] == txs[..n];
      AllAnswersPrefix(env, txs, n + 1);
    } else {
      assert txs[..n] == txs;
    }
  }

  /** An undecodable tx in a place where the cap has not been reached yet. */
  predicate Unanswerable(env: ProposalEnv, txs: seq<bytes>, i: nat)
    requires i < |txs|
  {
    |AnswersToAll(env, txs[..i])| < MAX_SIDE_TX_RESPONSES && env.t.decodeTx(txs[i]).None?
  }

  /** The txs seen before the deadline. */
  function Reached(zurich: bool, txs: seq<bytes>, patience: nat): seq<bytes> {
    if zurich && patience < |txs| then txs[..patience] else txs
  }

  /** The tx loop of ExtendVote; after Zurich the deadline passes after `patience` txs. */
  method AnswerTxs(env: ProposalEnv, zurich: bool, txs: seq<bytes>, patience: nat) returns (r: Option<seq<SideTxResponse>>)
    ensures r.Some? ==> r.value == Truncated(AnswersToAll(env, Reached(zurich, txs, patience)))
    ensures r.Some? && (!zurich || patience >= |txs|) ==> r.value == Truncated(AnswersToAll(env, txs))
    ensures r.None? <==> exists i :: 0 <= i < |Reached(zurich, txs, patience)| && Unanswerable(env, Reached(zurich, txs, patience), i)
  {
    hide AnswersTo, AnswersToAll, Unanswerable;
    ghost var seen := Reached(zurich, txs, patience);
    NoAnswersYet(env, seen);
    var sideTxRes: seq<SideTxResponse> := [];
    for i := 0 to |txs|
      invariant i <= |seen|
      invariant sideTxRes == AnswersToAll(env, seen[..i]) && |sideTxRes| < MAX_SIDE_TX_RESPONSES
      invariant forall j :: 0 <= j < i ==> !Unanswerable(env, seen, j)
    {
      if zurich && i >= patience {
        assert seen[..i] == seen;
        return Some(sideTxRes);
      }
      assert txs[i] == seen[i];
      var decoded := env.t.decodeTx(txs[i]);
      Answerable(env, seen, i);
      if decoded.None? {
        return None;
      }
      sideTxRes := AnswerTx(env, txs[i], decoded.value, sideTxRes);
      if |sideTxRes| == MAX_SIDE_TX_RESPONSES {
        forall j | i < j < |seen| ensures !Unanswerable(env, seen, j) {
          CapStaysReached(env, seen, i + 1, j);
        }
        AllAnswersPrefix(env, seen, i + 1);
        return Some(sideTxRes);
      }
    }
    assert seen[..|seen|] == seen;
    return Some(sideTxRes);
  }

  lemma NoAnswersYet(env: ProposalEnv, txs: seq<bytes>)
    ensures AnswersToAll(env, txs[..0]) == []
  {
  }

  lemma Answerable(env: ProposalEnv, txs: seq<bytes>, i: nat)
    requires i < |txs| && |AnswersToAll(env, txs[..i])| < MAX_SIDE_TX_RESPONSES
    ensures Unanswerable(env, txs, i) <==> env.t.decodeTx(txs[i]).None?
    ensures env.t.decodeTx(txs[i]).Some? ==>
      AnswersToAll(env, txs[..i + 1]) == AnswersToAll(env, txs[..i]) + AnswersTo(env, txs[i], env.t.decodeTx(txs[i]).value)
  {
    assert txs[..i + 1][..i] == txs[..i] && txs[..i + 1][i] == txs[i];
  }

  lemma CapStaysReached(env: ProposalEnv, txs: seq<bytes>, n: nat, i: nat)
    requires n <= i < |txs| && |AnswersToAll(env, txs[..n])| >= MAX_SIDE_TX_RESPONSES
    ensures !Unanswerable(env, txs, i)
  {
    assert txs[..i][..n] == txs[..n];
    AllAnswersPrefix(env, txs[..i], n);
  }

  // ----- the responses are always acceptable -----

  ghost predicate HandlersSound(env: ProposalEnv) {
    && (forall tx :: |env.t.txHash(tx)| == HASH_LENGTH)
    && (forall tx, k :: ValidVote(env.vote(tx, k)))
  }

  lemma {:induction false} AnswersToOne(env: ProposalEnv, tx: bytes, msgs: seq<Msg>)
    ensures |AnswersTo(env, tx, msgs)| == SideMsgs(msgs)
    ensures forall r :: r in AnswersTo(env, tx, msgs) ==>
      r.txHash == Some(env.t.txHash(tx)) && exists k :: r.result == env.vote(tx, k)
  {
    if msgs != [] {
      AnswersToOne(env, tx, msgs[..|msgs| - 1]);
    }
  }

  /** Each answer is the vote on the side message it stands for, counted among the side messages
      of the tx. */
  lemma {:induction false} AnswerStandsFor(env: ProposalEnv, tx: bytes, msgs: seq<Msg>, k: nat)
    requires k < |msgs| && msgs[k].hasSideHandler
    ensures
      var n := SideMsgs(msgs[..k]);
      n < |AnswersTo(env, tx, msgs)| && AnswersTo(env, tx, msgs)[n] == SideTxResponse(Some(env.t.txHash(tx)), env.vote(tx, k))
  {
    var init := msgs[..|msgs| - 1];
    AnswersToOne(env, tx, init);
    if k < |msgs| - 1 {
      assert init[..k] == msgs[..k];
      AnswerStandsFor(env, tx, init, k);
    } else {
      assert msgs[..k] == init;
    }
  }

  /** In a block with at most one side message per tx, the answer for a tx with a side message is
      the vote on that message, in the place the tx has among the side txs. */
  lemma {:induction false} AnswerOfTx(env: ProposalEnv, txs: seq<bytes>, i: nat, k: nat)
    requires SingleSideMsgs(env, txs) && i < |txs| && k < |env.t.decodeTx(txs[i]).value|
    requires env.t.decodeTx(txs[i]).value[k].hasSideHandler
    ensures
      var n := SideTotal(env, txs[..i]);
      n < |AnswersToAll(env, txs)| && AnswersToAll(env, txs)[n] == SideTxResponse(Some(env.t.txHash(txs[i])), env.vote(txs[i], k))
    decreases |txs|
  {
    hide AnswersTo, SideMsgs;
    var init, tx := txs[..|txs| - 1], txs[|txs| - 1];
    if i < |txs| - 1 {
      assert init[..i] == txs[..i] && init[i] == txs[i];
      AnswerOfTx(env, init, i, k);
    } else {
      assert txs[..i] == init;
      AnswersCount(env, init);
      OnlySideMsgIsFirst(env.t.decodeTx(tx).value, k);
      AnswerStandsFor(env, tx, env.t.decodeTx(tx).value, k);
    }
  }

  lemma {:induction false} AnswersCount(env: ProposalEnv, txs: seq<bytes>)
    ensures |AnswersToAll(env, txs)| == SideTotal(env, txs)
  {
    if txs != [] {
      var tx := txs[|txs| - 1];
      AnswersCount(env, txs[..|txs| - 1]);
      if env.t.decodeTx(tx).Some? { AnswersToOne(env, tx, env.t.decodeTx(tx).value); }
    }
  }

  lemma {:induction false} OnlySideMsgIsFirst(msgs: seq<Msg>, k: nat)
    requires k < |msgs| && msgs[k].hasSideHandler && SideMsgs(msgs) <= 1
    ensures SideMsgs(msgs[..k]) == 0
  {
    if k < |msgs| - 1 {
      assert msgs[..|msgs| - 1][..k] == msgs[..k];
      if msgs[|msgs| - 1].hasSideHandler {
        SideMsgsCounts(msgs[..|msgs| - 1], k);
        assert false;
      } else {
        OnlySideMsgIsFirst(msgs[..|msgs| - 1], k);
      }
    }
  }

  lemma {:induction false} AnswersToMany(env: ProposalEnv, txs: seq<bytes>)
    requires HandlersSound(env) && SingleSideMsgs(env, txs)
    requires forall i, j :: 0 <= i < j < |txs| ==> env.t.txHash(txs[i]) != env.t.txHash(txs[j])
    ensures |AnswersToAll(env, txs)| == SideTotal(env, txs)
    ensures forall k :: 0 <= k < |AnswersToAll(env, txs)| ==>
      && |Raw(AnswersToAll(env, txs)[k].txHash)| == HASH_LENGTH && ValidVote(AnswersToAll(env, txs)[k].result)
      && exists i :: 0 <= i < |txs| && Raw(AnswersToAll(env, txs)[k].txHash) == env.t.txHash(txs[i])
    ensures forall k, l :: 0 <= k < l < |AnswersToAll(env, txs)| ==>
      Raw(AnswersToAll(env, txs)[k].txHash) != Raw(AnswersToAll(env, txs)[l].txHash)
  {
    if txs != [] {
      var init, tx := txs[..|txs| - 1], txs[|txs| - 1];
      AnswersToMany(env, init);
      var before, own := AnswersToAll(env, init), AnswersTo(env, tx, env.t.decodeTx(tx).value);
      AnswersToOne(env, tx, env.t.decodeTx(tx).value);
      var all := AnswersToAll(env, txs);
      assert all == before + own && |own| <= 1;
      assert forall k :: 0 <= k < |own| ==> own[k] in own;
    }
  }

  /** For any block that passes ProcessProposal after Zurich, with distinct txs, ExtendVote
      answers every side tx it reaches, all of them if the deadline is not hit, and every
      validator accepts the answers. */
  lemma ResponsesAccepted(env: ProposalEnv, txs: seq<bytes>, patience: nat)
    requires HandlersSound(env) && WithinCap(env, true, txs)
    requires forall i, j :: 0 <= i < j < |txs| ==> env.t.txHash(txs[i]) != env.t.txHash(txs[j])
    ensures var reached := Reached(true, txs, patience);
      && Truncated(AnswersToAll(env, reached)) == AnswersToAll(env, reached)
      && |AnswersToAll(env, reached)| == SideTotal(env, reached)
      && AnswersToAll(env, reached) <= AnswersToAll(env, txs)
      && ResponsesOk(AnswersToAll(env, reached))
  {
    var n := if patience < |txs| then patience else |txs|;
    assert txs[..|txs|] == txs;
    SideTotalGrows(env, txs, n);
    AllAnswersPrefix(env, txs, n);
    AnswersToMany(env, txs[..n]);
  }

  // ----- what the cap means for checkpoints -----

  /** The checkpoint module registers a side handler for its message. */
  ghost predicate CheckpointsAreSide(t: TxEnv) {
    forall tx, k :: t.decodeTx(tx).Some? && 0 <= k < |t.decodeTx(tx).value| && t.decodeTx(tx).value[k].isCheckpoint ==>
      t.decodeTx(tx).value[k].hasSideHandler
  }

  lemma {:induction false} SideMsgsCounts(msgs: seq<Msg>, k: nat)
    requires k < |msgs| && msgs[k].hasSideHandler
    ensures SideMsgs(msgs) >= 1
  {
    if k < |msgs| - 1 { SideMsgsCounts(msgs[..|msgs| - 1], k); }
  }

  lemma {:induction false} SideMsgsCountsTwo(msgs: seq<Msg>, k: nat, l: nat)
    requires k < l < |msgs| && msgs[k].hasSideHandler && msgs[l].hasSideHandler
    ensures SideMsgs(msgs) >= 2
  {
    if l < |msgs| - 1 {
      SideMsgsCountsTwo(msgs[..|msgs| - 1], k, l);
    } else {
      SideMsgsCounts(msgs[..|msgs| - 1], k);
    }
  }

  /** A block that passes ProcessProposal holds at most one checkpoint message per tx. */
  lemma OneCheckpointFromCap(env: ProposalEnv, txs: seq<bytes>)
    requires SingleSideMsgs(env, txs) && CheckpointsAreSide(env.t)
    ensures OneCheckpointPerTx(env.t, txs)
  {
    forall i, k, l | 0 <= i < |txs| && env.t.decodeTx(txs[i]).Some? && 0 <= k < l < |env.t.decodeTx(txs[i]).value|
      ensures !(env.t.decodeTx(txs[i]).value[k].isCheckpoint && env.t.decodeTx(txs[i]).value[l].isCheckpoint)
    {
      var msgs := env.t.decodeTx(txs[i]).value;
      assert SideMsgsIn(env, txs[i]) <= 1;
      if msgs[k].isCheckpoint && msgs[l].isCheckpoint {
        SideMsgsCountsTwo(msgs, k, l);
        assert false;
      }
    }
  }

  /** The tie between a checkpoint and its signatures, for every block that passed
      ProcessProposal after Zurich. */
  lemma CheckpointTiedInAcceptedBlock(env: Env, req: Request, p: ProposalEnv, vals: seq<Validator>, votes: seq<Vote>,
                                      tally: Tally, txs: seq<bytes>, out: Outcome, e: Handled)
    requires DistinctAddresses(vals) && env.phuket && req.height > env.enableHeight
    requires Accepts(env, req, vals, votes) && DecidesAll(env, vals, votes, tally)
    requires WithinCap(p, true, txs) && CheckpointsAreSide(p.t) && DistinctHashes(p.t, txs)
    requires Executes(env, p.t, vals, true, votes, ApprovedSet(tally), txs, out)
    requires e in out.handled && IsCheckpointRun(p.t, txs, e)
    ensures VerdictOn(env, vals, votes, p.t.txHash(txs[e.tx])) == Approved
    ensures out.stored.Some? && out.stored.value.txHash == p.t.txHash(txs[e.tx])
    ensures out.stored.value.ext[1..] == p.t.decodeTx(txs[e.tx]).value[e.msg].signBytes
    ensures Power(vals, Signers(env, out.stored.value.signatures)) > MajorityVP(vals)
    ensures forall e' :: e' in out.handled && IsCheckpointRun(p.t, txs, e') ==> e' == e
  {
    hide Accepts, DecidesAll, Executes, VerdictOn;
    OneCheckpointFromCap(p, txs);
    CheckpointTiedToSignatures(env, req, p.t, vals, votes, tally, txs, out, e);
  }
}
