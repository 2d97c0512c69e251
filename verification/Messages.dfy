/** The messages carried by a vote extension, as decoded Go values: a byte
    slice is an Option because nil and empty are told apart in places. */
module Messages {
  import opened Prelude

  const VOTE_UNSPECIFIED: int32 := 0
  const VOTE_YES: int32 := 1
  const VOTE_NO: int32 := 2

  datatype MilestoneProposition = MilestoneProposition(
    blockHashes: seq<bytes>,
    startBlockNumber: uint64,
    parentHash: bytes,
    blockTds: seq<uint64>,
    latestBlockNumber: uint64,
    latestBlockHash: bytes)

  datatype SideTxResponse = SideTxResponse(txHash: Option<bytes>, result: int32)

  datatype VoteExtension = VoteExtension(
    blockHash: Option<bytes>,
    height: int64,
    sideTxResponses: seq<SideTxResponse>,
    milestone: Option<MilestoneProposition>)
}
