/** Fetching block infos in one flat JSON-RPC batch: all headers, then all difficulties,
    then all authors, the last without an entry for the genesis block. */
module BorBatch {
  import opened Prelude

  datatype Call = GetHeader | GetTd | GetAuthor

  /** A batch element: the call, its block, the output slot its answer is decoded into, and
      whether the answer was an error. */
  datatype Elem = Elem(call: Call, block: nat, slot: nat, failed: bool)

  /** A header, of which only its number (absent when nil) matters, and its identity. */
  datatype Header = Header(number: Option<nat>, hash: bytes)

  type Address = bytes
  const ZERO_ADDRESS: Address := seq(20, _ => 0)

  /** The layout of the batch for `total` blocks from `start` on. */
  function Layout(start: nat, total: nat): seq<Elem> {
    Calls(GetHeader, start, 0, total) + Calls(GetTd, start, 0, total)
      + Calls(GetAuthor, start, if start == 0 && total > 0 then 1 else 0, total)
  }

  /** One call for each slot from `first` up to `total`. */
  function Calls(call: Call, start: nat, first: nat, total: nat): (s: seq<Elem>)
    requires first <= total
    ensures |s| == total - first
  {
    seq(total - first, k requires k >= 0 => Elem(call, start + first + k, first + k, false))
  }

  /** buildBorBatchElems. */
  method BuildBorBatchElems(start: nat, end: nat) returns (elems: seq<Elem>)
    requires start <= end + 1
    ensures elems == Layout(start, end - start + 1)
  {
    elems := [];
    var i := start;
    while i <= end
      invariant start <= i <= end + 1
      invariant elems == Calls(GetHeader, start, 0, i - start)
      decreases end + 1 - i
    {
      elems := elems + [Elem(GetHeader, i, i - start, false)];
      i := i + 1;
    }
    ghost var headers := elems;
    i := start;
    while i <= end
      invariant start <= i <= end + 1
      invariant elems == headers + Calls(GetTd, start, 0, i - start)
      decreases end + 1 - i
    {
      elems := elems + [Elem(GetTd, i, i - start, false)];
      i := i + 1;
    }
    ghost var tds := elems;
    i := start;
    while i <= end
      invariant start <= i <= end + 1
      invariant elems == tds + Calls(GetAuthor, start, if start == 0 && i > start then 1 else 0, i - start)
      decreases end + 1 - i
    {
      if i > 0 {
        elems := elems + [Elem(GetAuthor, i, i - start, false)];
      }
      i := i + 1;
    }
  }

  /** The index of a call in the batch; without a genesis author the authors shift by one. */
  function IndexOf(call: Call, slot: nat, start: nat, total: nat): int {
    match call
    case GetHeader => slot
    case GetTd => slot + total
    case GetAuthor => 2 * total + slot - (if start == 0 then 1 else 0)
  }

  /** The answered batch carries the requests of the layout; only the errors are new. */
  ghost predicate Answers(elems: seq<Elem>, start: nat, total: nat) {
    && |elems| == |Layout(start, total)|
    && forall k :: 0 <= k < |elems| ==> elems[k].(failed := false) == Layout(start, total)[k]
  }

  /** Where the layout puts each call: every block has its header and difficulty calls, every
      block but genesis its author call, at these indices and at no others. */
  lemma LayoutIndex(start: nat, total: nat, k: nat)
    requires k < |Layout(start, total)|
    ensures
      var e := Layout(start, total)[k];
      && e.block == start + e.slot && e.slot < total && !e.failed
      && k == IndexOf(e.call, e.slot, start, total)
      && (e.call.GetAuthor? ==> e.block > 0)
  {
  }

  /** The request for this call and block was answered without an error. */
  ghost predicate Answered(elems: seq<Elem>, call: Call, block: nat) {
    exists k :: 0 <= k < |elems| && elems[k] == Elem(call, block, elems[k].slot, false)
  }

  /** Everything about block start+i was fetched: its calls succeeded and decoded to
      values, and the header has the number asked for (compared as uint64). */
  ghost predicate Fetched(i: nat, start: nat, elems: seq<Elem>, hdrs: seq<Option<Header>>, tds: seq<Option<uint64>>, authors: seq<Option<Address>>)
    requires i < |hdrs| && i < |tds| && i < |authors|
  {
    var block := start + i;
    && Answered(elems, GetHeader, block) && hdrs[i].Some?
    && hdrs[i].value.number.Some? && hdrs[i].value.number.value % TWO_64 == block
    && Answered(elems, GetTd, block) && tds[i].Some?
    && (block > 0 ==> Answered(elems, GetAuthor, block) && authors[i].Some?)
  }

  /** The element at the index of a call says whether that call was answered. */
  lemma AnsweredAt(start: nat, total: nat, elems: seq<Elem>, call: Call, i: nat, index: nat)
    requires Answers(elems, start, total) && i < total
    requires call.GetAuthor? ==> start + i > 0
    requires index == IndexOf(call, i, start, total)
    ensures index < |elems| && (Answered(elems, call, start + i) <==> !elems[index].failed)
  {
    assert Layout(start, total)[index] == Elem(call, start + i, i, false);
    if !elems[index].failed {
      assert elems[index] == Elem(call, start + i, elems[index].slot, false);
    }
    if Answered(elems, call, start + i) {
      var k :| 0 <= k < |elems| && elems[k] == Elem(call, start + i, elems[k].slot, false);
      LayoutIndex(start, total, k);
      assert Layout(start, total)[k] == elems[k];
    }
  }

  /** borAuthorFromBatch, for a block above genesis. */
  method BorAuthorFromBatch(i: nat, start: nat, total: nat, elems: seq<Elem>, authors: seq<Option<Address>>)
    returns (author: Address, ok: bool)
    requires Answers(elems, start, total) && i < total == |authors| && start + i > 0
    ensures ok <==> Answered(elems, GetAuthor, start + i) && authors[i].Some?
    ensures author == if ok then authors[i].value else ZERO_ADDRESS
  {
    AnsweredAt(start, total, elems, GetAuthor, i, IndexOf(GetAuthor, i, start, total));
    var authorReqIndex := 2 * total + i;
    if start == 0 {
      authorReqIndex := authorReqIndex - 1;
    }
    if elems[authorReqIndex].failed || authors[i].None? {
      return ZERO_ADDRESS, false;
    }
    return authors[i].value, true;
  }

  /** A block fetched from above genesis has had three calls answered with values, genesis two;
      and its header is the one asked for. */
  lemma FetchedMeans(i: nat, block: nat, start: nat, elems: seq<Elem>, hdrs: seq<Option<Header>>, tds: seq<Option<uint64>>, authors: seq<Option<Address>>)
    requires i < |hdrs| && i < |tds| && i < |authors| && block == start + i
    ensures Fetched(i, start, elems, hdrs, tds, authors) <==>
      && hdrs[i].Some? && hdrs[i].value.number.Some? && hdrs[i].value.number.value % TWO_64 == block
      && tds[i].Some? && (block == 0 || authors[i].Some?)
      && Answered(elems, GetHeader, block) && Answered(elems, GetTd, block) && (block > 0 ==> Answered(elems, GetAuthor, block))
  {
    hide Answered;
  }

  lemma NumbersMatch(n: nat, start: nat, elems: seq<Elem>, hdrs: seq<Option<Header>>, tds: seq<Option<uint64>>, authors: seq<Option<Address>>, headers: seq<Header>)
    requires n == |headers| <= |hdrs| == |tds| == |authors|
    requires forall i :: 0 <= i < n ==> Fetched(i, start, elems, hdrs, tds, authors)
    requires forall i :: 0 <= i < n ==> hdrs[i] == Some(headers[i])
    ensures forall i :: 0 <= i < n ==> headers[i].number.Some? && headers[i].number.value % TWO_64 == start + i
  {
    hide Answered;
    forall i | 0 <= i < n ensures headers[i].number.Some? && headers[i].number.value % TWO_64 == start + i {
      assert Fetched(i, start, elems, hdrs, tds, authors);
    }
  }

  /** collateBorBatchResults: the three lists hold exactly the longest run of fetched
      blocks from the start of the range. */
  method CollateBorBatchResults(start: nat, total: nat, elems: seq<Elem>, hdrs: seq<Option<Header>>, tds: seq<Option<uint64>>, authors: seq<Option<Address>>)
    returns (headers: seq<Header>, tdSlice: seq<uint64>, authorSlice: seq<Address>)
    requires start + total <= TWO_63 && Answers(elems, start, total)
    requires |hdrs| == |tds| == |authors| == total
    ensures |headers| == |tdSlice| == |authorSlice| <= total
    ensures forall i :: 0 <= i < |headers| ==> Fetched(i, start, elems, hdrs, tds, authors)
    ensures |headers| < total ==> !Fetched(|headers|, start, elems, hdrs, tds, authors)
    ensures forall i :: 0 <= i < |headers| ==> headers[i].number.Some? && headers[i].number.value % TWO_64 == start + i
    ensures forall i :: 0 <= i < |headers| ==>
      && hdrs[i] == Some(headers[i]) && tds[i] == Some(tdSlice[i])
      && (if start + i > 0 then authors[i] == Some(authorSlice[i]) else authorSlice[i] == ZERO_ADDRESS)
  {
    hide Answers, Answered;
    headers, tdSlice, authorSlice := [], [], [];
    for i := 0 to total
      invariant |headers| == |tdSlice| == |authorSlice| == i
      invariant forall j :: 0 <= j < i ==> Fetched(j, start, elems, hdrs, tds, authors)
      invariant forall j :: 0 <= j < i ==>
        && hdrs[j] == Some(headers[j]) && tds[j] == Some(tdSlice[j])
        && (if start + j > 0 then authors[j] == Some(authorSlice[j]) else authorSlice[j] == ZERO_ADDRESS)
    {
      var blockNum := start + i;
      AnsweredAt(start, total, elems, GetHeader, i, i);
      AnsweredAt(start, total, elems, GetTd, i, i + total);
      if elems[i].failed || elems[i + total].failed || hdrs[i].None? || tds[i].None? {
        break;
      }
      if hdrs[i].value.number.None? || hdrs[i].value.number.value % TWO_64 != blockNum {
        break;
      }
      var author := ZERO_ADDRESS;
      if blockNum > 0 {
        var ok;
        author, ok := BorAuthorFromBatch(i, start, total, elems, authors);
        if !ok {
          break;
        }
      }
      headers := headers + [hdrs[i].value];
      tdSlice := tdSlice + [tds[i].value];
      authorSlice := authorSlice + [author];
    }
    NumbersMatch(|headers|, start, elems, hdrs, tds, authors, headers);
  }
}
