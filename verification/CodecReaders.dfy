/** Unmarshal and skipVoteExt as loops over an index, with 64-bit index arithmetic. They
    terminate on every input, never read outside it, and decode what the wire format says. */
module CodecReaders {
  import opened Prelude
  import opened Messages
  import opened Varints
  import opened WireCodec

  /** A sum of two non-negative Go ints: it turns negative when it overflows. */
  function WrapInt(x: nat): int
    requires x < TWO_64
  {
    if x < TWO_63 then x else x - TWO_64
  }

  /** Reads a length and checks the record it announces against the end of the input. */
  method ReadRecord(data: bytes, index: nat) returns (r: Option<(nat, nat)>)
    requires index <= |data| < TWO_63
    ensures r.None? <==> ReadDelimited(data[index..]).None?
    ensures r.Some? ==> r.value.0 == index + ReadDelimited(data[index..]).value.0
    ensures r.Some? ==> r.value.1 == index + ReadDelimited(data[index..]).value.1 <= |data|
  {
    hide ReadVarint;
    var read := ReadVarintLoop(data, index);
    if read.None? {
      return None;
    }
    var byteLen := ToInt64(read.value.value);
    if byteLen < 0 {
      return None;
    }
    var from := index + read.value.used;
    var postIndex := WrapInt(from + byteLen);
    if postIndex < 0 || postIndex > |data| {
      return None;
    }
    return Some((from, postIndex));
  }

  /** Its case for a length-delimited record, which does not check the end. */
  method SkipDelimited(data: bytes, index: nat) returns (end: Option<int>)
    requires index <= |data| < TWO_63
    ensures end.Some? && 0 <= end.value <= |data| <==> ReadDelimited(data[index..]).Some?
    ensures ReadDelimited(data[index..]).Some? ==> end == Some(index + ReadDelimited(data[index..]).value.1)
  {
    hide ReadVarint;
    var read := ReadVarintLoop(data, index);
    if read.None? {
      return None;
    }
    var length := ToInt64(read.value.value);
    if length < 0 {
      return None;
    }
    return Some(WrapInt(index + read.value.used + length));
  }

  /** The switch of skipVoteExt. The index may run past the end, or overflow. */
  method SkipOver(wireType: nat, data: bytes, index: nat, depth: nat) returns (r: Option<(int, nat)>)
    requires index <= |data| < TWO_63
    ensures r.Some? && 0 <= r.value.0 <= |data| <==> SkipPayload(wireType, data[index..], depth).Some?
    ensures SkipPayload(wireType, data[index..], depth).Some? ==>
      var (used, depth') := SkipPayload(wireType, data[index..], depth).value;
      r == Some((index + used, depth'))
  {
    hide ReadVarint, ReadDelimited;
    if wireType == 0 {
      var read := ReadVarintLoop(data, index);
      if read.None? {
        return None;
      }
      return Some((index + read.value.used, depth));
    } else if wireType == 1 {
      return Some((WrapInt(index + 8), depth));
    } else if wireType == 2 {
      var end := SkipDelimited(data, index);
      if end.None? {
        return None;
      }
      return Some((end.value, depth));
    } else if wireType == 3 {
      return Some((index, depth + 1));
    } else if wireType == 4 {
      return if depth == 0 then None else Some((index, depth - 1));
    } else if wireType == 5 {
      return Some((WrapInt(index + 4), depth));
    } else {
      return None;
    }
  }

  function Offset(n: nat, r: Option<nat>): Option<nat> {
    if r.Some? then Some(n + r.value) else None
  }

  /** One turn of the skipping loop, in terms of the whole field. */
  lemma SkipTurn(data: bytes, index: nat, depth: nat)
    requires index <= |data|
    ensures ReadVarint(data[index..], 0).None? ==> Skip(data[index..], depth).None?
    ensures ReadVarint(data[index..], 0).Some? ==>
      var tag := ReadVarint(data[index..], 0).value;
      var payload := SkipPayload(tag.value % 8, data[index + tag.used..], depth);
      Skip(data[index..], depth)
      == if payload.None? then None
         else
           var end := tag.used + payload.value.0;
           if payload.value.1 == 0 then Some(end) else Offset(end, Skip(data[index + end..], payload.value.1))
  {
    hide ReadVarint, SkipPayload;
    if ReadVarint(data[index..], 0).Some? {
      var tag := ReadVarint(data[index..], 0).value;
      assert data[index..][tag.used..] == data[index + tag.used..];
      var payload := SkipPayload(tag.value % 8, data[index + tag.used..], depth);
      if payload.Some? {
        var end := tag.used + payload.value.0;
        assert data[index..][end..] == data[index + end..];
      }
    }
  }

  /** skipVoteExt: a result inside the input is exactly what Skip gives; otherwise it is an
      error, or an index past the end which the caller refuses. */
  method SkipVoteExt(data: bytes) returns (r: Option<nat>)
    requires |data| < TWO_63
    ensures r.Some? && r.value <= |data| <==> Skip(data, 0).Some?
    ensures Skip(data, 0).Some? ==> r == Skip(data, 0)
  {
    hide ReadVarint, SkipPayload, Skip;
    var index: nat := 0;
    var depth: nat := 0;
    assert data[0..] == data;
    while index < |data|
      invariant index == 0 || depth > 0
      invariant index <= |data| ==> Skip(data, 0) == Offset(index, Skip(data[index..], depth))
      invariant index > |data| ==> Skip(data, 0).None?
      decreases |data| - index
    {
      SkipTurn(data, index, depth);
      var tag := ReadVarintLoop(data, index);
      if tag.None? {
        return None;
      }
      ghost var start := index;
      index := index + tag.value.used;
      LowBits(ReadVarint(data[start..], 0).value.value);
      var next := SkipOver(tag.value.value % 8, data, index, depth);
      if next.None? || next.value.0 < 0 {
        return None;
      }
      index, depth := next.value.0, next.value.1;
      if depth == 0 {
        return Some(index);
      }
    }
    SkipNothing(depth);
    assert index == |data| ==> data[index..] == [];
    return None;
  }

  lemma LowBits(x: nat)
    ensures x % TWO_64 % 8 == x % 8
  {
  }

  lemma SkipNothing(depth: nat)
    ensures Skip([], depth).None?
  {
  }

  /** One turn of the decoding loop. */
  lemma DecodeTurn(c: MilestoneCodec, m: Message, data: bytes, index: nat)
    requires index < |data|
    ensures Decode(c, m, data[index..])
         == match ReadField(c, m, data[index..])
            case None => None
            case Some(step) => Decode(c, step.message, data[index + step.used..])
  {
    hide ReadField;
    if ReadField(c, m, data[index..]).Some? {
      var used := ReadField(c, m, data[index..]).value.used;
      assert data[index..][used..] == data[index + used..];
    }
  }

  /** The switch of Unmarshal for a field of known number, behind its tag. */
  method UnmarshalKnown(c: MilestoneCodec, m: Message, data: bytes, start: nat, field: int, wireType: nat, tagUsed: nat)
    returns (r: Option<(Message, nat)>)
    requires start < |data| < TWO_63
    requires KnownField(m, field) && 1 <= tagUsed <= |data| - start
    ensures r.None? <==> ReadKnown(c, m, field, wireType, data[start..], tagUsed).None?
    ensures r.Some? ==>
      var step := ReadKnown(c, m, field, wireType, data[start..], tagUsed).value;
      r.value == (step.message, start + step.used)
    decreases |data|, 0
  {
    hide ReadVarint, ReadDelimited, Decode;
    var index := start + tagUsed;
    assert data[start..][tagUsed..] == data[index..];
    if field == 2 {
      if wireType != 0 {
        return None;
      }
      var read := ReadVarintLoop(data, index);
      if read.None? {
        return None;
      }
      NumberTruncates(m, ReadVarint(data[index..], 0).value.value);
      return Some((WithNumber(m, read.value.value), index + read.value.used));
    }
    if wireType != 2 {
      return None;
    }
    var record := ReadRecord(data, index);
    if record.None? {
      return None;
    }
    var from, to := record.value.0, record.value.1;
    var payload := data[from..to];
    assert data[index..][from - index..to - index] == payload;
    var next := UnmarshalPayload(c, m, field, payload);
    if next.None? {
      return None;
    }
    return Some((next.value, to));
  }

  lemma NumberTruncates(m: Message, value: nat)
    ensures WithNumber(m, value % TWO_64) == WithNumber(m, value)
  {
  }

  method UnmarshalPayload(c: MilestoneCodec, m: Message, field: int, payload: bytes) returns (r: Option<Message>)
    requires KnownField(m, field) && |payload| < TWO_63
    ensures r == WithPayload(c, m, field, payload)
    decreases |payload|, 3
  {
    if m.Response? {
      return Some(Response(m.response.(txHash := Some(payload))));
    }
    if field == 1 {
      return Some(Extension(m.extension.(blockHash := Some(payload))));
    }
    if field == 3 {
      var inner := Unmarshal(c, FRESH_RESPONSE, payload);
      if inner.None? {
        return None;
      }
      return Some(Extension(m.extension.(sideTxResponses := m.extension.sideTxResponses + [inner.value.response])));
    }
    var milestone := c.merge(if m.extension.milestone.Some? then m.extension.milestone.value else c.empty, payload);
    if milestone.None? {
      return None;
    }
    return Some(Extension(m.extension.(milestone := milestone)));
  }

  /** Unmarshal, for either kind of message. */
  method Unmarshal(c: MilestoneCodec, initial: Message, data: bytes) returns (r: Option<Message>)
    requires |data| < TWO_63
    ensures r == Decode(c, initial, data)
    decreases |data|, 2
  {
    hide ReadVarint, ReadKnown, Skip, Decode;
    var index := 0;
    var m := initial;
    assert data[0..] == data;
    while index < |data|
      invariant index <= |data|
      invariant Decode(c, initial, data) == Decode(c, m, data[index..])
      decreases |data| - index
    {
      DecodeTurn(c, m, data, index);
      var tag := ReadVarintLoop(data, index);
      if tag.None? {
        return None;
      }
      var field, wireType := ToInt32(tag.value.value / 8), tag.value.value % 8;
      if wireType == 4 || field <= 0 {
        return None;
      }
      if KnownField(m, field) {
        var step := UnmarshalKnown(c, m, data, index, field, wireType, tag.value.used);
        if step.None? {
          return None;
        }
        m, index := step.value.0, step.value.1;
      } else {
        var skippy := SkipVoteExt(data[index..]);
        if skippy.None? || index + skippy.value > |data| {
          return None;
        }
        index := index + skippy.value;
      }
    }
    DecodeNothing(c, m, data[index..]);
    return Some(m);
  }

  lemma DecodeNothing(c: MilestoneCodec, m: Message, data: bytes)
    requires data == []
    ensures Decode(c, m, data) == Some(m)
  {
  }
}
