/** The generated codec as it runs: a buffer filled from the back, and loops that advance
    an index. Each is proved against the wire format. */
module CodecLoops {
  import opened Prelude
  import opened Messages
  import opened Varints
  import opened WireCodec
  import opened CodecRoundTrip

  // ----- Size -----

  function SizeOfBytes(l: nat): nat {
    1 + l + Sov(l)
  }

  method ResponseSize(r: SideTxResponse) returns (n: nat)
    ensures n == |EncodeResponse(r)|
  {
    hide Sov;
    n := 0;
    var l := |Raw(r.txHash)|;
    SovIsLength(l);
    SovIsLength(ToUint64(r.result));
    if l > 0 {
      n := n + SizeOfBytes(l);
    }
    if r.result != 0 {
      n := n + 1 + Sov(ToUint64(r.result));
    }
  }

  method ExtensionSize(c: MilestoneCodec, v: VoteExtension) returns (n: nat)
    ensures n == |EncodeExtension(c, v)|
  {
    hide Sov, EncodeResponse;
    n := 0;
    var l := |Raw(v.blockHash)|;
    SovIsLength(l);
    SovIsLength(ToUint64(v.height));
    if l > 0 {
      n := n + SizeOfBytes(l);
    }
    if v.height != 0 {
      n := n + 1 + Sov(ToUint64(v.height));
    }
    ghost var fixed := n;
    var rs := v.sideTxResponses;
    for i := 0 to |rs|
      invariant n + |EncodeResponses(rs[i..])| == fixed + |EncodeResponses(rs)|
    {
      l := ResponseSize(rs[i]);
      SovIsLength(l);
      assert rs[i..][0] == rs[i] && rs[i..][1..] == rs[i + 1..];
      n := n + SizeOfBytes(l);
    }
    if v.milestone.Some? {
      l := |c.encode(v.milestone.value)|;
      SovIsLength(l);
      n := n + SizeOfBytes(l);
    }
  }

  // ----- Marshal: every write goes in front of what is there already -----

  method PutVarint(buf: array<byte>, i: nat, v: uint64) returns (at: nat)
    requires |Varint(v)| <= i <= buf.Length
    modifies buf
    ensures at == i - |Varint(v)|
    ensures buf[at..] == Varint(v) + old(buf[i..])
  {
    hide Sov, Varint;
    SovIsLength(v);
    at := EncodeVarint(buf, i, v);
    ghost var all := buf[..];
    assert at <= i <= |all| && buf[at..] == all[at..] && buf[at..i] == all[at..i] && buf[i..] == all[i..];
    Split(all, at, i);
  }

  lemma Split(s: bytes, from: nat, to: nat)
    requires from <= to <= |s|
    ensures s[from..] == s[from..to] + s[to..]
  {
  }

  method PutByte(buf: array<byte>, i: nat, b: byte) returns (at: nat)
    requires 1 <= i <= buf.Length
    modifies buf
    ensures at == i - 1
    ensures buf[at..] == [b] + old(buf[i..])
  {
    at := i - 1;
    buf[at] := b;
  }

  method PutBytes(buf: array<byte>, i: nat, bs: bytes) returns (at: nat)
    requires |bs| <= i <= buf.Length
    modifies buf
    ensures at == i - |bs|
    ensures buf[at..] == bs + old(buf[i..])
  {
    at := i - |bs|;
    forall k | 0 <= k < |bs| {
      buf[at + k] := bs[k];
    }
  }

  /** The length and the tag in front of a payload already written. */
  method PutHeader(buf: array<byte>, i: nat, tag: byte, ghost payload: bytes, size: nat) returns (at: nat)
    requires size == |payload| < TWO_63 && 1 + |Varint(size)| <= i <= buf.Length
    requires i + size <= buf.Length && buf[i..i + size] == payload
    modifies buf
    ensures at == i - |Varint(size)| - 1
    ensures buf[at..] == Delimited(tag, payload) + old(buf[i + size..])
  {
    hide Varint;
    ghost var tail := buf[i + size..];
    assert buf[i..] == payload + tail;
    at := PutVarint(buf, i, size);
    at := PutByte(buf, at, tag);
    assert buf[at..] == [tag] + (Varint(size) + (payload + tail));
    assert [tag] + (Varint(size) + (payload + tail)) == Delimited(tag, payload) + tail;
  }

  method PutDelimited(buf: array<byte>, i: nat, tag: byte, payload: bytes) returns (at: nat)
    requires |payload| < TWO_63 && |Delimited(tag, payload)| <= i <= buf.Length
    modifies buf
    ensures at == i - |Delimited(tag, payload)|
    ensures buf[at..] == Delimited(tag, payload) + old(buf[i..])
  {
    hide Varint;
    at := PutBytes(buf, i, payload);
    assert buf[at..at + |payload|] == payload;
    assert buf[at + |payload|..] == old(buf[i..]);
    at := PutHeader(buf, at, tag, payload, |payload|);
  }

  method PutOptionalBytes(buf: array<byte>, i: nat, tag: byte, payload: bytes) returns (at: nat)
    requires |OptionalBytes(tag, payload)| < TWO_63 && |OptionalBytes(tag, payload)| <= i <= buf.Length
    modifies buf
    ensures at == i - |OptionalBytes(tag, payload)|
    ensures buf[at..] == OptionalBytes(tag, payload) + old(buf[i..])
  {
    at := i;
    if |payload| > 0 {
      at := PutDelimited(buf, i, tag, payload);
    }
  }

  method PutOptionalNumber(buf: array<byte>, i: nat, x: int64) returns (at: nat)
    requires |OptionalNumber(x)| <= i <= buf.Length
    modifies buf
    ensures at == i - |OptionalNumber(x)|
    ensures buf[at..] == OptionalNumber(x) + old(buf[i..])
  {
    hide Varint;
    at := i;
    if x != 0 {
      at := PutVarint(buf, i, ToUint64(x));
      at := PutByte(buf, at, 0x10);
      Associates([0x10], Varint(ToUint64(x)), old(buf[i..]));
    }
  }

  /** SideTxResponse.MarshalToSizedBuffer on the part of the buffer before `end`. */
  method MarshalResponse(buf: array<byte>, end: nat, r: SideTxResponse) returns (n: nat)
    requires |EncodeResponse(r)| < TWO_63 && |EncodeResponse(r)| <= end <= buf.Length
    modifies buf
    ensures n == |EncodeResponse(r)|
    ensures buf[end - n..] == EncodeResponse(r) + old(buf[end..])
  {
    hide OptionalBytes, OptionalNumber;
    var i := PutOptionalNumber(buf, end, r.result);
    i := PutOptionalBytes(buf, i, 0x0a, Raw(r.txHash));
    Associates(OptionalBytes(0x0a, Raw(r.txHash)), OptionalNumber(r.result), old(buf[end..]));
    n := end - i;
  }

  lemma DelimitedLonger(tag: byte, payload: bytes)
    ensures |payload| < |Delimited(tag, payload)|
  {
  }

  method PutResponse(buf: array<byte>, i: nat, r: SideTxResponse) returns (at: nat)
    requires |Delimited(0x1a, EncodeResponse(r))| < TWO_63
    requires |Delimited(0x1a, EncodeResponse(r))| <= i <= buf.Length
    modifies buf
    ensures at == i - |Delimited(0x1a, EncodeResponse(r))|
    ensures buf[at..] == Delimited(0x1a, EncodeResponse(r)) + old(buf[i..])
  {
    hide Varint, EncodeResponse;
    DelimitedLonger(0x1a, EncodeResponse(r));
    var size := MarshalResponse(buf, i, r);
    at := i - size;
    assert buf[at..at + size] == EncodeResponse(r) && buf[at + size..] == old(buf[i..]);
    at := PutHeader(buf, at, 0x1a, EncodeResponse(r), size);
  }

  /** The loop over the responses, last one first. */
  method MarshalResponses(buf: array<byte>, end: nat, rs: seq<SideTxResponse>) returns (i: nat)
    requires |EncodeResponses(rs)| < TWO_63 && |EncodeResponses(rs)| <= end <= buf.Length
    modifies buf
    ensures i == end - |EncodeResponses(rs)|
    ensures buf[i..] == EncodeResponses(rs) + old(buf[end..])
  {
    hide Delimited, EncodeResponse, EncodeResponses;
    i := end;
    ghost var tail := buf[end..];
    ResponsesNone(rs, tail);
    for k := |rs| downto 0
      invariant 0 <= i == end - |EncodeResponses(rs[k..])|
      invariant buf[i..] == EncodeResponses(rs[k..]) + tail
    {
      ResponsesPrepend(rs, k, tail);
      i := PutResponse(buf, i, rs[k]);
    }
    assert rs[0..] == rs;
  }

  lemma ResponsesNone(rs: seq<SideTxResponse>, tail: bytes)
    ensures |EncodeResponses(rs[|rs|..])| == 0 && EncodeResponses(rs[|rs|..]) + tail == tail
  {
    assert rs[|rs|..] == [];
  }

  lemma {:induction false} ResponsesPrepend(rs: seq<SideTxResponse>, k: nat, tail: bytes)
    requires k < |rs|
    ensures var record := Delimited(0x1a, EncodeResponse(rs[k]));
      && |EncodeResponses(rs[k..])| == |record| + |EncodeResponses(rs[k + 1..])|
      && |EncodeResponses(rs[k..])| <= |EncodeResponses(rs)|
      && EncodeResponses(rs[k..]) + tail == record + (EncodeResponses(rs[k + 1..]) + tail)
  {
    hide Delimited, EncodeResponse;
    ResponsesSuffix(rs, k);
    assert rs[k..][0] == rs[k] && rs[k..][1..] == rs[k + 1..];
    assert EncodeResponses(rs[k..]) == Delimited(0x1a, EncodeResponse(rs[k])) + EncodeResponses(rs[k + 1..]);
    Associates(Delimited(0x1a, EncodeResponse(rs[k])), EncodeResponses(rs[k + 1..]), tail);
  }

  lemma Associates(a: bytes, b: bytes, c: bytes)
    ensures (a + b) + c == a + (b + c)
  {
  }

  lemma {:induction false} ResponsesSuffix(rs: seq<SideTxResponse>, k: nat)
    requires k <= |rs|
    ensures |EncodeResponses(rs[k..])| <= |EncodeResponses(rs)|
  {
    hide Delimited, EncodeResponse;
    if k > 0 {
      assert rs[1..][k - 1..] == rs[k..];
      ResponsesSuffix(rs[1..], k - 1);
    } else {
      assert rs[0..] == rs;
    }
  }

  /** VoteExtension.MarshalToSizedBuffer: fields in descending order, from the back. */
  method MarshalToSizedBuffer(c: MilestoneCodec, buf: array<byte>, v: VoteExtension) returns (n: nat)
    requires |EncodeExtension(c, v)| < TWO_63 && |EncodeExtension(c, v)| <= buf.Length
    modifies buf
    ensures n == |EncodeExtension(c, v)|
    ensures buf[buf.Length - n..] == EncodeExtension(c, v)
  {
    hide Delimited, OptionalBytes, OptionalNumber, EncodeResponses, EncodeMilestone;
    Parts(c, v);
    var i := PutMilestone(c, buf, v);
    i := MarshalResponses(buf, i, v.sideTxResponses);
    i := PutOptionalNumber(buf, i, v.height);
    i := PutOptionalBytes(buf, i, 0x0a, Raw(v.blockHash));
    n := buf.Length - i;
  }

  /** The encoding, grouped in the order in which it is written. */
  lemma Parts(c: MilestoneCodec, v: VoteExtension)
    ensures EncodeExtension(c, v)
         == OptionalBytes(0x0a, Raw(v.blockHash))
            + (OptionalNumber(v.height) + (EncodeResponses(v.sideTxResponses) + EncodeMilestone(c, v)))
  {
    hide OptionalBytes, OptionalNumber, EncodeResponses, EncodeMilestone;
  }

  method PutMilestone(c: MilestoneCodec, buf: array<byte>, v: VoteExtension) returns (i: nat)
    requires |EncodeMilestone(c, v)| < TWO_63 && |EncodeMilestone(c, v)| <= buf.Length
    modifies buf
    ensures i == buf.Length - |EncodeMilestone(c, v)|
    ensures buf[i..] == EncodeMilestone(c, v)
  {
    i := buf.Length;
    if v.milestone.Some? {
      DelimitedLonger(0x22, c.encode(v.milestone.value));
      hide Delimited;
      assert buf[i..] == [];
      i := PutDelimited(buf, i, 0x22, c.encode(v.milestone.value));
    }
  }

  /** Marshal: a buffer of exactly Size() bytes is filled down to offset zero. */
  method Marshal(c: MilestoneCodec, v: VoteExtension) returns (data: bytes)
    requires |EncodeExtension(c, v)| < TWO_63
    ensures data == EncodeExtension(c, v)
  {
    var size := ExtensionSize(c, v);
    var buf := new byte[size];
    var n := MarshalToSizedBuffer(c, buf, v);
    assert buf.Length - n == 0;
    data := buf[..n];
    assert buf[..n] == buf[buf.Length - n..];
  }
}
