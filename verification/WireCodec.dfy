/** The wire format of vote extensions: what Marshal writes and what Unmarshal reads. */
module WireCodec {
  import opened Prelude
  import opened Messages
  import opened Varints

  // ----- machine integers -----

  function ToUint64(x: int64): uint64 {
    if x >= 0 then x else x + TWO_64
  }

  function ToInt64(x: nat): int64 {
    var low := x % TWO_64;
    if low < TWO_63 then low else low - TWO_64
  }

  function ToInt32(x: nat): int32 {
    var low := x % 0x1_0000_0000;
    if low < 0x8000_0000 then low else low - 0x1_0000_0000
  }

  // ----- what Marshal writes -----

  /** The nested milestone message, whose codec is not part of this model: its encoding,
      and decoding into a value that may have been partly filled already. */
  datatype MilestoneCodec = MilestoneCodec(
    empty: MilestoneProposition,
    encode: MilestoneProposition -> bytes,
    merge: (MilestoneProposition, bytes) -> Option<MilestoneProposition>)

  ghost predicate MilestoneRoundTrips(c: MilestoneCodec) {
    forall p :: c.merge(c.empty, c.encode(p)) == Some(p)
  }

  /** A length-delimited record. */
  function Delimited(tag: byte, payload: bytes): bytes {
    [tag] + Varint(|payload|) + payload
  }

  /** A byte field, left out when empty. */
  function OptionalBytes(tag: byte, payload: bytes): bytes {
    if |payload| > 0 then Delimited(tag, payload) else []
  }

  /** The varint field with number 2, left out when zero. */
  function OptionalNumber(x: int64): bytes {
    if x != 0 then [0x10] + Varint(ToUint64(x)) else []
  }

  function EncodeResponse(r: SideTxResponse): bytes {
    OptionalBytes(0x0a, Raw(r.txHash)) + OptionalNumber(r.result)
  }

  function EncodeResponses(rs: seq<SideTxResponse>): bytes {
    if rs == [] then [] else Delimited(0x1a, EncodeResponse(rs[0])) + EncodeResponses(rs[1..])
  }

  function EncodeMilestone(c: MilestoneCodec, v: VoteExtension): bytes {
    if v.milestone.Some? then Delimited(0x22, c.encode(v.milestone.value)) else []
  }

  function EncodeExtension(c: MilestoneCodec, v: VoteExtension): bytes {
    OptionalBytes(0x0a, Raw(v.blockHash)) + OptionalNumber(v.height)
    + EncodeResponses(v.sideTxResponses) + EncodeMilestone(c, v)
  }

  // ----- what Unmarshal reads -----

  /** A message under construction; both kinds are read by the same loop. */
  datatype Message =
    | Response(response: SideTxResponse)
    | Extension(extension: VoteExtension)

  const FRESH_RESPONSE: Message := Response(SideTxResponse(None, 0))
  const FRESH_EXTENSION: Message := Extension(VoteExtension(None, 0, [], None))

  datatype Step = Step(message: Message, used: nat)

  predicate KnownField(m: Message, field: int) {
    if m.Response? then field == 1 || field == 2 else 1 <= field <= 4
  }

  /** A length prefix and the payload it announces: bytes used by the prefix, and end of
      the payload. */
  function ReadDelimited(data: bytes): (r: Option<(nat, nat)>)
    ensures r.Some? ==> 1 <= r.value.0 <= r.value.1 <= |data|
  {
    match ReadVarint(data, 0)
    case None => None
    case Some(read) =>
      var length := ToInt64(read.value);
      if length < 0 || read.used + length > |data| then None
      else Some((read.used, read.used + length))
  }

  /** Decodes one message into `m`; None stands for an error. */
  function Decode(c: MilestoneCodec, m: Message, data: bytes): (r: Option<Message>)
    ensures r.Some? ==> r.value.Response? == m.Response?
    decreases |data|, 2
  {
    if data == [] then Some(m)
    else match ReadField(c, m, data)
      case None => None
      case Some(step) => Decode(c, step.message, data[step.used..])
  }

  /** One tag and what belongs to it. */
  function ReadField(c: MilestoneCodec, m: Message, data: bytes): (r: Option<Step>)
    ensures r.Some? ==> 1 <= r.value.used <= |data| && r.value.message.Response? == m.Response?
    decreases |data|, 1
  {
    match ReadVarint(data, 0)
    case None => None
    case Some(tag) =>
      var wire := tag.value % TWO_64;
      var field, wireType := ToInt32(wire / 8), wire % 8;
      if wireType == 4 || field <= 0 then None
      else if KnownField(m, field) then ReadKnown(c, m, field, wireType, data, tag.used)
      else match Skip(data, 0)
        case None => None
        case Some(used) => Some(Step(m, used))
  }

  function ReadKnown(c: MilestoneCodec, m: Message, field: int, wireType: nat, data: bytes, at: nat): (r: Option<Step>)
    requires KnownField(m, field) && 1 <= at <= |data|
    ensures r.Some? ==> 1 <= r.value.used <= |data| && r.value.message.Response? == m.Response?
    decreases |data|, 0
  {
    if field == 2 then
      if wireType != 0 then None
      else match ReadVarint(data[at..], 0)
        case None => None
        case Some(read) => Some(Step(WithNumber(m, read.value), at + read.used))
    else if wireType != 2 then None
    else match ReadDelimited(data[at..])
      case None => None
      case Some((from, to)) =>
        match WithPayload(c, m, field, data[at..][from..to])
        case None => None
        case Some(next) => Some(Step(next, at + to))
  }

  /** Field 2: the result of a response, the height of an extension. */
  function WithNumber(m: Message, value: nat): (r: Message)
    ensures r.Response? == m.Response?
  {
    if m.Response? then Response(m.response.(result := ToInt32(value)))
    else Extension(m.extension.(height := ToInt64(value)))
  }

  /** The length-delimited fields. */
  function WithPayload(c: MilestoneCodec, m: Message, field: int, payload: bytes): (r: Option<Message>)
    requires KnownField(m, field)
    ensures r.Some? ==> r.value.Response? == m.Response?
    decreases |payload|, 3
  {
    if m.Response? then Some(Response(m.response.(txHash := Some(payload))))
    else if field == 1 then Some(Extension(m.extension.(blockHash := Some(payload))))
    else if field == 3 then
      match Decode(c, FRESH_RESPONSE, payload)
      case None => None
      case Some(inner) =>
        Some(Extension(m.extension.(sideTxResponses := m.extension.sideTxResponses + [inner.response])))
    else
      match c.merge(if m.extension.milestone.Some? then m.extension.milestone.value else c.empty, payload)
      case None => None
      case Some(p) => Some(Extension(m.extension.(milestone := Some(p))))
  }

  /** skipVoteExt: the bytes of one field of unknown number, with `depth` groups open.
      None stands for an error and for a field that runs past the end. */
  function Skip(data: bytes, depth: nat): (r: Option<nat>)
    ensures r.Some? ==> 1 <= r.value <= |data|
    decreases |data|
  {
    match ReadVarint(data, 0)
    case None => None
    case Some(tag) =>
      match SkipPayload(tag.value % 8, data[tag.used..], depth)
      case None => None
      case Some((used, depth')) =>
        var end := tag.used + used;
        if depth' == 0 then Some(end)
        else match Skip(data[end..], depth')
          case None => None
          case Some(rest) => Some(end + rest)
  }

  /** What follows a tag of this wire type: bytes used, and groups open afterwards. */
  function SkipPayload(wireType: nat, data: bytes, depth: nat): (r: Option<(nat, nat)>)
    ensures r.Some? ==> r.value.0 <= |data|
  {
    if wireType == 0 then
      match ReadVarint(data, 0)
      case None => None
      case Some(read) => Some((read.used, depth))
    else if wireType == 1 then if |data| < 8 then None else Some((8, depth))
    else if wireType == 2 then
      match ReadDelimited(data)
      case None => None
      case Some((_, to)) => Some((to, depth))
    else if wireType == 3 then Some((0, depth + 1))
    else if wireType == 4 then if depth == 0 then None else Some((0, depth - 1))
    else if wireType == 5 then if |data| < 4 then None else Some((4, depth))
    else None
  }

  // ----- what follows a field does not affect how it is read -----

  lemma DelimitedIsLocal(a: bytes, b: bytes)
    requires ReadDelimited(a).Some?
    ensures ReadDelimited(a + b) == ReadDelimited(a)
  {
    ReadIsLocal(a, b, 0);
  }

  lemma SkipPayloadIsLocal(wireType: nat, a: bytes, b: bytes, depth: nat)
    requires SkipPayload(wireType, a, depth).Some?
    ensures SkipPayload(wireType, a + b, depth) == SkipPayload(wireType, a, depth)
  {
    hide ReadVarint, ReadDelimited;
    if wireType == 0 {
      ReadIsLocal(a, b, 0);
    } else if wireType == 2 {
      DelimitedIsLocal(a, b);
    }
  }

  lemma {:induction false} SkipIsLocal(a: bytes, b: bytes, depth: nat)
    requires Skip(a, depth).Some?
    ensures Skip(a + b, depth) == Skip(a, depth)
    decreases |a|
  {
    hide SkipPayload, ReadVarint;
    ReadIsLocal(a, b, 0);
    var tag := ReadVarint(a, 0).value;
    assert (a + b)[tag.used..] == a[tag.used..] + b;
    SkipPayloadIsLocal(tag.value % 8, a[tag.used..], b, depth);
    var (used, depth') := SkipPayload(tag.value % 8, a[tag.used..], depth).value;
    var end := tag.used + used;
    if depth' != 0 {
      assert (a + b)[end..] == a[end..] + b;
      SkipIsLocal(a[end..], b, depth');
    }
  }

  lemma KnownIsLocal(c: MilestoneCodec, m: Message, field: int, wireType: nat, a: bytes, b: bytes, at: nat)
    requires KnownField(m, field) && 1 <= at <= |a|
    requires ReadKnown(c, m, field, wireType, a, at).Some?
    ensures ReadKnown(c, m, field, wireType, a + b, at) == ReadKnown(c, m, field, wireType, a, at)
  {
    hide ReadVarint, ReadDelimited, WithPayload;
    assert (a + b)[at..] == a[at..] + b;
    if field == 2 {
      ReadIsLocal(a[at..], b, 0);
    } else {
      DelimitedIsLocal(a[at..], b);
      var (from, to) := ReadDelimited(a[at..]).value;
      assert (a[at..] + b)[from..to] == a[at..][from..to];
    }
  }

  lemma FieldIsLocal(c: MilestoneCodec, m: Message, a: bytes, b: bytes)
    requires ReadField(c, m, a).Some?
    ensures ReadField(c, m, a + b) == ReadField(c, m, a)
  {
    hide ReadVarint, ReadKnown, Skip;
    ReadIsLocal(a, b, 0);
    var tag := ReadVarint(a, 0).value;
    var wire := tag.value % TWO_64;
    var field, wireType := ToInt32(wire / 8), wire % 8;
    if KnownField(m, field) {
      KnownIsLocal(c, m, field, wireType, a, b, tag.used);
    } else {
      SkipIsLocal(a, b, 0);
    }
  }

  /** Decoding a concatenation is decoding the second part into what the first part
      gave: encodings are merged by writing them one after the other. */
  lemma {:induction false} ConcatenationMerges(c: MilestoneCodec, m: Message, a: bytes, b: bytes)
    requires Decode(c, m, a).Some?
    ensures Decode(c, m, a + b) == Decode(c, Decode(c, m, a).value, b)
    decreases |a|
  {
    if a == [] {
      assert a + b == b;
    } else {
      hide ReadField;
      FieldIsLocal(c, m, a, b);
      var step := ReadField(c, m, a).value;
      assert (a + b)[step.used..] == a[step.used..] + b;
      ConcatenationMerges(c, step.message, a[step.used..], b);
    }
  }
}
