/** Unmarshal inverts Marshal, and ignores unknown fields wherever they stand. */
module CodecRoundTrip {
  import opened Prelude
  import opened Messages
  import opened Varints
  import opened WireCodec

  // ----- single records -----

  lemma Int64Survives(x: int64)
    ensures ToInt64(ToUint64(x)) == x
  {
  }

  lemma Int32Survives(x: int32)
    ensures ToInt32(ToUint64(x)) == x
  {
  }

  lemma WrittenVarint(v: uint64, rest: bytes)
    ensures ReadVarint(Varint(v) + rest, 0) == Some(Read(v, |Varint(v)|))
  {
    VarintAtMostTen(v);
    ReadWhatWasWritten(v, 0);
    ReadIsLocal(Varint(v), rest, 0);
  }

  lemma WrittenDelimited(payload: bytes)
    requires |payload| < TWO_63
    ensures ReadDelimited(Varint(|payload|) + payload) == Some((|Varint(|payload|)|, |Varint(|payload|)| + |payload|))
  {
    hide ReadVarint, Varint;
    WrittenVarint(|payload|, payload);
  }

  lemma TagOf(tag: byte, rest: bytes)
    requires tag < 128
    ensures ReadVarint([tag] + rest, 0) == Some(Read(tag, 1))
    ensures ([tag] + rest)[1..] == rest
  {
  }

  /** Behind a one-byte tag a known field is read by its number. */
  lemma KnownFieldRead(c: MilestoneCodec, m: Message, tag: byte, body: bytes)
    requires tag < 128 && tag % 8 != 4 && KnownField(m, tag / 8)
    ensures ReadField(c, m, [tag] + body) == ReadKnown(c, m, tag / 8, tag % 8, [tag] + body, 1)
  {
    hide ReadVarint, ReadKnown, ToInt32, Skip;
    TagOf(tag, body);
    TagParts(tag / 8, tag % 8);
    assert 8 * (tag / 8) + tag % 8 == tag;
  }

  lemma DelimitedRead(c: MilestoneCodec, m: Message, field: int, payload: bytes)
    requires KnownField(m, field) && field != 2 && |payload| < TWO_63
    ensures
      var data := Delimited(8 * field + 2, payload);
      ReadField(c, m, data) == match WithPayload(c, m, field, payload)
        case None => None
        case Some(next) => Some(Step(next, |data|))
  {
    hide ReadVarint, Varint, ReadDelimited, WithPayload, ReadField;
    var tag: byte := 8 * field + 2;
    var body := Varint(|payload|) + payload;
    assert Delimited(tag, payload) == [tag] + body && ([tag] + body)[1..] == body;
    assert tag / 8 == field && tag % 8 == 2;
    KnownFieldRead(c, m, tag, body);
    WrittenDelimited(payload);
    var (from, to) := ReadDelimited(body).value;
    assert body[from..to] == payload && to == |body|;
  }

  /** A length-delimited record sets its field and is used up. */
  lemma DelimitedRecord(c: MilestoneCodec, m: Message, field: int, payload: bytes)
    requires KnownField(m, field) && field != 2 && |payload| < TWO_63
    ensures Decode(c, m, Delimited(8 * field + 2, payload)) == WithPayload(c, m, field, payload)
  {
    hide ReadField, WithPayload;
    DelimitedRead(c, m, field, payload);
    var data := Delimited(8 * field + 2, payload);
    if WithPayload(c, m, field, payload).Some? {
      OneField(c, m, data, WithPayload(c, m, field, payload).value);
    }
  }

  /** A varint record sets field 2. */
  lemma NumberRecord(c: MilestoneCodec, m: Message, value: uint64)
    ensures Decode(c, m, [0x10] + Varint(value)) == Some(WithNumber(m, value))
  {
    hide ReadVarint, Varint;
    var data := [0x10] + Varint(value);
    TagOf(0x10, Varint(value));
    WrittenVarint(value, []);
    assert Varint(value) + [] == Varint(value);
    assert ToInt32(0x10 / 8) == 2 && 0x10 % 8 == 0;
    assert ReadField(c, m, data) == Some(Step(WithNumber(m, value), |data|));
    assert data[|data|..] == [];
    assert Decode(c, WithNumber(m, value), []) == Some(WithNumber(m, value));
  }

  // ----- round trips -----

  /** An empty slice is not written, so it comes back as nil. */
  function NilIfEmpty(slice: Option<bytes>): Option<bytes> {
    if |Raw(slice)| > 0 then slice else None
  }

  function NormalResponse(r: SideTxResponse): SideTxResponse {
    r.(txHash := NilIfEmpty(r.txHash))
  }

  function NormalResponses(rs: seq<SideTxResponse>): seq<SideTxResponse> {
    if rs == [] then [] else [NormalResponse(rs[0])] + NormalResponses(rs[1..])
  }

  function Normal(v: VoteExtension): VoteExtension {
    v.(blockHash := NilIfEmpty(v.blockHash), sideTxResponses := NormalResponses(v.sideTxResponses))
  }

  /** Decoding into `m` succeeds and gives `out`. */
  ghost predicate Yields(c: MilestoneCodec, m: Message, data: bytes, out: Message) {
    Decode(c, m, data) == Some(out)
  }

  lemma Then(c: MilestoneCodec, m: Message, a: bytes, mid: Message, b: bytes, out: Message)
    requires Yields(c, m, a, mid) && Yields(c, mid, b, out)
    ensures Yields(c, m, a + b, out)
  {
    hide Decode;
    ConcatenationMerges(c, m, a, b);
  }

  lemma Nothing(c: MilestoneCodec, m: Message)
    ensures Yields(c, m, [], m)
  {
  }

  lemma ResponseRoundTrip(c: MilestoneCodec, r: SideTxResponse)
    requires |EncodeResponse(r)| < TWO_63
    ensures Decode(c, FRESH_RESPONSE, EncodeResponse(r)) == Some(Response(NormalResponse(r)))
  {
    hide Decode, Varint;
    var hash, result := Raw(r.txHash), OptionalNumber(r.result);
    var first := OptionalBytes(0x0a, hash);
    var mid := Response(SideTxResponse(NilIfEmpty(r.txHash), 0));
    assert Yields(c, FRESH_RESPONSE, first, mid) by {
      Nothing(c, FRESH_RESPONSE);
      if |hash| > 0 { DelimitedRecord(c, FRESH_RESPONSE, 1, hash); }
    }
    assert Yields(c, mid, result, Response(NormalResponse(r))) by {
      Nothing(c, mid);
      if r.result != 0 {
        NumberRecord(c, mid, ToUint64(r.result));
        Int32Survives(r.result);
      }
    }
    Then(c, FRESH_RESPONSE, first, mid, result, Response(NormalResponse(r)));
  }

  lemma ResponseRecord(c: MilestoneCodec, e: VoteExtension, r: SideTxResponse)
    requires |EncodeResponse(r)| < TWO_63
    ensures Yields(c, Extension(e), Delimited(0x1a, EncodeResponse(r)),
                   Extension(e.(sideTxResponses := e.sideTxResponses + [NormalResponse(r)])))
  {
    hide Decode, Varint, EncodeResponse;
    DelimitedRecord(c, Extension(e), 3, EncodeResponse(r));
    ResponseRoundTrip(c, r);
  }

  function Appended(e: VoteExtension, rs: seq<SideTxResponse>): Message {
    Extension(e.(sideTxResponses := e.sideTxResponses + rs))
  }

  lemma ResponsesOneMore(c: MilestoneCodec, e: VoteExtension, r: SideTxResponse, rest: bytes, more: seq<SideTxResponse>)
    requires |EncodeResponse(r)| < TWO_63
    requires Yields(c, Appended(e, [NormalResponse(r)]), rest, Appended(Appended(e, [NormalResponse(r)]).extension, more))
    ensures Yields(c, Extension(e), Delimited(0x1a, EncodeResponse(r)) + rest, Appended(e, [NormalResponse(r)] + more))
  {
    hide Yields, EncodeResponse, Delimited, NormalResponse;
    ResponseRecord(c, e, r);
    var mid := Appended(e, [NormalResponse(r)]);
    assert mid.extension.sideTxResponses + more == e.sideTxResponses + ([NormalResponse(r)] + more);
    Then(c, Extension(e), Delimited(0x1a, EncodeResponse(r)), mid, rest, Appended(e, [NormalResponse(r)] + more));
  }

  /** The repeated field is appended to, one record at a time. */
  lemma {:induction false} ResponsesRoundTrip(c: MilestoneCodec, e: VoteExtension, rs: seq<SideTxResponse>)
    requires |EncodeResponses(rs)| < TWO_63
    ensures Yields(c, Extension(e), EncodeResponses(rs), Appended(e, NormalResponses(rs)))
    decreases rs
  {
    hide Decode, EncodeResponse, Varint, NormalResponse;
    if rs == [] {
      Nothing(c, Extension(e));
      assert e.sideTxResponses + [] == e.sideTxResponses;
    } else {
      assert |EncodeResponse(rs[0])| <= |Delimited(0x1a, EncodeResponse(rs[0]))| <= |EncodeResponses(rs)|;
      ResponsesRoundTrip(c, Appended(e, [NormalResponse(rs[0])]).extension, rs[1..]);
      ResponsesOneMore(c, e, rs[0], EncodeResponses(rs[1..]), NormalResponses(rs[1..]));
    }
  }

  /** Unmarshal of what Marshal wrote gives the original value, for every height and every
      vote, negative ones included, up to nil for an empty slice. */
  lemma ExtensionRoundTrip(c: MilestoneCodec, v: VoteExtension)
    requires MilestoneRoundTrips(c)
    requires |EncodeExtension(c, v)| < TWO_63
    ensures Decode(c, FRESH_EXTENSION, EncodeExtension(c, v)) == Some(Extension(Normal(v)))
  {
    hide Decode, Varint;
    var blank := FRESH_EXTENSION.extension;
    var withHash := blank.(blockHash := NilIfEmpty(v.blockHash));
    var withHeight := withHash.(height := v.height);
    var withResponses := withHeight.(sideTxResponses := NormalResponses(v.sideTxResponses));
    var a, b, r, p := OptionalBytes(0x0a, Raw(v.blockHash)), OptionalNumber(v.height), EncodeResponses(v.sideTxResponses), EncodeMilestone(c, v);
    assert EncodeExtension(c, v) == a + b + r + p;
    assert Yields(c, FRESH_EXTENSION, a, Extension(withHash)) by {
      Nothing(c, FRESH_EXTENSION);
      if |Raw(v.blockHash)| > 0 { DelimitedRecord(c, FRESH_EXTENSION, 1, Raw(v.blockHash)); }
    }
    assert Yields(c, Extension(withHash), b, Extension(withHeight)) by {
      Nothing(c, Extension(withHash));
      if v.height != 0 {
        NumberRecord(c, Extension(withHash), ToUint64(v.height));
        Int64Survives(v.height);
      }
    }
    ResponsesRoundTrip(c, withHeight, v.sideTxResponses);
    assert Appended(withHeight, NormalResponses(v.sideTxResponses)) == Extension(withResponses);
    assert [] + NormalResponses(v.sideTxResponses) == NormalResponses(v.sideTxResponses);
    assert Yields(c, Extension(withResponses), p, Extension(Normal(v))) by {
      Nothing(c, Extension(withResponses));
      if v.milestone.Some? { DelimitedRecord(c, Extension(withResponses), 4, c.encode(v.milestone.value)); }
    }
    Then(c, FRESH_EXTENSION, a, Extension(withHash), b, Extension(withHeight));
    Then(c, FRESH_EXTENSION, a + b, Extension(withHeight), r, Extension(withResponses));
    Then(c, FRESH_EXTENSION, a + b + r, Extension(withResponses), p, Extension(Normal(v)));
  }

  /** The value comes back exactly if and only if it holds no empty slice that is not nil. */
  lemma {:induction false} NormalResponsesSame(rs: seq<SideTxResponse>)
    ensures |NormalResponses(rs)| == |rs|
    ensures NormalResponses(rs) == rs <==> forall r :: r in rs ==> r.txHash != Some([])
  {
    if rs != [] {
      NormalResponsesSame(rs[1..]);
      assert rs == [rs[0]] + rs[1..];
      assert NormalResponses(rs)[1..] == NormalResponses(rs[1..]);
      assert NormalResponses(rs)[0] == NormalResponse(rs[0]);
      assert NormalResponse(rs[0]) == rs[0] <==> rs[0].txHash != Some([]);
    }
  }

  lemma ExactRoundTrip(c: MilestoneCodec, v: VoteExtension)
    requires MilestoneRoundTrips(c)
    requires |EncodeExtension(c, v)| < TWO_63
    ensures Decode(c, FRESH_EXTENSION, EncodeExtension(c, v)) == Some(Extension(v))
       <==> v.blockHash != Some([]) && forall r :: r in v.sideTxResponses ==> r.txHash != Some([])
  {
    hide Decode;
    ExtensionRoundTrip(c, v);
    NormalResponsesSame(v.sideTxResponses);
  }

  // ----- unknown fields -----

  /** A well-formed field, with its number. */
  datatype Field =
    | VarintField(number: nat, value: uint64)
    | Fixed64Field(number: nat, payload: bytes)
    | BytesField(number: nat, payload: bytes)
    | GroupField(number: nat, fields: seq<Field>)
    | Fixed32Field(number: nat, payload: bytes)

  predicate WellFormed(f: Field) {
    && 1 <= f.number < 0x2000_0000
    && match f {
      case VarintField(_, _) => true
      case Fixed64Field(_, payload) => |payload| == 8
      case BytesField(_, payload) => |payload| < TWO_63
      case GroupField(_, fields) => forall g :: g in fields ==> WellFormed(g)
      case Fixed32Field(_, payload) => |payload| == 4
    }
  }

  function WireType(f: Field): nat {
    match f
    case VarintField(_, _) => 0
    case Fixed64Field(_, _) => 1
    case BytesField(_, _) => 2
    case GroupField(_, _) => 3
    case Fixed32Field(_, _) => 5
  }

  function Render(f: Field): bytes
    decreases f, 1
  {
    Varint(8 * f.number + WireType(f)) + RenderPayload(f)
  }

  function RenderPayload(f: Field): bytes
    decreases f, 0
  {
    match f
    case VarintField(_, value) => Varint(value)
    case Fixed64Field(_, payload) => payload
    case BytesField(_, payload) => Varint(|payload|) + payload
    case GroupField(number, fields) => RenderAll(fields) + Varint(8 * number + 4)
    case Fixed32Field(_, payload) => payload
  }

  function RenderAll(fs: seq<Field>): bytes
    decreases fs, 2
  {
    if fs == [] then [] else Render(fs[0]) + RenderAll(fs[1..])
  }

  /** What remains to be skipped once `n` bytes are done: nothing if no group is open. */
  function After(n: nat, rest: bytes, depth: nat): Option<nat> {
    if depth == 0 then Some(n)
    else match Skip(rest, depth)
      case None => None
      case Some(k) => Some(n + k)
  }

  /** After a written tag, the payload decides. */
  lemma SkipTag(number: nat, wireType: nat, data: bytes, depth: nat)
    requires number < 0x2000_0000 && wireType < 8
    ensures var tag := Varint(8 * number + wireType);
      match SkipPayload(wireType, data, depth)
      case None => Skip(tag + data, depth).None?
      case Some((used, depth')) =>
        Skip(tag + data, depth) == After(|tag| + used, data[used..], depth')
  {
    hide ReadVarint, Varint, SkipPayload, ReadDelimited;
    var tag := Varint(8 * number + wireType);
    WrittenVarint(8 * number + wireType, data);
    assert (tag + data)[|tag|..] == data;
    TagParts(number, wireType);
    match SkipPayload(wireType, data, depth) {
      case None =>
      case Some((used, _)) => assert (tag + data)[|tag| + used..] == data[used..];
    }
  }

  lemma ScalarPayload(f: Field, rest: bytes, depth: nat)
    requires WellFormed(f) && !f.GroupField?
    ensures SkipPayload(WireType(f), RenderPayload(f) + rest, depth) == Some((|RenderPayload(f)|, depth))
  {
    hide ReadVarint, Varint, ReadDelimited;
    match f {
      case VarintField(_, value) => WrittenVarint(value, rest);
      case BytesField(_, payload) =>
        WrittenDelimited(payload);
        DelimitedIsLocal(Varint(|payload|) + payload, rest);
      case _ =>
    }
  }

  /** skipVoteExt skips exactly one well-formed field, groups nested to any depth included,
      and with groups open goes on behind it. */
  lemma {:induction false} SkipsField(f: Field, rest: bytes, depth: nat)
    requires WellFormed(f)
    ensures Skip(Render(f) + rest, depth) == After(|Render(f)|, rest, depth)
    decreases f, 1
  {
    hide Varint, Skip, SkipPayload;
    var tag := Varint(8 * f.number + WireType(f));
    var body := RenderPayload(f);
    assert Render(f) + rest == tag + (body + rest);
    SkipTag(f.number, WireType(f), body + rest, depth);
    if f.GroupField? {
      SkipsGroup(f, rest, depth);
    } else {
      ScalarPayload(f, rest, depth);
      assert (body + rest)[|body|..] == rest;
    }
  }

  lemma SkipGroupStart(number: nat, data: bytes, depth: nat)
    requires number < 0x2000_0000
    ensures Skip(Varint(8 * number + 3) + data, depth) == After(|Varint(8 * number + 3)|, data, depth + 1)
  {
    hide Skip, Varint, ReadVarint;
    SkipTag(number, 3, data, depth);
    assert data[0..] == data;
  }

  lemma SkipGroupEnd(number: nat, data: bytes, depth: nat)
    requires number < 0x2000_0000
    ensures Skip(Varint(8 * number + 4) + data, depth + 1) == After(|Varint(8 * number + 4)|, data, depth)
  {
    hide Skip, Varint, ReadVarint;
    SkipTag(number, 4, data, depth + 1);
    assert data[0..] == data;
  }

  lemma {:induction false} SkipsGroup(f: Field, rest: bytes, depth: nat)
    requires WellFormed(f) && f.GroupField?
    ensures Skip(Render(f) + rest, depth) == After(|Render(f)|, rest, depth)
    decreases f, 0
  {
    hide Varint, Skip, RenderAll;
    var tag, end, inner := Varint(8 * f.number + 3), Varint(8 * f.number + 4), RenderAll(f.fields);
    assert Render(f) == tag + (inner + end);
    assert Render(f) + rest == tag + (inner + (end + rest));
    SkipGroupStart(f.number, inner + (end + rest), depth);
    SkipsFields(f.fields, end + rest, depth + 1);
    SkipGroupEnd(f.number, rest, depth);
  }

  lemma {:induction false} SkipsFields(fs: seq<Field>, rest: bytes, depth: nat)
    requires forall f :: f in fs ==> WellFormed(f)
    requires depth > 0
    ensures Skip(RenderAll(fs) + rest, depth) == After(|RenderAll(fs)|, rest, depth)
    decreases fs, 2
  {
    hide Skip, Render;
    if fs == [] {
      assert RenderAll(fs) + rest == rest;
    } else {
      var others := RenderAll(fs[1..]);
      assert RenderAll(fs) + rest == Render(fs[0]) + (others + rest);
      SkipsField(fs[0], others + rest, depth);
      SkipsFields(fs[1..], rest, depth);
    }
  }

  lemma TagParts(number: nat, wireType: nat)
    requires number < 0x2000_0000 && wireType < 8
    ensures
      var wire := (8 * number + wireType) % TWO_64;
      ToInt32(wire / 8) == number && wire % 8 == wireType && (8 * number + wireType) % 8 == wireType
  {
  }

  /** An input that is one field decodes to what that field makes of the message. */
  lemma OneField(c: MilestoneCodec, m: Message, data: bytes, next: Message)
    requires data != [] && ReadField(c, m, data) == Some(Step(next, |data|))
    ensures Yields(c, m, data, next)
  {
    hide ReadField;
    assert data[|data|..] == [];
    assert Decode(c, next, []) == Some(next);
  }

  lemma UnknownFieldRead(c: MilestoneCodec, m: Message, f: Field)
    requires WellFormed(f) && !KnownField(m, f.number)
    ensures Render(f) != [] && ReadField(c, m, Render(f)) == Some(Step(m, |Render(f)|))
  {
    hide Varint, Skip, ReadVarint, RenderPayload, ToInt32, ReadKnown;
    var data := Render(f);
    WrittenVarint(8 * f.number + WireType(f), RenderPayload(f));
    TagParts(f.number, WireType(f));
    assert data + [] == data;
    SkipsField(f, [], 0);
  }

  /** A well-formed field of unknown number decodes to nothing. */
  lemma UnknownFieldIsInert(c: MilestoneCodec, m: Message, f: Field)
    requires WellFormed(f) && !KnownField(m, f.number)
    ensures Yields(c, m, Render(f), m)
  {
    hide Render, Yields, ReadField;
    UnknownFieldRead(c, m, f);
    OneField(c, m, Render(f), m);
  }

  /** Forward compatibility: an unknown field behind any decodable prefix, whatever
      follows it, leaves the result unchanged. */
  lemma UnknownFieldIgnored(c: MilestoneCodec, m: Message, a: bytes, f: Field, b: bytes)
    requires WellFormed(f) && !KnownField(m, f.number)
    requires Decode(c, m, a).Some?
    ensures Decode(c, m, a + Render(f) + b) == Decode(c, m, a + b)
  {
    hide Decode, Render, KnownField;
    var mid := Decode(c, m, a).value;
    KnownFieldByKind(m, mid, f.number);
    UnknownFieldIsInert(c, mid, f);
    Then(c, m, a, mid, Render(f), mid);
    ConcatenationMerges(c, m, a + Render(f), b);
    ConcatenationMerges(c, m, a, b);
  }

  lemma KnownFieldByKind(m: Message, m': Message, field: int)
    requires m.Response? == m'.Response?
    ensures KnownField(m, field) <==> KnownField(m', field)
  {
  }

  // ----- the encoding in terms of fields -----

  /** The fields of a response: hash 1, result 2. */
  function FieldsOfResponse(r: SideTxResponse): seq<Field>
    requires |Raw(r.txHash)| < TWO_63
  {
    (if Raw(r.txHash) != [] then [BytesField(1, Raw(r.txHash))] else [])
    + (if r.result != 0 then [VarintField(2, ToUint64(r.result))] else [])
  }

  /** The responses, each in a field 3. */
  function ResponseFields(rs: seq<SideTxResponse>): seq<Field> {
    if rs == [] then [] else [BytesField(3, EncodeResponse(rs[0]))] + ResponseFields(rs[1..])
  }

  /** The fields of an extension: block hash 1, height 2, responses 3, milestone 4. */
  function FieldsOfExtension(c: MilestoneCodec, v: VoteExtension): seq<Field> {
    (if Raw(v.blockHash) != [] then [BytesField(1, Raw(v.blockHash))] else [])
    + (if v.height != 0 then [VarintField(2, ToUint64(v.height))] else [])
    + ResponseFields(v.sideTxResponses)
    + (if v.milestone.Some? then [BytesField(4, c.encode(v.milestone.value))] else [])
  }

  lemma RenderOne(f: Field)
    ensures RenderAll([f]) == Render(f)
  {
    assert [f][1..] == [] && RenderAll([]) == [];
  }

  lemma {:induction false} RenderConcat(a: seq<Field>, b: seq<Field>)
    ensures RenderAll(a + b) == RenderAll(a) + RenderAll(b)
    decreases |a|
  {
    hide Render;
    if a == [] {
      assert a + b == b;
    } else {
      assert (a + b)[1..] == a[1..] + b;
      RenderConcat(a[1..], b);
    }
  }

  /** A tag byte is the varint of eight times the field number plus the wire type. */
  lemma DelimitedIsField(number: nat, payload: bytes)
    requires 1 <= number < 16
    ensures Delimited(8 * number + 2, payload) == Render(BytesField(number, payload))
  {
    assert Varint(8 * number + 2) == [8 * number + 2];
  }

  lemma NumberIsField(x: int64)
    requires x != 0
    ensures OptionalNumber(x) == Render(VarintField(2, ToUint64(x)))
  {
    assert Varint(16) == [0x10];
  }

  lemma {:induction false} ResponsesAreFields(rs: seq<SideTxResponse>)
    ensures EncodeResponses(rs) == RenderAll(ResponseFields(rs))
  {
    hide Render, Delimited, EncodeResponse;
    if rs != [] {
      DelimitedIsField(3, EncodeResponse(rs[0]));
      RenderOne(BytesField(3, EncodeResponse(rs[0])));
      RenderConcat([BytesField(3, EncodeResponse(rs[0]))], ResponseFields(rs[1..]));
      ResponsesAreFields(rs[1..]);
    }
  }

  lemma OptionalBytesAreFields(number: nat, payload: bytes)
    requires 1 <= number < 16
    ensures OptionalBytes(8 * number + 2, payload) == RenderAll(if payload != [] then [BytesField(number, payload)] else [])
  {
    hide Render, Delimited;
    DelimitedIsField(number, payload);
    RenderOne(BytesField(number, payload));
  }

  lemma OptionalNumbersAreFields(x: int64)
    ensures OptionalNumber(x) == RenderAll(if x != 0 then [VarintField(2, ToUint64(x))] else [])
  {
    hide Render;
    if x != 0 {
      NumberIsField(x);
      RenderOne(VarintField(2, ToUint64(x)));
    }
  }

  /** What is written are the fields of the message, numbered as in its definition, in order,
      each without a value left out. */
  lemma ResponseIsFields(r: SideTxResponse)
    requires |Raw(r.txHash)| < TWO_63
    ensures EncodeResponse(r) == RenderAll(FieldsOfResponse(r))
  {
    hide OptionalBytes, OptionalNumber, RenderAll;
    OptionalBytesAreFields(1, Raw(r.txHash));
    OptionalNumbersAreFields(r.result);
    RenderConcat(if Raw(r.txHash) != [] then [BytesField(1, Raw(r.txHash))] else [],
                 if r.result != 0 then [VarintField(2, ToUint64(r.result))] else []);
  }

  lemma MilestoneIsField(c: MilestoneCodec, v: VoteExtension)
    ensures EncodeMilestone(c, v) == RenderAll(if v.milestone.Some? then [BytesField(4, c.encode(v.milestone.value))] else [])
  {
    hide Render, Delimited;
    if v.milestone.Some? {
      DelimitedIsField(4, c.encode(v.milestone.value));
      RenderOne(BytesField(4, c.encode(v.milestone.value)));
    }
  }

  lemma ExtensionIsFields(c: MilestoneCodec, v: VoteExtension)
    ensures EncodeExtension(c, v) == RenderAll(FieldsOfExtension(c, v))
  {
    hide OptionalBytes, OptionalNumber, RenderAll, EncodeMilestone, EncodeResponses, ResponseFields;
    var hash := if Raw(v.blockHash) != [] then [BytesField(1, Raw(v.blockHash))] else [];
    var height := if v.height != 0 then [VarintField(2, ToUint64(v.height))] else [];
    var milestone := if v.milestone.Some? then [BytesField(4, c.encode(v.milestone.value))] else [];
    OptionalBytesAreFields(1, Raw(v.blockHash));
    OptionalNumbersAreFields(v.height);
    ResponsesAreFields(v.sideTxResponses);
    MilestoneIsField(c, v);
    RenderConcat(hash, height);
    RenderConcat(hash + height, ResponseFields(v.sideTxResponses));
    RenderConcat(hash + height + ResponseFields(v.sideTxResponses), milestone);
  }

  /** A known field of the wrong wire type is an error, whatever follows. */
  lemma WrongWireTypeRejected(c: MilestoneCodec, m: Message, f: Field, rest: bytes)
    requires WellFormed(f) && KnownField(m, f.number) && WireType(f) != (if f.number == 2 then 0 else 2)
    ensures Decode(c, m, Render(f) + rest).None?
  {
    hide Varint, Skip, ReadVarint, RenderPayload, ToInt32, ReadDelimited, WithPayload;
    var tag := Varint(8 * f.number + WireType(f));
    assert Render(f) + rest == tag + (RenderPayload(f) + rest);
    WrittenVarint(8 * f.number + WireType(f), RenderPayload(f) + rest);
    TagParts(f.number, WireType(f));
    var data := tag + (RenderPayload(f) + rest);
    assert data != [] && ReadField(c, m, data) == ReadKnown(c, m, f.number, WireType(f), data, |tag|);
    assert ReadKnown(c, m, f.number, WireType(f), data, |tag|).None?;
  }

  /** Of a field that stands twice the last value counts, a response is added to those before,
      and a milestone is merged into the one before, or into an empty one. */
  lemma RepeatedFields(c: MilestoneCodec, e: VoteExtension, payload: bytes, value: uint64)
    requires |payload| < TWO_63
    ensures Decode(c, Extension(e), Delimited(0x0a, payload)) == Some(Extension(e.(blockHash := Some(payload))))
    ensures Decode(c, Extension(e), [0x10] + Varint(value)) == Some(Extension(e.(height := ToInt64(value))))
    ensures
      var inner := Decode(c, FRESH_RESPONSE, payload);
      Decode(c, Extension(e), Delimited(0x1a, payload)) == if inner.None? then None
        else Some(Extension(e.(sideTxResponses := e.sideTxResponses + [inner.value.response])))
    ensures
      var merged := c.merge(if e.milestone.Some? then e.milestone.value else c.empty, payload);
      Decode(c, Extension(e), Delimited(0x22, payload)) == if merged.None? then None
        else Some(Extension(e.(milestone := merged)))
  {
    hide Decode;
    DelimitedRecord(c, Extension(e), 1, payload);
    DelimitedRecord(c, Extension(e), 3, payload);
    DelimitedRecord(c, Extension(e), 4, payload);
    NumberRecord(c, Extension(e), value);
  }

  lemma RepeatedResponseFields(c: MilestoneCodec, r: SideTxResponse, payload: bytes, value: uint64)
    requires |payload| < TWO_63
    ensures Decode(c, Response(r), Delimited(0x0a, payload)) == Some(Response(r.(txHash := Some(payload))))
    ensures Decode(c, Response(r), [0x10] + Varint(value)) == Some(Response(r.(result := ToInt32(value))))
  {
    hide Decode;
    DelimitedRecord(c, Response(r), 1, payload);
    NumberRecord(c, Response(r), value);
  }
}
