/** Base 128 varints: the size function, the backward-placed encoder and the reader of
    the generated vote-extension codec. */
module Varints {
  import opened Prelude

  /** The varint of a number: seven bits per byte, least significant group first, the
      high bit set on all bytes but the last. */
  function Varint(v: nat): bytes {
    if v < 128 then [v] else [v % 128 + 128] + Varint(v / 128)
  }

  // ----- sovVoteExt -----

  /** bits.Len64 */
  function BitLen(x: nat): nat {
    if x == 0 then 0 else 1 + BitLen(x / 2)
  }

  function Or1(x: nat): nat {
    if x % 2 == 0 then x + 1 else x
  }

  function Sov(x: nat): nat {
    (BitLen(Or1(x)) + 6) / 7
  }

  lemma {:induction false} BitLenShift(x: nat)
    requires x >= 128
    ensures BitLen(x) == 7 + BitLen(x / 128)
  {
    var a := x / 2; var b := a / 2; var c := b / 2; var d := c / 2; var e := d / 2; var f := e / 2; var g := f / 2;
    assert BitLen(x) == 1 + BitLen(a) && BitLen(a) == 1 + BitLen(b) && BitLen(b) == 1 + BitLen(c);
    assert BitLen(c) == 1 + BitLen(d) && BitLen(d) == 1 + BitLen(e) && BitLen(e) == 1 + BitLen(f) && BitLen(f) == 1 + BitLen(g);
    assert g == x / 128;
  }

  lemma {:induction false} BitLenSmall(x: nat, k: nat)
    requires x < Pow2(k)
    ensures BitLen(x) <= k
  {
    if x != 0 { BitLenSmall(x / 2, k - 1); }
  }

  function Pow2(k: nat): nat {
    if k == 0 then 1 else 2 * Pow2(k - 1)
  }

  lemma SovOfOneByte(v: nat)
    requires v < 128
    ensures Sov(v) == 1
  {
    assert Pow2(7) == 128;
    BitLenSmall(Or1(v), 7);
    assert BitLen(Or1(v)) >= 1;
  }

  lemma SovOfMore(v: nat)
    requires v >= 128
    ensures Sov(v) == 1 + Sov(v / 128)
  {
    hide BitLen;
    BitLenOr1(v);
    BitLenOr1(v / 128);
    BitLenShift(v);
  }

  /** sovVoteExt counts exactly the bytes of the varint. */
  lemma {:induction false} SovIsLength(v: nat)
    ensures Sov(v) == |Varint(v)|
  {
    hide Sov;
    if v < 128 {
      SovOfOneByte(v);
    } else {
      SovOfMore(v);
      SovIsLength(v / 128);
    }
  }

  lemma BitLenOr1(x: nat)
    requires x > 0
    ensures BitLen(Or1(x)) == BitLen(x)
  {
    assert Or1(x) / 2 == x / 2;
  }

  /** A number below 2^64 takes at most ten bytes. */
  lemma VarintAtMostTen(v: uint64)
    ensures 1 <= |Varint(v)| <= 10
  {
    VarintLength(v, 10);
  }

  function Pow128(k: nat): nat {
    if k == 0 then 1 else 128 * Pow128(k - 1)
  }

  lemma {:induction false} VarintLength(v: nat, k: nat)
    requires k > 0 && v < Pow128(k)
    ensures 1 <= |Varint(v)| <= k
  {
    if v >= 128 {
      VarintLength(v / 128, k - 1);
    }
  }

  // ----- encodeVarintVoteExt -----

  /** Writes the varint so that it ends right before `offset`, and returns where it starts. */
  method EncodeVarint(buf: array<byte>, offset: nat, v: uint64) returns (base: nat)
    requires Sov(v) <= offset <= buf.Length
    modifies buf
    ensures base == offset - Sov(v)
    ensures buf[base..offset] == Varint(v)
    ensures buf[..base] == old(buf[..base]) && buf[offset..] == old(buf[offset..])
  {
    hide Sov;
    SovIsLength(v);
    base := offset - Sov(v);
    var i := base;
    var rest: nat := v;
    while rest >= 128
      invariant base <= i < offset
      invariant |Varint(rest)| == offset - i
      invariant buf[base..i] + Varint(rest) == Varint(v)
      invariant buf[..base] == old(buf[..base]) && buf[offset..] == old(buf[offset..])
    {
      ghost var before := buf[base..i];
      buf[i] := rest % 128 + 128;
      assert buf[base..i] == before;
      assert buf[base..i + 1] == before + [rest % 128 + 128];
      assert Varint(rest) == [rest % 128 + 128] + Varint(rest / 128);
      assert (before + [rest % 128 + 128]) + Varint(rest / 128) == before + Varint(rest);
      rest := rest / 128;
      i := i + 1;
    }
    ghost var before := buf[base..i];
    buf[i] := rest;
    assert buf[base..i] == before;
    assert buf[base..offset] == before + [rest];
  }

  // ----- the reading loop -----

  /** The number read, before truncation to a machine width, and the bytes used. */
  datatype Read = Read(value: nat, used: nat)

  /** Reads one varint when `n` of its bytes have been read already. At most ten bytes
      may be used; running out of input or of bytes is an error. */
  function ReadVarint(data: bytes, n: nat): (r: Option<Read>)
    ensures r.Some? ==> 1 <= r.value.used <= |data| && n + r.value.used <= 10
  {
    if n >= 10 || data == [] then None
    else if data[0] < 128 then Some(Read(data[0], 1))
    else match ReadVarint(data[1..], n + 1)
      case None => None
      case Some(rest) => Some(Read(data[0] - 128 + 128 * rest.value, rest.used + 1))
  }

  /** What follows a varint does not affect how it is read. */
  lemma {:induction false} ReadIsLocal(a: bytes, b: bytes, n: nat)
    requires ReadVarint(a, n).Some?
    ensures ReadVarint(a + b, n) == ReadVarint(a, n)
  {
    assert (a + b)[0] == a[0];
    if a[0] >= 128 {
      assert (a + b)[1..] == a[1..] + b;
      ReadIsLocal(a[1..], b, n + 1);
    }
  }

  /** Reading back a written varint. */
  lemma {:induction false} ReadWhatWasWritten(v: nat, n: nat)
    requires n + |Varint(v)| <= 10
    ensures ReadVarint(Varint(v), n) == Some(Read(v, |Varint(v)|))
  {
    if v >= 128 {
      assert Varint(v)[1..] == Varint(v / 128);
      ReadWhatWasWritten(v / 128, n + 1);
    }
  }

  lemma ModAdd(x: int, y: int)
    ensures (x % TWO_64 + y) % TWO_64 == (x + y) % TWO_64
  {
  }

  /** Bitwise or. */
  function Or(a: nat, b: nat): nat {
    if a == 0 && b == 0 then 0
    else 2 * Or(a / 2, b / 2) + if a % 2 == 1 || b % 2 == 1 then 1 else 0
  }

  /** A left shift of a 64-bit word: what is shifted out is lost. */
  function ShiftLeft(x: nat, shift: nat): nat {
    (x * Pow2(shift)) % TWO_64
  }

  lemma {:induction false} OrZero(b: nat)
    ensures Or(0, b) == b
  {
    if b > 0 { OrZero(b / 2); }
  }

  /** Bits put above all bits of a word are added to it. */
  lemma {:induction false} OrAbove(word: nat, high: nat, k: nat)
    requires word < Pow2(k)
    ensures Or(word, high * Pow2(k)) == word + high * Pow2(k)
  {
    hide Or;
    if k == 0 {
      OrZero(high);
    } else {
      OrAbove(word / 2, high, k - 1);
      Doubled(high, Pow2(k - 1));
      OrEven(word, high * Pow2(k - 1));
    }
  }

  lemma Doubled(high: nat, p: nat)
    ensures high * (2 * p) == 2 * (high * p)
  {
  }

  lemma OrEven(a: nat, y: nat)
    ensures Or(a, 2 * y) == 2 * Or(a / 2, y) + a % 2
  {
  }

  /** The next group of seven bits added to the word, modulo its width. */
  function Collect(word: nat, low: nat, scale: nat): nat {
    (word + low * scale) % TWO_64
  }

  lemma PowersOfShifts()
    ensures Pow2(0) == 1 && Pow2(7) == 0x80 && Pow2(14) == 0x4000 && Pow2(21) == 0x20_0000 && Pow2(28) == 0x1000_0000
    ensures Pow2(35) == 0x8_0000_0000 && Pow2(42) == 0x400_0000_0000 && Pow2(49) == 0x2_0000_0000_0000
    ensures Pow2(56) == 0x100_0000_0000_0000 && Pow2(63) == TWO_63
  {
  }

  lemma ShiftHasRoom(shift: nat)
    requires shift < 63 && shift % 7 == 0
    ensures Pow2(shift + 7) == 128 * Pow2(shift) <= TWO_63
  {
    hide Pow2;
    PowersOfShifts();
    assert shift in {0, 7, 14, 21, 28, 35, 42, 49, 56};
  }

  lemma GroupFits(word: nat, low: nat, scale: nat)
    requires word < scale && low < 128 && 128 * scale <= TWO_63
    ensures (low * scale) % TWO_64 == low * scale && Collect(word, low, scale) == word + low * scale < 128 * scale
  {
    assert (127 - low) * scale >= 0;
    assert low * scale <= 127 * scale;
  }

  lemma LastGroup(word: nat, low: nat)
    requires word < TWO_63
    ensures (low * TWO_63) % TWO_64 == (low % 2) * TWO_63 && Collect(word, low, TWO_63) == word + (low % 2) * TWO_63
  {
    assert low == 2 * (low / 2) + low % 2;
  }

  /** The step of the reading loop is such an addition: the groups do not overlap. */
  lemma OrCollects(word: nat, low: nat, shift: nat)
    requires shift <= 63 && shift % 7 == 0 && word < Pow2(shift) && low < 128
    ensures Or(word, ShiftLeft(low, shift)) == Collect(word, low, Pow2(shift))
    ensures shift < 63 ==> Collect(word, low, Pow2(shift)) < Pow2(shift + 7) == 128 * Pow2(shift)
  {
    hide Or, Pow2, Collect;
    if shift == 63 {
      PowersOfShifts();
      LastGroup(word, low);
      OrAbove(word, low % 2, shift);
    } else {
      ShiftHasRoom(shift);
      GroupFits(word, low, Pow2(shift));
      OrAbove(word, low, shift);
    }
  }

  lemma GroupAdded(word: nat, scale: nat, low: nat, rest: nat)
    ensures (Collect(word, low, scale) + (128 * scale) * rest) % TWO_64 == (word + scale * (low + 128 * rest)) % TWO_64
  {
    ModAdd(word + low * scale, (128 * scale) * rest);
    assert scale * (low + 128 * rest) == low * scale + (128 * scale) * rest;
  }

  /** What is still to be read completes the word to the whole number. */
  ghost predicate Remaining(whole: Option<Read>, rest: Option<Read>, used: nat, word: nat, scale: nat) {
    && (whole.Some? <==> rest.Some?)
    && (whole.Some? ==>
          && whole.value.used == used + rest.value.used
          && (word + scale * rest.value.value) % TWO_64 == whole.value.value % TWO_64)
  }

  lemma RemainingStart(whole: Option<Read>)
    ensures Remaining(whole, whole, 0, 0, 1)
  {
  }

  lemma RemainingStep(whole: Option<Read>, data: bytes, used: nat, word: nat, scale: nat)
    requires used < 10 && data != [] && data[0] >= 128
    requires Remaining(whole, ReadVarint(data, used), used, word, scale)
    ensures Remaining(whole, ReadVarint(data[1..], used + 1), used + 1, Collect(word, data[0] % 128, scale), 128 * scale)
  {
    hide Collect;
    var rest := ReadVarint(data[1..], used + 1);
    if rest.Some? {
      GroupAdded(word, scale, data[0] % 128, rest.value.value);
    }
  }

  lemma RemainingLast(whole: Option<Read>, data: bytes, used: nat, word: nat, scale: nat)
    requires used < 10 && data != [] && data[0] < 128
    requires Remaining(whole, ReadVarint(data, used), used, word, scale)
    ensures whole.Some? && whole.value.used == used + 1 && whole.value.value % TWO_64 == Collect(word, data[0], scale)
  {
    assert scale * data[0] == data[0] * scale;
  }

  /** The reading loop of Unmarshal: shift by seven, stop at 64 bits. */
  method ReadVarintLoop(data: bytes, start: nat) returns (r: Option<Read>)
    requires start <= |data|
    ensures r.None? <==> ReadVarint(data[start..], 0).None?
    ensures r.Some? ==> r.value.used == ReadVarint(data[start..], 0).value.used
    ensures r.Some? ==> r.value.value == ReadVarint(data[start..], 0).value.value % TWO_64
  {
    hide Remaining, Collect, Or, ShiftLeft, Pow2;
    PowersOfShifts();
    var index := start;
    var shift := 0;
    var word: nat := 0;
    ghost var whole := ReadVarint(data[start..], 0);
    RemainingStart(whole);
    while true
      invariant start <= index <= |data| && shift == 7 * (index - start)
      invariant shift <= 63 ==> word < Pow2(shift)
      invariant shift <= 63 ==> Remaining(whole, ReadVarint(data[index..], index - start), index - start, word, Pow2(shift))
      invariant shift > 63 ==> whole.None?
      decreases |data| - index
    {
      if shift >= 64 {
        return None;
      }
      if index >= |data| {
        RemainingNone(whole, data[index..], index - start, word, Pow2(shift));
        return None;
      }
      var b := data[index];
      assert data[index..][1..] == data[index + 1..];
      OrCollects(word, b % 128, shift);
      if b < 128 {
        RemainingLast(whole, data[index..], index - start, word, Pow2(shift));
        return Some(Read(Or(word, ShiftLeft(b % 128, shift)), index + 1 - start));
      }
      RemainingStep(whole, data[index..], index - start, word, Pow2(shift));
      word := Or(word, ShiftLeft(b % 128, shift));
      index := index + 1;
      if shift == 63 {
        RemainingNone(whole, data[index..], index - start, word, 128 * Pow2(63));
      }
      shift := shift + 7;
    }
  }

  lemma RemainingNone(whole: Option<Read>, data: bytes, used: nat, word: nat, scale: nat)
    requires used >= 10 || data == []
    requires Remaining(whole, ReadVarint(data, used), used, word, scale)
    ensures whole.None?
  {
  }
}
