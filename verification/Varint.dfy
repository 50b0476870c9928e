/** Base 128 varints of the Protocol Buffers encoding, as the generated code of
    x/dkim writes, sizes and reads them. */
module Varint {
  import opened Options
  import opened Words

  datatype WireError =
    | IntOverflow
    | UnexpectedEof
    | InvalidLength
    | EndGroupForNonGroup
    | IllegalTag
    | WrongWireType
    | IllegalWireType
    | UnexpectedEndOfGroup

  /** A varint read from the front of a byte string, and how many bytes it took. */
  datatype VarintResult = VarintOk(value: Uint64, size: nat) | VarintErr(error: WireError)

  const MAX_VARINT_LEN := 10

  /** The number the base 128 groups of `bs` stand for, least significant group first. */
  function GroupValue(bs: ByteString): (n: nat) {
    if bs == [] then 0 else bs[0] % 128 + 128 * GroupValue(bs[1..])
  }

  /** How many bytes at the front of `s` have the continuation bit set. */
  function ContinuationRun(s: ByteString): (k: nat)
    ensures k <= |s|
    ensures forall j :: 0 <= j < k ==> s[j] >= 128
    ensures k < |s| ==> s[k] < 128
  {
    if s == [] || s[0] < 128 then 0 else 1 + ContinuationRun(s[1..])
  }

  /** What a varint at the front of `s` means: its groups end at the first byte without
      the continuation bit, at most ten bytes are looked at, and the value is kept
      modulo 2^64. */
  function ParseVarint(s: ByteString): (r: VarintResult)
    ensures r.VarintOk? ==> 0 < r.size <= |s| && r.size <= MAX_VARINT_LEN
  {
    var k := ContinuationRun(s);
    if k >= MAX_VARINT_LEN then VarintErr(IntOverflow)
    else if k == |s| then VarintErr(UnexpectedEof)
    else VarintOk(GroupValue(s[..k + 1]) % TWO64, k + 1)
  }

  /** The canonical varint of `v`. */
  function EncodeVarint(v: nat): (bs: ByteString)
    ensures |bs| > 0
  {
    if v < 128 then [v] else [v % 128 + 128] + EncodeVarint(v / 128)
  }

  /** Closed form used to size a varint before it is written. */
  function Sov(x: nat): (n: nat) {
    (BitLength(BitOr(x, 1)) + 6) / 7
  }

  // ---------------------------------------------------------------- sizes

  lemma BitOrOne(x: nat)
    ensures BitOr(x, 1) == if x % 2 == 1 then x else x + 1
  {
    if x != 0 {
      assert BitOr(x, 1) == 1 + 2 * BitOr(x / 2, 0);
    }
  }

  lemma BitLengthHalf(x: nat)
    requires x > 0
    ensures BitLength(x) == 1 + BitLength(x / 2)
  {
  }

  lemma BitLengthDrop3(x: nat)
    requires x >= 8
    ensures BitLength(x) == 3 + BitLength(x / 8)
  {
    hide BitLength;
    BitLengthHalf(x);
    BitLengthHalf(x / 2);
    BitLengthHalf(x / 2 / 2);
    assert x / 2 / 2 / 2 == x / 8;
  }

  lemma BitLengthDrop7(x: nat)
    requires x >= 128
    ensures BitLength(x) == 7 + BitLength(x / 128)
  {
    hide BitLength;
    BitLengthDrop3(x);
    BitLengthDrop3(x / 8);
    BitLengthHalf(x / 8 / 8);
    assert x / 8 / 8 / 2 == x / 128;
  }

  /** The forced low bit only matters for zero. */
  lemma BitLengthOrOne(x: nat)
    requires x > 0
    ensures BitLength(BitOr(x, 1)) == BitLength(x)
  {
    BitOrOne(x);
    assert BitOr(x, 1) / 2 == x / 2;
  }

  lemma {:induction false} BitLengthBound(x: nat, k: nat)
    requires x < Pow2(k)
    ensures BitLength(x) <= k
  {
    if x != 0 {
      BitLengthBound(x / 2, k - 1);
    }
  }

  /** The closed form is exactly the number of bytes the writer emits. */
  lemma {:induction false} SovIsEncodedLength(v: nat)
    ensures Sov(v) == |EncodeVarint(v)|
    decreases v
  {
    BitOrOne(v);
    if v < 128 {
      assert Pow2(7) == 128;
      BitLengthBound(BitOr(v, 1), 7);
    } else {
      SovIsEncodedLength(v / 128);
      BitLengthDrop7(v);
      BitLengthOrOne(v);
      BitLengthOrOne(v / 128);
    }
  }

  lemma {:induction false} EncodedLengthBound(v: nat, k: nat)
    requires v < Pow2(7 * k) && k > 0
    ensures 1 <= |EncodeVarint(v)| <= k
    decreases k
  {
    if v >= 128 {
      Pow2Adds(7, 7 * (k - 1));
      assert Pow2(7) == 128;
      assert k != 1;
      assert v / 128 < Pow2(7 * (k - 1));
      EncodedLengthBound(v / 128, k - 1);
    }
  }

  lemma Pow2At64()
    ensures Pow2(32) == TWO32 && Pow2(63) == TWO63 && Pow2(64) == TWO64
  {
    hide Pow2;
    Pow2At8();
    Pow2Double(8, 0x100);
    Pow2Double(16, 0x1_0000);
    Pow2Double(32, TWO32);
    Pow2Half(64);
  }

  /** Every 64-bit value takes between one and ten bytes. */
  lemma EncodedLengthIs1To10(v: Uint64)
    ensures 1 <= |EncodeVarint(v)| <= MAX_VARINT_LEN
  {
    Pow2At64();
    Pow2Adds(64, 6);
    EncodedLengthBound(v, 10);
  }

  // ---------------------------------------------------------------- reading back

  lemma EncodeUnfold(v: nat)
    ensures EncodeVarint(v) == if v < 128 then [v] else [v % 128 + 128] + EncodeVarint(v / 128)
  {
  }

  /** Shape and value of an encoded varint: continuation bits on all bytes but the
      last, and groups that spell `v`. */
  lemma {:induction false} EncodedShape(v: nat, rest: ByteString)
    ensures GroupValue(EncodeVarint(v)) == v
    ensures ContinuationRun(EncodeVarint(v) + rest) == |EncodeVarint(v)| - 1
    decreases v
  {
    hide EncodeVarint;
    EncodeUnfold(v);
    var bs := EncodeVarint(v);
    if v < 128 {
      assert bs[1..] == [] && (bs + rest)[0] == v;
    } else {
      EncodedShape(v / 128, rest);
      assert bs[1..] == EncodeVarint(v / 128);
      assert (bs + rest)[1..] == EncodeVarint(v / 128) + rest && (bs + rest)[0] == bs[0];
    }
  }

  /** Reading what the writer wrote gives the value back and stops exactly behind it. */
  lemma VarintRoundTrip(v: Uint64, rest: ByteString)
    ensures ParseVarint(EncodeVarint(v) + rest) == VarintOk(v, |EncodeVarint(v)|)
  {
    var bs := EncodeVarint(v);
    EncodedShape(v, rest);
    EncodedLengthIs1To10(v);
    assert (bs + rest)[..|bs|] == bs;
  }

  lemma {:induction false} RunStopsInside(s: ByteString, rest: ByteString)
    requires ContinuationRun(s) < |s|
    ensures ContinuationRun(s + rest) == ContinuationRun(s)
  {
    assert (s + rest)[0] == s[0];
    if s[0] >= 128 {
      RunStopsInside(s[1..], rest);
      assert (s + rest)[1..] == s[1..] + rest;
    }
  }

  /** A varint that was read does not depend on what follows it. */
  lemma ParseVarintPrefix(s: ByteString, rest: ByteString)
    requires ParseVarint(s).VarintOk?
    ensures ParseVarint(s + rest) == ParseVarint(s)
  {
    RunStopsInside(s, rest);
    var k := ContinuationRun(s);
    assert (s + rest)[..k + 1] == s[..k + 1];
  }

  lemma Pow2Group(n: nat)
    ensures Pow2(7 * (n + 1)) == 128 * Pow2(7 * n)
  {
    Pow2Adds(7, 7 * n);
    assert Pow2(7) == 128;
  }

  /** One more group on the most significant side. */
  lemma {:induction false} GroupValueSnoc(bs: ByteString, b: Byte)
    ensures GroupValue(bs + [b]) == GroupValue(bs) + (b % 128) * Pow2(7 * |bs|)
    ensures GroupValue(bs) < Pow2(7 * |bs|)
  {
    if bs == [] {
      assert [b][1..] == [] && bs + [b] == [b];
    } else {
      hide Pow2;
      GroupValueSnoc(bs[1..], b);
      assert (bs + [b])[1..] == bs[1..] + [b];
      Pow2Group(|bs| - 1);
      var p, g := Pow2(7 * (|bs| - 1)), b % 128;
      assert 128 * (g * p) == g * (128 * p);
    }
  }

  /** The part of a word that a shift by `k` leaves for the shifted value. */
  lemma Headroom(k: nat, bits: nat)
    requires k < bits
    ensures Pow2(bits - k) * Pow2(k) == Pow2(bits) && Pow2(k) < Pow2(bits)
  {
    Pow2Adds(bits - k, k);
    var p, q := Pow2(k), Pow2(bits - k);
    assert q == 2 * Pow2(bits - k - 1);
    assert q * p >= 2 * p;
  }

  /** Shifting a value into the free upper part of a word and or-ing it in is addition
      modulo the size of the word. */
  lemma OrShifted(a: nat, g: nat, k: nat, word: WordSize)
    requires k <= 63 && a < Pow2(k)
    ensures BitOr(Truncate(a, word), Shl(g, k, word)) == Truncate(a + g * Pow2(k), word)
  {
    Pow2At64();
    if word == TWO64 {
      Headroom(k, 64);
      OrShiftedInside(a, g, k, Pow2(64 - k), word);
    } else if k < 32 {
      Headroom(k, 32);
      OrShiftedInside(a, g, k, Pow2(32 - k), word);
    } else {
      Pow2Adds(k - 32, 32);
      ShiftedOut(a, g, Pow2(k - 32));
    }
  }

  lemma OrShiftedInside(a: nat, g: nat, k: nat, q: nat, word: WordSize)
    requires a < Pow2(k) < word && q * Pow2(k) == word
    ensures BitOr(Truncate(a, word), Shl(g, k, word)) == Truncate(a + g * Pow2(k), word)
  {
    var p := Pow2(k);
    assert q > 0;
    assert 0 + g * p == g * p;
    ResidueOfShifted(0, g, p, q, word);
    assert Shl(g, k, word) == (g % q) * p;
    OrDisjointIsAdd(a, g % q, k);
    ResidueOfShifted(a, g, p, q, word);
  }

  lemma ShiftedOut(a: nat, g: nat, p: nat)
    ensures (g * (p * TWO32)) % TWO32 == 0
    ensures (a + g * (p * TWO32)) % TWO32 == a % TWO32
  {
    var n := g * p;
    assert g * (p * TWO32) == n * TWO32;
  }

  /** One turn of the reader's loop is the next partial sum, modulo the size of the word. */
  lemma AccumulateGroup(bs: ByteString, b: Byte, word: WordSize)
    requires |bs| < MAX_VARINT_LEN
    ensures BitOr(Truncate(GroupValue(bs), word), Shl(b % 128, 7 * |bs|, word))
         == Truncate(GroupValue(bs + [b]), word)
  {
    var k, a, g := 7 * |bs|, GroupValue(bs), b % 128;
    assert a < Pow2(k) && GroupValue(bs + [b]) == a + g * Pow2(k) by {
      GroupValueSnoc(bs, b);
    }
    OrShifted(a, g, k, word);
  }

  /** Reducing modulo q * p keeps what is below `p` and reduces the rest modulo `q`. */
  lemma ResidueOfShifted(a: nat, g: nat, p: nat, q: nat, word: WordSize)
    requires a < p && q > 0 && q * p == word
    ensures Truncate(a + g * p, word) == a + (g % q) * p
  {
    var d, m := g / q, g % q;
    assert g == d * q + m;
    ScaleQuotient(d, q, m, p);
    var r := m * p;
    assert 0 <= r <= word - p by {
      ScaleBound(m, q, p);
    }
    assert a + g * p == d * word + (a + r);
  }

  lemma ScaleQuotient(d: nat, q: nat, m: nat, p: nat)
    ensures (d * q + m) * p == d * (q * p) + m * p
  {
  }

  lemma ScaleBound(m: nat, q: nat, p: nat)
    requires m < q
    ensures m * p <= q * p - p
  {
    assert m * p <= (q - 1) * p;
  }

  // ---------------------------------------------------------------- the loops

  /** The reader's loop, which the generated code repeats for every tag, length and
      integer field: `index` walks the buffer, `shift` grows by seven, and each group is
      shifted into place inside a word of the width of the variable that receives it. */
  method ReadGroups(data: ByteString, start: nat, word: WordSize)
    returns (value: nat, next: nat, err: Option<WireError>)
    requires start <= |data|
    ensures match ParseVarint(data[start..])
      case VarintOk(v, size) => err == None && value == Truncate(v, word) && next == start + size
      case VarintErr(e) => err == Some(e)
  {
    hide BitOr, Shl, Truncate;
    var shift := 0;
    value, next, err := 0, start, None;
    ghost var s := data[start..];
    while true
      invariant start <= next <= |data| && err == None
      invariant shift == 7 * (next - start) && next - start <= MAX_VARINT_LEN
      invariant value == Truncate(GroupValue(s[..next - start]), word)
      invariant next - start <= ContinuationRun(s)
      decreases |data| - next
    {
      ghost var k := next - start;
      if shift >= 64 {
        err := Some(IntOverflow);
        return;
      }
      if next >= |data| {
        err := Some(UnexpectedEof);
        return;
      }
      var b := data[next];
      AccumulateGroup(s[..k], b, word);
      assert s[..k] + [b] == s[..k + 1];
      next := next + 1;
      value := BitOr(value, Shl(b % 128, shift, word));
      if b < 128 {
        NarrowResidue(GroupValue(s[..k + 1]), word);
        return;
      }
      shift := shift + 7;
    }
  }

  lemma NarrowResidue(n: nat, word: WordSize)
    ensures Truncate(n % TWO64, word) == Truncate(n, word)
  {
  }

  /** The writer: reserves the closed-form size below `offset`, fills it front to back
      and returns where it starts. */
  method EncodeVarintAt(data: array<Byte>, offset: nat, value: Uint64) returns (base: nat)
    requires Sov(value) <= offset <= data.Length
    modifies data
    ensures base == offset - Sov(value)
    ensures data[base..offset] == EncodeVarint(value)
    ensures data[..base] == old(data[..base]) && data[offset..] == old(data[offset..])
  {
    hide Sov, EncodeVarint;
    SovIsEncodedLength(value);
    base := offset - Sov(value);
    var at, v := base, value;
    while v >= 128
      invariant base <= at && at + |EncodeVarint(v)| == offset
      invariant data[base..at] + EncodeVarint(v) == EncodeVarint(value)
      invariant data[..base] == old(data[..base]) && data[offset..] == old(data[offset..])
      decreases v
    {
      EncodeUnfold(v);
      ghost var done := data[base..at];
      data[at] := v % 128 + 128;
      assert data[base..at + 1] == done + [v % 128 + 128];
      v := v / 128;
      at := at + 1;
    }
    EncodeUnfold(v);
    ghost var done := data[base..at];
    data[at] := v;
    assert data[base..offset] == done + [v];
  }
}
