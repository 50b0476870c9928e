/** Text carried in the public inputs of a proof: each input is a decimal field element
    of BN254 that packs bytes, least significant first. */
module FieldText {
  import opened Words

  /** The order of the scalar field of BN254. */
  const FIELD_ORDER := 21888242871839275222246405745257275088548364400416034343698204186575808495617

  const CHUNK := 31

  /** Bytes of a number, least significant first, without zeros on top. */
  function LittleEndian(n: nat): (bs: ByteString) {
    if n == 0 then [] else [n % 256] + LittleEndian(n / 256)
  }

  /** Bytes of a number, most significant first; zero has none. */
  function BigEndian(n: nat): (bs: ByteString)
    ensures bs == [] <==> n == 0
  {
    if n == 0 then [] else BigEndian(n / 256) + [n % 256]
  }

  function NumberOf(bs: ByteString): (n: nat) {
    if bs == [] then 0 else bs[0] + 256 * NumberOf(bs[1..])
  }

  function TrimZeros(bs: ByteString): (r: ByteString)
    ensures r <= bs
  {
    if bs != [] && bs[|bs| - 1] == 0 then TrimZeros(bs[..|bs| - 1]) else bs
  }

  /** What one field element contributes; zero contributes a single zero byte. */
  function ElementBytes(x: int): (bs: ByteString) {
    var n := x % FIELD_ORDER;
    if n == 0 then [0] else LittleEndian(n)
  }

  function Joined(xs: seq<int>): (bs: ByteString) {
    if xs == [] then [] else ElementBytes(xs[0]) + Joined(xs[1..])
  }

  /** The text of a run of field elements: their bytes in a row, padding removed. */
  function TextOf(xs: seq<int>): (text: ByteString) {
    TrimZeros(Joined(xs))
  }

  // ---------------------------------------------------------------- the loops

  /** Reverses a big-endian element and drops the zeros that were in front; an element
      that is all zeros becomes one zero byte. */
  method ToLittleEndianTrimmed(b: ByteString) returns (r: ByteString)
    ensures r == (var t := TrimZeros(Reversed(b)); if t == [] then [0] else t)
  {
    var result := new Byte[|b|];
    for i := 0 to |b|
      invariant result[..i] == Reversed(b[|b| - i..])[..i]
    {
      result[i] := b[|b| - 1 - i];
      var tail := b[|b| - i - 1..];
      assert tail[1..] == b[|b| - i..];
      ReversedFront(tail);
    }
    assert b[0..] == b;
    assert result[..] == result[..|b|] == Reversed(b);
    var end := |b|;
    while end > 0 && result[end - 1] == 0
      invariant 0 <= end <= |b| && TrimZeros(result[..]) == TrimZeros(result[..end])
    {
      assert result[..end][..end - 1] == result[..end - 1];
      end := end - 1;
    }
    if end == 0 {
      return [0];
    }
    r := result[..end];
  }

  function Reversed(b: ByteString): (r: ByteString)
    ensures |r| == |b|
  {
    if b == [] then [] else Reversed(b[1..]) + [b[0]]
  }

  lemma ReversedFront(b: ByteString)
    requires b != []
    ensures Reversed(b) == Reversed(b[1..]) + [b[0]]
  {
  }

  /** The fixed-width big-endian form in which the field library hands out an element. */
  function FixedBigEndian(n: nat, width: nat): (bs: ByteString)
    ensures |bs| == width
  {
    if width == 0 then [] else FixedBigEndian(n / 256, width - 1) + [n % 256]
  }

  lemma {:induction false} ReversedSnoc(bs: ByteString, b: Byte)
    ensures Reversed(bs + [b]) == [b] + Reversed(bs)
  {
    if bs == [] {
      assert bs + [b] == [b] && [b][1..] == [];
    } else {
      ReversedSnoc(bs[1..], b);
      assert (bs + [b])[1..] == bs[1..] + [b];
    }
  }

  lemma {:induction false} TrimCons(b: Byte, rest: ByteString)
    ensures TrimZeros([b] + rest) == if TrimZeros(rest) == [] && b == 0 then [] else [b] + TrimZeros(rest)
    decreases |rest|
  {
    var n := |rest|;
    if n == 0 {
      assert [b] + rest == [b] && [b][..0] == [];
    } else if rest[n - 1] == 0 {
      assert ([b] + rest)[..n] == [b] + rest[..n - 1];
      TrimCons(b, rest[..n - 1]);
    }
  }

  lemma Pow2Byte(n: nat)
    ensures Pow2(8 * (n + 1)) == 256 * Pow2(8 * n)
  {
    Pow2Adds(8, 8 * n);
    assert Pow2(8) == 256;
  }

  /** The loop above, applied to an element of `width` bytes, yields its little-endian
      digits: the library's width leaves no trace. */
  lemma {:induction false} TrimmedElement(n: nat, width: nat)
    requires n < Pow2(8 * width)
    ensures TrimZeros(Reversed(FixedBigEndian(n, width))) == LittleEndian(n)
    decreases width
  {
    if width > 0 {
      hide Pow2, Reversed, TrimZeros;
      Pow2Byte(width - 1);
      var high := FixedBigEndian(n / 256, width - 1);
      TrimmedElement(n / 256, width - 1);
      ReversedSnoc(high, n % 256);
      TrimCons(n % 256, Reversed(high));
    }
  }

  const ELEMENT_WIDTH := 32

  /** The bytes of an element are what the loop makes of its 32-byte form. */
  lemma ElementBytesIsLoop(x: int)
    ensures var t := TrimZeros(Reversed(FixedBigEndian(x % FIELD_ORDER, ELEMENT_WIDTH)));
            ElementBytes(x) == if t == [] then [0] else t
  {
    hide Pow2, TrimZeros, Reversed, FixedBigEndian;
    Pow2At248();
    Pow2Byte(31);
    TrimmedElement(x % FIELD_ORDER, ELEMENT_WIDTH);
  }

  lemma JoinedStep(xs: seq<int>, i: nat)
    requires i <= |xs|
    ensures Joined(xs[i..]) == if i == |xs| then [] else ElementBytes(xs[i]) + Joined(xs[i + 1..])
  {
    if i < |xs| {
      assert xs[i..][1..] == xs[i + 1..];
    }
  }

  /** What an element contributes is its residue modulo the field order, in base 256 with
      the least significant digit first. */
  lemma ElementValue(x: int)
    ensures NumberOf(ElementBytes(x)) == x % FIELD_ORDER
    ensures x % FIELD_ORDER != 0 ==> ElementBytes(x)[|ElementBytes(x)| - 1] != 0
    ensures x % FIELD_ORDER == 0 ==> ElementBytes(x) == [0]
  {
    LittleEndianNumber(x % FIELD_ORDER);
    LittleEndianTop(x % FIELD_ORDER);
  }

  lemma {:induction false} LittleEndianTop(n: nat)
    ensures n > 0 ==> LittleEndian(n) != [] && LittleEndian(n)[|LittleEndian(n)| - 1] != 0
  {
    if n >= 256 {
      LittleEndianTop(n / 256);
    }
  }

  /** ConvertBigIntArrayToString: the bytes of each element in turn, then the zeros at the
      end cut off. */
  method TextFromElements(xs: seq<int>) returns (text: ByteString)
    ensures text == TextOf(xs)
  {
    hide ElementBytes, FixedBigEndian, Reversed, TrimZeros, Joined;
    JoinedStep(xs, |xs|);
    var all: ByteString := [];
    assert xs[0..] == xs;
    for i := 0 to |xs|
      invariant all + Joined(xs[i..]) == Joined(xs)
    {
      var element := FixedBigEndian(xs[i] % FIELD_ORDER, ELEMENT_WIDTH);
      var bytes := ToLittleEndianTrimmed(element);
      ElementBytesIsLoop(xs[i]);
      JoinedStep(xs, i);
      assert all + (bytes + Joined(xs[i + 1..])) == (all + bytes) + Joined(xs[i + 1..]);
      all := all + bytes;
    }
    assert all + [] == all;
    text := TrimZeros(all);
  }

  // ---------------------------------------------------------------- packing and unpacking

  /** How a prover packs text: 31 bytes to an element, zero elements behind. */
  function Pack(text: ByteString, fields: nat): (xs: seq<int>)
    requires |text| <= CHUNK * fields
    decreases fields
  {
    if fields == 0 then []
    else if |text| <= CHUNK then [NumberOf(text)] + Pack([], fields - 1)
    else [NumberOf(text[..CHUNK])] + Pack(text[CHUNK..], fields - 1)
  }

  /** A number written from bytes keeps all of them but the zeros at the end. */
  lemma {:induction false} NumberTrims(bs: ByteString)
    ensures LittleEndian(NumberOf(bs)) == TrimZeros(bs)
  {
    if bs != [] {
      hide TrimZeros;
      NumberTrims(bs[1..]);
      var n := NumberOf(bs);
      assert n % 256 == bs[0] && n / 256 == NumberOf(bs[1..]);
      TrimCons(bs[0], bs[1..]);
      assert bs == [bs[0]] + bs[1..];
    }
  }

  lemma {:induction false} NumberBound(bs: ByteString)
    ensures NumberOf(bs) < Pow2(8 * |bs|)
  {
    if bs != [] {
      hide Pow2;
      NumberBound(bs[1..]);
      Pow2Byte(|bs| - 1);
    }
  }

  /** A chunk of 31 bytes is below the field order, so nothing is lost in reduction. */
  lemma ChunkFits(bs: ByteString)
    requires |bs| <= CHUNK
    ensures NumberOf(bs) < FIELD_ORDER
  {
    NumberBound(bs);
    Pow2Monotone(8 * |bs|, 248);
    Pow2At248();
  }

  lemma Pow2At248()
    ensures Pow2(248) < FIELD_ORDER < 256 * Pow2(248)
  {
    hide Pow2;
    Pow2At8();
    Pow2Double(8, 0x100);
    Pow2Half(16);
    Pow2Half(32);
    Pow2Double(16, 0x1_0000);
    Pow2Double(31, 0x8000_0000);
    Pow2Double(62, 0x4000_0000_0000_0000);
    Pow2Double(124, 0x1000_0000_0000_0000_0000_0000_0000_0000);
  }

  /** What comes back of a chunk: its bytes up to the last one that is not zero. */
  lemma ChunkBytes(bs: ByteString)
    requires |bs| <= CHUNK
    ensures ElementBytes(NumberOf(bs)) == if TrimZeros(bs) == [] then [0] else TrimZeros(bs)
  {
    hide LittleEndian, NumberOf, TrimZeros;
    ChunkFits(bs);
    NumberTrims(bs);
    ElementInField(NumberOf(bs));
  }

  lemma ElementInField(n: nat)
    requires n < FIELD_ORDER
    ensures ElementBytes(n) == if LittleEndian(n) == [] then [0] else LittleEndian(n)
  {
    assert n % FIELD_ORDER == n;
  }

  function Zeros(n: nat): (bs: ByteString)
    ensures |bs| == n
  {
    seq(n, _ => 0)
  }

  lemma {:induction false} TrimPadding(text: ByteString, n: nat)
    ensures TrimZeros(text + Zeros(n)) == TrimZeros(text)
    decreases n
  {
    if n == 0 {
      assert text + Zeros(0) == text;
    } else {
      var padded := text + Zeros(n);
      assert padded[..|padded| - 1] == text + Zeros(n - 1);
      TrimPadding(text, n - 1);
    }
  }

  /** No byte that ends a chunk is zero: neither the last byte of the text nor the last of
      any chunk of 31 before it. */
  ghost predicate Exact(text: ByteString) {
    forall i :: 0 <= i < |text| && (i + 1 == |text| || (i + 1) % CHUNK == 0) ==> text[i] != 0
  }

  lemma TrimKeepsIff(bs: ByteString)
    ensures |TrimZeros(bs)| == |bs| <==> bs == [] || bs[|bs| - 1] != 0
    ensures |TrimZeros(bs)| == |bs| ==> TrimZeros(bs) == bs
  {
  }

  /** The first chunk and the rest can be looked at apart. */
  lemma ExactParts(text: ByteString)
    requires |text| > CHUNK
    ensures Exact(text) <==> text[CHUNK - 1] != 0 && Exact(text[CHUNK..])
  {
    var rest := text[CHUNK..];
    assert forall i :: 0 <= i < |rest| ==> rest[i] == text[i + CHUNK] && (i + CHUNK + 1) % CHUNK == (i + 1) % CHUNK;
    if Exact(rest) && text[CHUNK - 1] != 0 {
      forall i | 0 <= i < |text| && (i + 1 == |text| || (i + 1) % CHUNK == 0) ensures text[i] != 0 {
        if i >= CHUNK {
          assert rest[i - CHUNK] == text[i] && (i - CHUNK + 1) % CHUNK == (i + 1) % CHUNK;
        }
      }
    }
    if Exact(text) {
      forall i | 0 <= i < |rest| && (i + 1 == |rest| || (i + 1) % CHUNK == 0) ensures rest[i] != 0 {
        assert text[i + CHUNK] != 0;
      }
    }
  }

  lemma ExactShort(text: ByteString)
    requires |text| <= CHUNK
    ensures Exact(text) <==> text == [] || text[|text| - 1] != 0
  {
  }

  /** What the elements of a packed text spell: a body and padding. The body is never
      longer than the text, it is as long exactly if the text is exact, and then it is the
      text. */
  lemma {:induction false} JoinedPack(text: ByteString, fields: nat) returns (body: ByteString, padding: nat)
    requires |text| <= CHUNK * fields
    ensures Joined(Pack(text, fields)) == body + Zeros(padding)
    ensures |body| <= |text|
    ensures |body| == |text| <==> Exact(text)
    ensures Exact(text) ==> body == text
    decreases fields
  {
    hide ElementBytes, NumberOf, TrimZeros, Exact;
    if fields == 0 {
      body, padding := [], 0;
      ExactShort(text);
    } else if |text| <= CHUNK {
      var more;
      body, more := JoinedPack([], fields - 1);
      ChunkBytes(text);
      TrimKeepsIff(text);
      ExactShort(text);
      body := TrimZeros(text);
      if body == [] {
        padding := more + 1;
        assert [0] + ([] + Zeros(more)) == [] + Zeros(more + 1);
      } else {
        padding := more;
        assert body + ([] + Zeros(more)) == body + Zeros(more);
      }
    } else {
      var head, tail := text[..CHUNK], text[CHUNK..];
      var rest;
      rest, padding := JoinedPack(tail, fields - 1);
      ChunkBytes(head);
      TrimKeepsIff(head);
      ExactParts(text);
      var first := if TrimZeros(head) == [] then [0] else TrimZeros(head);
      body := first + rest;
      assert first + (rest + Zeros(padding)) == body + Zeros(padding);
      assert head + tail == text;
    }
  }

  /** Text comes back out of the elements it was packed into, however many spare elements
      there are, if and only if no byte that ends a chunk is zero. */
  lemma TextRoundTripIff(text: ByteString, fields: nat)
    requires |text| <= CHUNK * fields
    ensures TextOf(Pack(text, fields)) == text <==> Exact(text)
  {
    hide Joined, Pack, Exact;
    var body, padding := JoinedPack(text, fields);
    TrimPadding(body, padding);
    if Exact(text) {
      ExactEnd(text);
      TrimKeepsIff(text);
    }
  }

  lemma ExactEnd(text: ByteString)
    requires Exact(text)
    ensures text == [] || text[|text| - 1] != 0
  {
  }

  /** In particular text without zero bytes comes back. */
  lemma NulFreeIsExact(text: ByteString)
    requires 0 !in text
    ensures Exact(text)
  {
  }

  /** A zero at the end of a full chunk is lost. */
  lemma ChunkEndZeroLost() returns (text: ByteString)
    ensures |text| == 32 && text[31] != 0 && TextOf(Pack(text, 2)) != text
  {
    text := seq(30, _ => 1) + [0, 7];
    assert text[30] == 0 && (30 + 1) % CHUNK == 0;
    TextRoundTripIff(text, 2);
  }

  // ---------------------------------------------------------------- numbers as bytes

  lemma {:induction false} LittleEndianNumber(n: nat)
    ensures NumberOf(LittleEndian(n)) == n
  {
    if n != 0 {
      LittleEndianNumber(n / 256);
      assert LittleEndian(n)[1..] == LittleEndian(n / 256);
    }
  }

  lemma {:induction false} BigEndianReversed(n: nat)
    ensures Reversed(BigEndian(n)) == LittleEndian(n)
  {
    if n != 0 {
      BigEndianReversed(n / 256);
      ReversedSnoc(BigEndian(n / 256), n % 256);
    }
  }

  /** The value of a byte string read with the most significant byte first: each byte
      counts 256 to the power of the number of bytes behind it. */
  function PlaceValue(bs: ByteString): (n: nat) {
    if bs == [] then 0 else bs[0] * Pow2(8 * (|bs| - 1)) + PlaceValue(bs[1..])
  }

  lemma {:induction false} PlaceValueSnoc(bs: ByteString, b: Byte)
    ensures PlaceValue(bs + [b]) == 256 * PlaceValue(bs) + b
  {
    if bs == [] {
      assert bs + [b] == [b] && [b][1..] == [];
      assert Pow2(0) == 1;
    } else {
      hide Pow2;
      PlaceValueSnoc(bs[1..], b);
      assert (bs + [b])[1..] == bs[1..] + [b];
      Pow2Byte(|bs| - 1);
      var p := Pow2(8 * (|bs| - 1));
      assert bs[0] * (256 * p) == 256 * (bs[0] * p);
    }
  }

  /** The bytes of a number are its digits, most significant first, none of them zero in
      front. */
  lemma {:induction false} BigEndianValue(n: nat)
    ensures PlaceValue(BigEndian(n)) == n
    ensures n > 0 ==> BigEndian(n)[0] != 0
  {
    if n > 0 {
      hide PlaceValue;
      BigEndianValue(n / 256);
      PlaceValueSnoc(BigEndian(n / 256), n % 256);
    } else {
      assert PlaceValue([]) == 0;
    }
  }

  /** The 32-byte form of an element has that value too. */
  lemma {:induction false} FixedBigEndianValue(n: nat, width: nat)
    requires n < Pow2(8 * width)
    ensures PlaceValue(FixedBigEndian(n, width)) == n
    decreases width
  {
    if width > 0 {
      hide PlaceValue, Pow2;
      Pow2Byte(width - 1);
      FixedBigEndianValue(n / 256, width - 1);
      PlaceValueSnoc(FixedBigEndian(n / 256, width - 1), n % 256);
    }
  }

  /** Reversal, byte by byte. */
  lemma {:induction false} ReversedAt(b: ByteString, i: nat)
    requires i < |b|
    ensures Reversed(b)[i] == b[|b| - 1 - i]
  {
    if i < |b| - 1 {
      ReversedAt(b[1..], i);
    }
  }

  /** Different numbers have different bytes. */
  lemma BigEndianInjective(m: nat, n: nat)
    requires BigEndian(m) == BigEndian(n)
    ensures m == n
  {
    BigEndianReversed(m);
    BigEndianReversed(n);
    LittleEndianNumber(m);
    LittleEndianNumber(n);
  }
}
