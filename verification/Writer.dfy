/** The generated writers. Each fills a buffer backwards from an index that moves down,
    so that a length can be put in front of a payload that is already there. */
module Writer {
  import opened Words
  import opened Varint
  import opened Messages

  /** A buffer after `bs` was written right below `hi`, down to `lo`: nothing outside
      [lo, hi) has changed. */
  ghost predicate Wrote(now: ByteString, before: ByteString, lo: int, hi: int, bs: ByteString) {
    && |now| == |before|
    && 0 <= lo <= hi <= |now| && hi - lo == |bs|
    && now[..lo] == before[..lo]
    && now[lo..hi] == bs
    && now[hi..] == before[hi..]
  }

  lemma SliceOfTail(s: ByteString, t: ByteString, mid: nat, hi: nat)
    requires |s| == |t| && mid <= hi <= |s| && s[mid..] == t[mid..]
    ensures s[mid..hi] == t[mid..hi] && s[hi..] == t[hi..]
  {
    assert forall i :: mid <= i < |s| ==> s[i] == s[mid..][i - mid] && t[i] == t[mid..][i - mid];
  }

  lemma SliceOfHead(s: ByteString, t: ByteString, lo: nat, mid: nat)
    requires |s| == |t| && lo <= mid <= |s| && s[..mid] == t[..mid]
    ensures s[..lo] == t[..lo]
  {
    assert forall i :: 0 <= i < mid ==> s[i] == s[..mid][i] && t[i] == t[..mid][i];
  }

  /** Writing downwards builds a string from its end. */
  lemma WroteInFront(s0: ByteString, s1: ByteString, s2: ByteString, lo: int, mid: int, hi: int,
                     front: ByteString, back: ByteString)
    requires Wrote(s1, s0, mid, hi, back) && Wrote(s2, s1, lo, mid, front)
    ensures Wrote(s2, s0, lo, hi, front + back)
  {
    SliceOfTail(s1, s2, mid, hi);
    assert s2[lo..hi] == s2[lo..mid] + s2[mid..hi];
    SliceOfHead(s0, s1, lo, mid);
  }

  method PutByte(data: array<Byte>, hi: nat, b: Byte) returns (lo: nat)
    requires 1 <= hi <= data.Length
    modifies data
    ensures lo == hi - 1
    ensures Wrote(data[..], old(data[..]), lo, hi, [b])
  {
    lo := hi - 1;
    data[lo] := b;
  }

  method PutVarint(data: array<Byte>, hi: nat, v: Uint64) returns (lo: nat)
    requires |EncodeVarint(v)| <= hi <= data.Length
    modifies data
    ensures Wrote(data[..], old(data[..]), lo, hi, EncodeVarint(v))
  {
    hide EncodeVarint, Sov;
    SovIsEncodedLength(v);
    lo := EncodeVarintAt(data, hi, v);
    assert data[..][lo..hi] == data[lo..hi];
    assert data[..][..lo] == data[..lo] == old(data[..lo]) == old(data[..])[..lo];
    assert data[..][hi..] == data[hi..] == old(data[hi..]) == old(data[..])[hi..];
  }

  /** A varint field, unless it is zero. */
  method PutVarintField(data: array<Byte>, hi: nat, f: FieldNumber, v: Uint64) returns (lo: nat)
    requires |VarintField(f, v)| <= hi <= data.Length
    modifies data
    ensures Wrote(data[..], old(data[..]), lo, hi, VarintField(f, v))
  {
    hide EncodeVarint;
    ghost var s0 := data[..];
    lo := hi;
    if v != 0 {
      lo := PutVarint(data, lo, v);
      ghost var mid, s1 := lo, data[..];
      lo := PutByte(data, lo, 8 * f);
      WroteInFront(s0, s1, data[..], lo, mid, hi, [8 * f], EncodeVarint(v));
    }
  }

  /** Tag and length in front of a payload that occupies [mid, hi). */
  method PutHeader(data: array<Byte>, mid: nat, hi: nat, f: FieldNumber, ghost s0: ByteString,
                   ghost payload: ByteString) returns (lo: nat)
    requires mid <= hi <= data.Length && hi - mid < TWO64
    requires Wrote(data[..], s0, mid, hi, payload)
    requires |BlobField(f, payload)| <= hi
    modifies data
    ensures Wrote(data[..], s0, lo, hi, BlobField(f, payload))
  {
    hide EncodeVarint;
    ghost var s1 := data[..];
    var at := PutVarint(data, mid, hi - mid);
    ghost var s2 := data[..];
    WroteInFront(s0, s1, s2, at, mid, hi, EncodeVarint(|payload|), payload);
    lo := PutByte(data, at, 8 * f + 2);
    WroteInFront(s0, s2, data[..], lo, at, hi, [8 * f + 2], EncodeVarint(|payload|) + payload);
  }

  /** Copies the bytes of a string below `hi`. */
  method PutBytes(data: array<Byte>, hi: nat, bs: ByteString) returns (lo: nat)
    requires |bs| <= hi <= data.Length
    modifies data
    ensures Wrote(data[..], old(data[..]), lo, hi, bs)
  {
    lo := hi - |bs|;
    for k := 0 to |bs|
      invariant data[lo..lo + k] == bs[..k]
      invariant data[..lo] == old(data[..lo]) && data[hi..] == old(data[hi..])
    {
      data[lo + k] := bs[k];
      assert data[lo..lo + k + 1] == data[lo..lo + k] + [bs[k]];
    }
    assert data[..][lo..hi] == data[lo..hi] == bs[..|bs|];
    assert data[..][..lo] == data[..lo];
    assert data[..][hi..] == data[hi..];
  }

  method PutBlobField(data: array<Byte>, hi: nat, f: FieldNumber, bs: ByteString) returns (lo: nat)
    requires |BlobField(f, bs)| <= hi <= data.Length && |bs| < TWO64
    modifies data
    ensures Wrote(data[..], old(data[..]), lo, hi, BlobField(f, bs))
  {
    hide EncodeVarint;
    ghost var s0 := data[..];
    var mid := PutBytes(data, hi, bs);
    lo := PutHeader(data, mid, hi, f, s0, bs);
  }

  /** A string or byte field, unless it is empty. */
  method PutTextField(data: array<Byte>, hi: nat, f: FieldNumber, bs: ByteString) returns (lo: nat)
    requires |TextField(f, bs)| <= hi <= data.Length && |bs| < TWO64
    modifies data
    ensures Wrote(data[..], old(data[..]), lo, hi, TextField(f, bs))
  {
    lo := hi;
    if |bs| > 0 {
      lo := PutBlobField(data, hi, f, bs);
    }
  }

  // ---------------------------------------------------------------- messages

  method WriteRange(m: IndexRange, data: array<Byte>, hi: nat) returns (n: nat)
    requires RangeSize(m) <= hi <= data.Length
    modifies data
    ensures n == RangeSize(m)
    ensures Wrote(data[..], old(data[..]), hi - n, hi, EncodeRange(m))
  {
    hide VarintField, VarintFieldSize;
    RangeLength(m);
    VarintFieldLength(1, m.start);
    VarintFieldLength(2, m.end);
    ghost var s0 := data[..];
    var i := PutVarintField(data, hi, 2, m.end);
    ghost var i1, s1 := i, data[..];
    i := PutVarintField(data, i, 1, m.start);
    WroteInFront(s0, s1, data[..], i, i1, hi, VarintField(1, m.start), VarintField(2, m.end));
    n := hi - i;
  }

  /** An embedded range behind its tag and length. */
  method WriteRangeField(m: IndexRange, data: array<Byte>, hi: nat, f: FieldNumber) returns (lo: nat)
    requires |BlobField(f, EncodeRange(m))| <= hi <= data.Length
    modifies data
    ensures Wrote(data[..], old(data[..]), lo, hi, BlobField(f, EncodeRange(m)))
  {
    hide EncodeVarint, EncodeRange, RangeSize;
    RangeLength(m);
    ghost var s0 := data[..];
    var size := WriteRange(m, data, hi);
    lo := PutHeader(data, hi - size, hi, f, s0, EncodeRange(m));
  }

  method WriteIndices(m: PublicInputIndices, data: array<Byte>, hi: nat) returns (n: nat)
    requires IndicesSize(m) <= hi <= data.Length
    modifies data
    ensures n == IndicesSize(m)
    ensures Wrote(data[..], old(data[..]), hi - n, hi, EncodeIndices(m))
  {
    hide VarintField, VarintFieldSize, BlobField, BlobFieldSize, EncodeRange, RangeSize;
    ghost var s0 := data[..];
    IndicesLength(m);
    ghost var b7 := BlobField(7, EncodeRange(m.emailSubjectRange));
    ghost var b6 := BlobField(6, EncodeRange(m.emailHostRange)) + b7;
    ghost var b5 := BlobField(5, EncodeRange(m.txBytesRange)) + b6;
    ghost var b4 := VarintField(4, m.dkimHashIndex) + b5;
    ghost var b3 := BlobField(3, EncodeRange(m.dkimDomainRange)) + b4;
    ghost var b2 := VarintField(2, m.emailHashIndex) + b3;
    var i := WriteRangeField(m.emailSubjectRange, data, hi, 7);
    ghost var i7, s7 := i, data[..];
    i := WriteRangeField(m.emailHostRange, data, i, 6);
    ghost var i6, s6 := i, data[..];
    WroteInFront(s0, s7, s6, i, i7, hi, BlobField(6, EncodeRange(m.emailHostRange)), b7);
    i := WriteRangeField(m.txBytesRange, data, i, 5);
    ghost var i5, s5 := i, data[..];
    WroteInFront(s0, s6, s5, i, i6, hi, BlobField(5, EncodeRange(m.txBytesRange)), b6);
    i := PutVarintField(data, i, 4, m.dkimHashIndex);
    ghost var i4, s4 := i, data[..];
    WroteInFront(s0, s5, s4, i, i5, hi, VarintField(4, m.dkimHashIndex), b5);
    i := WriteRangeField(m.dkimDomainRange, data, i, 3);
    ghost var i3, s3 := i, data[..];
    WroteInFront(s0, s4, s3, i, i4, hi, BlobField(3, EncodeRange(m.dkimDomainRange)), b4);
    i := PutVarintField(data, i, 2, m.emailHashIndex);
    ghost var i2, s2 := i, data[..];
    WroteInFront(s0, s3, s2, i, i3, hi, VarintField(2, m.emailHashIndex), b3);
    i := PutVarintField(data, i, 1, m.minLength);
    WroteInFront(s0, s2, data[..], i, i2, hi, VarintField(1, m.minLength), b2);
    n := hi - i;
  }

  method WriteParams(m: Params, data: array<Byte>, hi: nat) returns (n: nat)
    requires ParamsSize(m) <= hi <= data.Length
    modifies data
    ensures n == ParamsSize(m)
    ensures Wrote(data[..], old(data[..]), hi - n, hi, EncodeParams(m))
  {
    hide VarintField, VarintFieldSize, EncodeIndices, IndicesSize, EncodeVarint, Sov;
    ghost var s0 := data[..];
    ParamsLength(m);
    IndicesLength(m.publicInputIndices);
    ghost var inner := EncodeIndices(m.publicInputIndices);
    ghost var b3 := BlobField(3, inner);
    ghost var b2 := VarintField(2, m.maxPubkeySizeBytes) + b3;
    BlobFieldLength(3, inner);
    var size := WriteIndices(m.publicInputIndices, data, hi);
    var i := PutHeader(data, hi - size, hi, 3, s0, inner);
    ghost var i3, s3 := i, data[..];
    i := PutVarintField(data, i, 2, m.maxPubkeySizeBytes);
    ghost var i2, s2 := i, data[..];
    WroteInFront(s0, s3, s2, i, i3, hi, VarintField(2, m.maxPubkeySizeBytes), b3);
    i := PutVarintField(data, i, 1, m.vkeyIdentifier);
    WroteInFront(s0, s2, data[..], i, i2, hi, VarintField(1, m.vkeyIdentifier), b2);
    n := hi - i;
  }

  method WritePubKey(m: DkimPubKey, data: array<Byte>, hi: nat) returns (n: nat)
    requires PubKeySize(m) <= hi <= data.Length < TWO63
    modifies data
    ensures n == PubKeySize(m)
    ensures Wrote(data[..], old(data[..]), hi - n, hi, EncodePubKey(m))
  {
    hide VarintField, VarintFieldSize, TextField, TextFieldSize;
    ghost var s0 := data[..];
    PubKeyLength(m);
    TextBounds(m);
    ghost var b6 := VarintField(6, SignExtend(m.keyType));
    ghost var b5 := VarintField(5, SignExtend(m.version)) + b6;
    ghost var b4 := TextField(4, m.selector) + b5;
    ghost var b3 := TextField(3, m.poseidonHash) + b4;
    ghost var b2 := TextField(2, m.pubKey) + b3;
    var i := PutVarintField(data, hi, 6, SignExtend(m.keyType));
    ghost var i6, s6 := i, data[..];
    i := PutVarintField(data, i, 5, SignExtend(m.version));
    ghost var i5, s5 := i, data[..];
    WroteInFront(s0, s6, s5, i, i6, hi, VarintField(5, SignExtend(m.version)), b6);
    i := PutTextField(data, i, 4, m.selector);
    ghost var i4, s4 := i, data[..];
    WroteInFront(s0, s5, s4, i, i5, hi, TextField(4, m.selector), b5);
    i := PutTextField(data, i, 3, m.poseidonHash);
    ghost var i3, s3 := i, data[..];
    WroteInFront(s0, s4, s3, i, i4, hi, TextField(3, m.poseidonHash), b4);
    i := PutTextField(data, i, 2, m.pubKey);
    ghost var i2, s2 := i, data[..];
    WroteInFront(s0, s3, s2, i, i3, hi, TextField(2, m.pubKey), b3);
    i := PutTextField(data, i, 1, m.domain);
    WroteInFront(s0, s2, data[..], i, i2, hi, TextField(1, m.domain), b2);
    n := hi - i;
  }

  lemma TextBounds(m: DkimPubKey)
    ensures |m.domain| <= PubKeySize(m) && |m.pubKey| <= PubKeySize(m)
    ensures |m.poseidonHash| <= PubKeySize(m) && |m.selector| <= PubKeySize(m)
  {
    hide Sov, VarintFieldSize;
  }

  method WriteGenesis(m: GenesisState, data: array<Byte>, hi: nat) returns (n: nat)
    requires GenesisSize(m) <= hi <= data.Length < TWO63
    modifies data
    ensures n == GenesisSize(m)
    ensures Wrote(data[..], old(data[..]), hi - n, hi, EncodeGenesis(m))
  {
    hide EncodeParams, ParamsSize, EncodePubKey, PubKeySize, BlobField, BlobFieldSize;
    ghost var s0 := data[..];
    GenesisLength(m);
    ghost var params := EncodeParams(m.params);
    ghost var keys, revoked := EncodePubKeys(m.dkimPubkeys), EncodeRevoked(m.revokedPubkeys);
    ParamsLength(m.params);
    PubKeysLength(m.dkimPubkeys);
    RevokedLength(m.revokedPubkeys);
    var i := WriteRevoked(m.revokedPubkeys, data, hi);
    ghost var i3, s3 := i, data[..];
    i := WritePubKeys(m.dkimPubkeys, data, i);
    ghost var i2, s2 := i, data[..];
    WroteInFront(s0, s3, s2, i, i3, hi, keys, revoked);
    BlobRoom(1, params);
    var size := WriteParams(m.params, data, i);
    i := PutHeader(data, i - size, i, 1, s2, params);
    WroteInFront(s0, s2, data[..], i, i2, hi, BlobField(1, params), keys + revoked);
    n := hi - i;
  }

  /** Repeated keys go in from the last to the first. */
  method WritePubKeys(ms: seq<DkimPubKey>, data: array<Byte>, hi: nat) returns (i: nat)
    requires |EncodePubKeys(ms)| <= hi <= data.Length < TWO63
    modifies data
    ensures Wrote(data[..], old(data[..]), i, hi, EncodePubKeys(ms))
  {
    hide EncodePubKey, PubKeySize, BlobField;
    ghost var s0 := data[..];
    i := hi;
    var k := |ms|;
    while k > 0
      invariant 0 <= k <= |ms| && i <= hi
      invariant Wrote(data[..], s0, i, hi, EncodePubKeys(ms[k..]))
    {
      ghost var back, at, s1 := EncodePubKeys(ms[k..]), i, data[..];
      k := k - 1;
      ghost var payload := EncodePubKey(ms[k]);
      assert ms[k..][1..] == ms[k + 1..];
      SuffixFits(ms, k);
      BlobRoom(2, payload);
      PubKeyLength(ms[k]);
      var size := WritePubKey(ms[k], data, i);
      i := PutHeader(data, i - size, i, 2, s1, payload);
      WroteInFront(s0, s1, data[..], i, at, hi, BlobField(2, payload), back);
    }
    assert ms[0..] == ms;
  }

  lemma {:induction false} SuffixFits(ms: seq<DkimPubKey>, k: nat)
    requires k <= |ms|
    ensures |EncodePubKeys(ms[k..])| <= |EncodePubKeys(ms)|
    decreases |ms|
  {
    hide EncodePubKey, BlobField;
    if k > 0 {
      SuffixFits(ms[1..], k - 1);
      assert ms[1..][k - 1..] == ms[k..];
    } else {
      assert ms[k..] == ms;
    }
  }

  method WriteRevoked(rs: seq<ByteString>, data: array<Byte>, hi: nat) returns (i: nat)
    requires |EncodeRevoked(rs)| <= hi <= data.Length < TWO63
    modifies data
    ensures Wrote(data[..], old(data[..]), i, hi, EncodeRevoked(rs))
  {
    hide BlobField;
    ghost var s0 := data[..];
    i := hi;
    var k := |rs|;
    while k > 0
      invariant 0 <= k <= |rs| && i <= hi
      invariant Wrote(data[..], s0, i, hi, EncodeRevoked(rs[k..]))
    {
      ghost var back, at, s1 := EncodeRevoked(rs[k..]), i, data[..];
      k := k - 1;
      assert rs[k..][1..] == rs[k + 1..];
      RevokedSuffixFits(rs, k);
      BlobRoom(3, rs[k]);
      i := PutBlobField(data, i, 3, rs[k]);
      WroteInFront(s0, s1, data[..], i, at, hi, BlobField(3, rs[k]), back);
    }
    assert rs[0..] == rs;
  }

  lemma {:induction false} RevokedSuffixFits(rs: seq<ByteString>, k: nat)
    requires k <= |rs|
    ensures |EncodeRevoked(rs[k..])| <= |EncodeRevoked(rs)|
    decreases |rs|
  {
    hide BlobField;
    if k > 0 {
      RevokedSuffixFits(rs[1..], k - 1);
      assert rs[1..][k - 1..] == rs[k..];
    } else {
      assert rs[k..] == rs;
    }
  }

  /** Marshal: a buffer of exactly the reported size, filled completely. */
  method Marshal(m: Message) returns (bs: ByteString)
    requires Size(m) < TWO63
    ensures bs == Encode(m) && |bs| == Size(m)
  {
    hide EncodeRange, EncodeIndices, EncodeParams, EncodePubKey, EncodeGenesis;
    hide RangeSize, IndicesSize, ParamsSize, PubKeySize, GenesisSize;
    SizeIsEncodedLength(m);
    var size := Size(m);
    var data := new Byte[size];
    var n;
    match m {
      case RangeMsg(r) => n := WriteRange(r, data, size);
      case IndicesMsg(i) => n := WriteIndices(i, data, size);
      case ParamsMsg(p) => n := WriteParams(p, data, size);
      case PubKeyMsg(k) => n := WritePubKey(k, data, size);
      case GenesisMsg(g) => n := WriteGenesis(g, data, size);
    }
    bs := data[..n];
    assert bs == data[..][0..size];
  }
}
