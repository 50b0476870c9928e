/** Laws of the readers: decoding is a fold over records, unknown records are transparent,
    and decoding what was written merges it into the message at hand. */
module CodecLaws {
  import opened Words
  import opened Varint
  import opened Skip
  import opened Messages
  import opened Codec

  // ---------------------------------------------------------------- a fold over records

  lemma SkipPrefix(s: ByteString, rest: ByteString)
    requires |s + rest| < TWO63
    requires SkipFrom(s, 0, 0).SkipOk? && SkipFrom(s, 0, 0).end <= |s|
    ensures SkipFrom(s + rest, 0, 0) == SkipFrom(s, 0, 0)
  {
    hide SkipFrom, WellFormed, RecordBytes;
    var n := SkipFrom(s, 0, 0).end;
    var r := SkippedIsRecord(s);
    assert s + rest == RecordBytes(r) + (s[n..] + rest);
    SkipsRecord(r, s[n..] + rest, 0, 0);
  }

  lemma SliceOfFront(s: ByteString, rest: ByteString, a: nat, b: nat)
    requires a <= b <= |s|
    ensures (s + rest)[a..b] == s[a..b]
  {
    assert forall i :: a <= i < b ==> (s + rest)[i] == s[i];
  }

  /** Where a buffer starts matters only for which error an oversized length gives. */
  lemma TakeBlobStable(s: ByteString, rest: ByteString, pos: nat, pos': nat)
    requires pos + |s| < TWO63 && pos' + |s + rest| < TWO63
    requires TakeBlob(s, pos).BlobOk?
    ensures TakeBlob(s + rest, pos') == TakeBlob(s, pos)
  {
    hide ParseVarint;
    ParseVarintPrefix(s, rest);
    var VarintOk(v, n) := ParseVarint(s);
    var length := ToInt64(v);
    BlobInside(s, pos, n, length);
    SliceOfFront(s, rest, n, n + length);
  }

  lemma BlobInside(s: ByteString, pos: nat, n: nat, length: nat)
    requires n <= |s| && pos + |s| < TWO63 && length < TWO63
    requires 0 <= ToInt64(pos + n + length) <= pos + |s|
    ensures n + length <= |s|
  {
  }

  /** A step that succeeds depends neither on what follows the record nor on where the
      buffer starts. */
  lemma StepStable(m: Message, s: ByteString, rest: ByteString, pos: nat, pos': nat)
    requires s != [] && pos + |s| < TWO63 && pos' + |s + rest| < TWO63
    requires DecodeStep(m, s, pos).StepOk?
    ensures DecodeStep(m, s + rest, pos') == DecodeStep(m, s, pos)
  {
    hide ParseVarint, SkipFrom, TakeBlob, SetBlob, SetVarint;
    ParseVarintPrefix(s, rest);
    var VarintOk(wire, a) := ParseVarint(s);
    assert (s + rest)[a..] == s[a..] + rest;
    match KindOf(m, FieldOf(wire))
    case UnknownField => SkipPrefix(s, rest);
    case VarintKind => ParseVarintPrefix(s[a..], rest);
    case BlobKind => TakeBlobStable(s[a..], rest, pos + a, pos' + a);
  }

  /** Decoding is a fold: bytes that decode on their own can be decoded first, and the
      rest then continues from the message they produced. */
  lemma {:induction false} DecodeConcat(m: Message, a: ByteString, b: ByteString, pos: nat)
    requires pos + |a + b| < TWO63
    requires Decode(m, a, pos).DecodeOk?
    ensures Decode(m, a + b, pos) == Decode(Decode(m, a, pos).m, b, pos + |a|)
    decreases |a|
  {
    hide DecodeStep, SameType;
    if a == [] {
      assert a + b == b;
    } else {
      var StepOk(m', n) := DecodeStep(m, a, pos);
      StepStable(m, a, b, pos, pos);
      assert (a + b)[n..] == a[n..] + b;
      assert Decode(m, a + b, pos) == Decode(m', a[n..] + b, pos + n);
      DecodeConcat(m', a[n..], b, pos + n);
    }
  }

  /** Two outcomes that differ at most in the error they report. */
  ghost predicate SameOutcome(x: DecodeResult, y: DecodeResult) {
    x == y || (x.DecodeErr? && y.DecodeErr?)
  }

  lemma {:induction false} DecodeAnywhere(m: Message, s: ByteString, pos: nat, pos': nat)
    requires pos + |s| < TWO63 && pos' + |s| < TWO63
    ensures SameOutcome(Decode(m, s, pos), Decode(m, s, pos'))
    decreases |s|
  {
    hide DecodeStep;
    if s != [] {
      assert s + [] == s;
      if DecodeStep(m, s, pos).StepOk? {
        StepStable(m, s, [], pos, pos');
        var StepOk(m', n) := DecodeStep(m, s, pos);
        DecodeAnywhere(m', s[n..], pos + n, pos' + n);
      } else if DecodeStep(m, s, pos').StepOk? {
        StepStable(m, s, [], pos', pos);
      }
    }
  }

  // ---------------------------------------------------------------- unknown records

  /** A well-formed record whose field the message does not have. */
  ghost predicate UnknownRecord(m: Message, r: Record) {
    && WellFormed(r)
    && var f := FieldOf(ParseVarint(r.tag).value);
    && f > 0 && KindOf(m, f) == UnknownField
  }

  lemma RecordStartsWithTag(r: Record)
    requires WellFormed(r)
    ensures IsVarint(r.tag) && WireType(ParseVarint(r.tag).value) != 4
    ensures r.tag <= RecordBytes(r)
  {
    hide ParseVarint;
  }

  lemma KindOfType(m: Message, m': Message, f: int)
    requires SameType(m, m')
    ensures KindOf(m, f) == KindOf(m', f)
  {
  }

  lemma UnknownRecordStep(m: Message, r: Record, rest: ByteString, pos: nat)
    requires UnknownRecord(m, r) && pos + |RecordBytes(r) + rest| < TWO63
    ensures RecordBytes(r) != []
    ensures DecodeStep(m, RecordBytes(r) + rest, pos) == StepOk(m, |RecordBytes(r)|)
  {
    hide ParseVarint, SkipFrom, WellFormed;
    var s := RecordBytes(r) + rest;
    var tag := r.tag;
    RecordStartsWithTag(r);
    assert s == tag + s[|tag|..];
    VarintAtFront(tag, s[|tag|..]);
    SkipsRecord(r, rest, 0, 0);
  }

  /** Inserting a record with an unused field number between records changes nothing. */
  lemma UnknownRecordTransparent(m: Message, a: ByteString, r: Record, b: ByteString)
    requires |a + (RecordBytes(r) + b)| < TWO63
    requires Decode(m, a, 0).DecodeOk? && UnknownRecord(m, r)
    ensures SameOutcome(Decode(m, a + (RecordBytes(r) + b), 0), Decode(m, a + b, 0))
  {
    hide DecodeStep, UnknownRecord;
    var m' := Decode(m, a, 0).m;
    var bs := RecordBytes(r);
    DecodeConcat(m, a, b, 0);
    DecodeConcat(m, a, bs + b, 0);
    UnknownStaysUnknown(m, m', r);
    UnknownRecordStep(m', r, b, |a|);
    assert (bs + b)[|bs|..] == b;
    DecodeAnywhere(m', b, |a| + |bs|, |a|);
  }

  lemma UnknownStaysUnknown(m: Message, m': Message, r: Record)
    requires SameType(m, m') && UnknownRecord(m, r)
    ensures UnknownRecord(m', r)
  {
    KindOfType(m, m', FieldOf(ParseVarint(r.tag).value));
  }

  // ---------------------------------------------------------------- reading what was written

  lemma OneByteTag(f: FieldNumber, t: nat, rest: ByteString)
    requires t < 8
    ensures ParseVarint([8 * f + t] + rest) == VarintOk(8 * f + t, 1)
    ensures FieldOf(8 * f + t) == f && WireType(8 * f + t) == t
  {
    VarintRoundTrip(8 * f + t, rest);
  }

  function MergeVarint(m: Message, f: int, v: Uint64): (r: Message)
    requires KindOf(m, f) == VarintKind
    ensures SameType(m, r)
  {
    if v == 0 then m else SetVarint(m, f, v)
  }

  lemma DecodesVarintField(m: Message, f: FieldNumber, v: Uint64, rest: ByteString, pos: nat)
    requires KindOf(m, f) == VarintKind
    requires pos + |VarintField(f, v) + rest| < TWO63
    ensures Decode(m, VarintField(f, v) + rest, pos)
         == Decode(MergeVarint(m, f, v), rest, pos + |VarintField(f, v)|)
  {
    hide ParseVarint, KindOf, SetVarint, SetBlob, TakeBlob, SkipUnknown, EncodeVarint, FieldOf, WireType;
    var bs := VarintField(f, v);
    if v == 0 {
      assert bs + rest == rest;
    } else {
      var s := bs + rest;
      assert s == [8 * f] + (EncodeVarint(v) + rest);
      OneByteTag(f, 0, EncodeVarint(v) + rest);
      assert s[1..] == EncodeVarint(v) + rest;
      VarintRoundTrip(v, rest);
      assert DecodeStep(m, s, pos) == StepOk(SetVarint(m, f, v), |bs|);
      assert s[|bs|..] == rest;
    }
  }

  lemma TakesWrittenBlob(payload: ByteString, rest: ByteString, pos: nat)
    requires pos + |EncodeVarint(|payload|) + payload + rest| < TWO63
    ensures TakeBlob(EncodeVarint(|payload|) + payload + rest, pos)
         == BlobOk(payload, |EncodeVarint(|payload|) + payload|)
  {
    hide ParseVarint, EncodeVarint, ToInt64;
    var len := EncodeVarint(|payload|);
    var s := len + payload + rest;
    assert ParseVarint(s) == VarintOk(|payload|, |len|) by {
      assert s == len + (payload + rest);
      VarintRoundTrip(|payload|, payload + rest);
    }
    assert s[|len|..|len| + |payload|] == payload;
    ToInt64Small(|payload|);
    ToInt64Small(pos + |len| + |payload|);
  }

  lemma DecodesBlobField(m: Message, f: FieldNumber, payload: ByteString, rest: ByteString, pos: nat)
    requires KindOf(m, f) == BlobKind
    requires pos + |BlobField(f, payload) + rest| < TWO63
    requires SetBlob(m, f, payload).DecodeOk?
    ensures Decode(m, BlobField(f, payload) + rest, pos)
         == Decode(SetBlob(m, f, payload).m, rest, pos + |BlobField(f, payload)|)
  {
    hide ParseVarint, KindOf, SetVarint, SetBlob, TakeBlob, SkipUnknown, EncodeVarint, FieldOf, WireType;
    var bs := BlobField(f, payload);
    var s := bs + rest;
    var tail := EncodeVarint(|payload|) + payload + rest;
    assert s == [8 * f + 2] + tail;
    OneByteTag(f, 2, tail);
    assert s[1..] == tail;
    TakesWrittenBlob(payload, rest, pos + 1);
    assert DecodeStep(m, s, pos) == StepOk(SetBlob(m, f, payload).m, |bs|);
    assert s[|bs|..] == rest;
  }

  lemma DecodesTextField(k: DkimPubKey, f: FieldNumber, text: ByteString, rest: ByteString, pos: nat)
    requires f <= 4 && pos + |TextField(f, text) + rest| < TWO63
    ensures Decode(PubKeyMsg(k), TextField(f, text) + rest, pos)
         == Decode(PubKeyMsg(if text == [] then k
                             else if f == 1 then k.(domain := text)
                             else if f == 2 then k.(pubKey := text)
                             else if f == 3 then k.(poseidonHash := text)
                             else k.(selector := text)), rest, pos + |TextField(f, text)|)
  {
    hide Decode;
    if text == [] {
      assert TextField(f, text) + rest == rest;
    } else {
      DecodesBlobField(PubKeyMsg(k), f, text, rest, pos);
    }
  }

  lemma MergesRange(a: IndexRange, b: IndexRange, rest: ByteString, pos: nat)
    requires pos + |EncodeRange(b) + rest| < TWO63
    ensures Decode(RangeMsg(a), EncodeRange(b) + rest, pos)
         == Decode(RangeMsg(MergeRange(a, b)), rest, pos + |EncodeRange(b)|)
  {
    hide Decode, VarintField;
    var f1, f2 := VarintField(1, b.start), VarintField(2, b.end);
    assert EncodeRange(b) + rest == f1 + (f2 + rest);
    DecodesVarintField(RangeMsg(a), 1, b.start, f2 + rest, pos);
    DecodesVarintField(MergeVarint(RangeMsg(a), 1, b.start), 2, b.end, rest, pos + |f1|);
  }

  /** Reading a written range with nothing behind it. */
  lemma MergesWholeRange(a: IndexRange, b: IndexRange)
    requires |EncodeRange(b)| < TWO63
    ensures Decode(RangeMsg(a), EncodeRange(b), 0) == DecodeOk(RangeMsg(MergeRange(a, b)))
  {
    hide EncodeRange, DecodeStep;
    MergesRange(a, b, [], 0);
    assert EncodeRange(b) + [] == EncodeRange(b);
  }

  lemma RangeFieldMerges(i: PublicInputIndices, f: FieldNumber, r: IndexRange, rest: ByteString, pos: nat)
    requires f == 3 || f == 5 || f == 6 || f == 7
    requires pos + |BlobField(f, EncodeRange(r)) + rest| < TWO63
    ensures Decode(IndicesMsg(i), BlobField(f, EncodeRange(r)) + rest, pos)
         == Decode(IndicesMsg(
              if f == 3 then i.(dkimDomainRange := MergeRange(i.dkimDomainRange, r))
              else if f == 5 then i.(txBytesRange := MergeRange(i.txBytesRange, r))
              else if f == 6 then i.(emailHostRange := MergeRange(i.emailHostRange, r))
              else i.(emailSubjectRange := MergeRange(i.emailSubjectRange, r))),
              rest, pos + |BlobField(f, EncodeRange(r))|)
  {
    hide Decode, EncodeRange, MergeRange;
    var target := if f == 3 then i.dkimDomainRange
                  else if f == 5 then i.txBytesRange
                  else if f == 6 then i.emailHostRange
                  else i.emailSubjectRange;
    MergesWholeRange(target, r);
    DecodesBlobField(IndicesMsg(i), f, EncodeRange(r), rest, pos);
  }

  lemma MergesIndices(a: PublicInputIndices, b: PublicInputIndices, rest: ByteString, pos: nat)
    requires pos + |EncodeIndices(b) + rest| < TWO63
    ensures Decode(IndicesMsg(a), EncodeIndices(b) + rest, pos)
         == Decode(IndicesMsg(MergeIndices(a, b)), rest, pos + |EncodeIndices(b)|)
  {
    hide Decode, VarintField, BlobField, EncodeRange, MergeRange;
    var f1, f2 := VarintField(1, b.minLength), VarintField(2, b.emailHashIndex);
    var f3, f4 := BlobField(3, EncodeRange(b.dkimDomainRange)), VarintField(4, b.dkimHashIndex);
    var f5, f6 := BlobField(5, EncodeRange(b.txBytesRange)), BlobField(6, EncodeRange(b.emailHostRange));
    var f7 := BlobField(7, EncodeRange(b.emailSubjectRange));
    var s7 := f7 + rest;
    var s6 := f6 + s7;
    var s5 := f5 + s6;
    var s4 := f4 + s5;
    var s3 := f3 + s4;
    var s2 := f2 + s3;
    assert EncodeIndices(b) + rest == f1 + s2;
    var a1 := a.(minLength := Latest(a.minLength, b.minLength));
    var a2 := a1.(emailHashIndex := Latest(a.emailHashIndex, b.emailHashIndex));
    var a3 := a2.(dkimDomainRange := MergeRange(a.dkimDomainRange, b.dkimDomainRange));
    var a4 := a3.(dkimHashIndex := Latest(a.dkimHashIndex, b.dkimHashIndex));
    var a5 := a4.(txBytesRange := MergeRange(a.txBytesRange, b.txBytesRange));
    var a6 := a5.(emailHostRange := MergeRange(a.emailHostRange, b.emailHostRange));
    DecodesVarintField(IndicesMsg(a), 1, b.minLength, s2, pos);
    DecodesVarintField(IndicesMsg(a1), 2, b.emailHashIndex, s3, pos + |f1|);
    RangeFieldMerges(a2, 3, b.dkimDomainRange, s4, pos + |f1| + |f2|);
    DecodesVarintField(IndicesMsg(a3), 4, b.dkimHashIndex, s5, pos + |f1| + |f2| + |f3|);
    RangeFieldMerges(a4, 5, b.txBytesRange, s6, pos + |f1| + |f2| + |f3| + |f4|);
    RangeFieldMerges(a5, 6, b.emailHostRange, s7, pos + |f1| + |f2| + |f3| + |f4| + |f5|);
    RangeFieldMerges(a6, 7, b.emailSubjectRange, rest, pos + |f1| + |f2| + |f3| + |f4| + |f5| + |f6|);
  }

  lemma MergesParams(a: Params, b: Params, rest: ByteString, pos: nat)
    requires pos + |EncodeParams(b) + rest| < TWO63
    ensures Decode(ParamsMsg(a), EncodeParams(b) + rest, pos)
         == Decode(ParamsMsg(MergeParams(a, b)), rest, pos + |EncodeParams(b)|)
  {
    hide Decode, VarintField, BlobField, EncodeIndices, MergeIndices;
    var inner := EncodeIndices(b.publicInputIndices);
    var f1, f2 := VarintField(1, b.vkeyIdentifier), VarintField(2, b.maxPubkeySizeBytes);
    var f3 := BlobField(3, inner);
    assert EncodeParams(b) + rest == f1 + (f2 + (f3 + rest));
    var a1 := a.(vkeyIdentifier := Latest(a.vkeyIdentifier, b.vkeyIdentifier));
    var a2 := a1.(maxPubkeySizeBytes := Latest(a.maxPubkeySizeBytes, b.maxPubkeySizeBytes));
    DecodesVarintField(ParamsMsg(a), 1, b.vkeyIdentifier, f2 + (f3 + rest), pos);
    DecodesVarintField(ParamsMsg(a1), 2, b.maxPubkeySizeBytes, f3 + rest, pos + |f1|);
    BlobRoom(3, inner);
    MergesWholeIndices(a.publicInputIndices, b.publicInputIndices);
    DecodesBlobField(ParamsMsg(a2), 3, inner, rest, pos + |f1| + |f2|);
  }

  lemma MergesWholeIndices(a: PublicInputIndices, b: PublicInputIndices)
    requires |EncodeIndices(b)| < TWO63
    ensures Decode(IndicesMsg(a), EncodeIndices(b), 0) == DecodeOk(IndicesMsg(MergeIndices(a, b)))
  {
    hide EncodeIndices, DecodeStep;
    MergesIndices(a, b, [], 0);
    assert EncodeIndices(b) + [] == EncodeIndices(b);
  }

  lemma MergesPubKey(a: DkimPubKey, b: DkimPubKey, rest: ByteString, pos: nat)
    requires pos + |EncodePubKey(b) + rest| < TWO63
    ensures Decode(PubKeyMsg(a), EncodePubKey(b) + rest, pos)
         == Decode(PubKeyMsg(MergePubKey(a, b)), rest, pos + |EncodePubKey(b)|)
  {
    hide Decode, VarintField, TextField;
    var f1, f2 := TextField(1, b.domain), TextField(2, b.pubKey);
    var f3, f4 := TextField(3, b.poseidonHash), TextField(4, b.selector);
    var f5, f6 := VarintField(5, SignExtend(b.version)), VarintField(6, SignExtend(b.keyType));
    var s6 := f6 + rest;
    var s5 := f5 + s6;
    var s4 := f4 + s5;
    var s3 := f3 + s4;
    var s2 := f2 + s3;
    assert EncodePubKey(b) + rest == f1 + s2;
    var a1 := a.(domain := LatestText(a.domain, b.domain));
    var a2 := a1.(pubKey := LatestText(a.pubKey, b.pubKey));
    var a3 := a2.(poseidonHash := LatestText(a.poseidonHash, b.poseidonHash));
    var a4 := a3.(selector := LatestText(a.selector, b.selector));
    var a5 := a4.(version := Latest(a.version, b.version));
    DecodesTextField(a, 1, b.domain, s2, pos);
    DecodesTextField(a1, 2, b.pubKey, s3, pos + |f1|);
    DecodesTextField(a2, 3, b.poseidonHash, s4, pos + |f1| + |f2|);
    DecodesTextField(a3, 4, b.selector, s5, pos + |f1| + |f2| + |f3|);
    DecodesVarintField(PubKeyMsg(a4), 5, SignExtend(b.version), s6, pos + |f1| + |f2| + |f3| + |f4|);
    DecodesVarintField(PubKeyMsg(a5), 6, SignExtend(b.keyType), rest, pos + |f1| + |f2| + |f3| + |f4| + |f5|);
  }

  lemma ReadsWrittenPubKey(k: DkimPubKey)
    requires |EncodePubKey(k)| < TWO63
    ensures Decode(PubKeyMsg(ZERO_PUBKEY), EncodePubKey(k), 0) == DecodeOk(PubKeyMsg(k))
  {
    hide EncodePubKey, DecodeStep;
    MergesPubKey(ZERO_PUBKEY, k, [], 0);
    assert EncodePubKey(k) + [] == EncodePubKey(k);
  }

  lemma {:induction false} AppendsPubKeys(g: GenesisState, ks: seq<DkimPubKey>, rest: ByteString, pos: nat)
    requires pos + |EncodePubKeys(ks) + rest| < TWO63
    ensures Decode(GenesisMsg(g), EncodePubKeys(ks) + rest, pos)
         == Decode(GenesisMsg(g.(dkimPubkeys := g.dkimPubkeys + ks)), rest, pos + |EncodePubKeys(ks)|)
    decreases |ks|
  {
    hide Decode, BlobField, EncodePubKey;
    if ks == [] {
      assert EncodePubKeys(ks) + rest == rest;
      assert g.dkimPubkeys + ks == g.dkimPubkeys;
    } else {
      var payload := EncodePubKey(ks[0]);
      var head, tail := BlobField(2, payload), EncodePubKeys(ks[1..]) + rest;
      assert EncodePubKeys(ks) + rest == head + tail;
      BlobRoom(2, payload);
      ReadsWrittenPubKey(ks[0]);
      DecodesBlobField(GenesisMsg(g), 2, payload, tail, pos);
      var g' := g.(dkimPubkeys := g.dkimPubkeys + [ks[0]]);
      AppendsPubKeys(g', ks[1..], rest, pos + |head|);
      assert g.dkimPubkeys + [ks[0]] + ks[1..] == g.dkimPubkeys + ks;
    }
  }

  lemma {:induction false} AppendsRevoked(g: GenesisState, rs: seq<ByteString>, rest: ByteString, pos: nat)
    requires pos + |EncodeRevoked(rs) + rest| < TWO63
    ensures Decode(GenesisMsg(g), EncodeRevoked(rs) + rest, pos)
         == Decode(GenesisMsg(g.(revokedPubkeys := g.revokedPubkeys + rs)), rest, pos + |EncodeRevoked(rs)|)
    decreases |rs|
  {
    hide Decode, BlobField;
    if rs == [] {
      assert EncodeRevoked(rs) + rest == rest;
      assert g.revokedPubkeys + rs == g.revokedPubkeys;
    } else {
      var head, tail := BlobField(3, rs[0]), EncodeRevoked(rs[1..]) + rest;
      assert EncodeRevoked(rs) + rest == head + tail;
      BlobRoom(3, rs[0]);
      DecodesBlobField(GenesisMsg(g), 3, rs[0], tail, pos);
      var g' := g.(revokedPubkeys := g.revokedPubkeys + [rs[0]]);
      AppendsRevoked(g', rs[1..], rest, pos + |head|);
      assert g.revokedPubkeys + [rs[0]] + rs[1..] == g.revokedPubkeys + rs;
    }
  }

  lemma MergesWholeParams(a: Params, b: Params)
    requires |EncodeParams(b)| < TWO63
    ensures Decode(ParamsMsg(a), EncodeParams(b), 0) == DecodeOk(ParamsMsg(MergeParams(a, b)))
  {
    hide EncodeParams, DecodeStep;
    MergesParams(a, b, [], 0);
    assert EncodeParams(b) + [] == EncodeParams(b);
  }

  lemma MergesGenesis(a: GenesisState, b: GenesisState, rest: ByteString, pos: nat)
    requires pos + |EncodeGenesis(b) + rest| < TWO63
    ensures Decode(GenesisMsg(a), EncodeGenesis(b) + rest, pos)
         == Decode(Merge(GenesisMsg(a), GenesisMsg(b)), rest, pos + |EncodeGenesis(b)|)
  {
    hide Decode, BlobField, EncodeParams, EncodePubKeys, EncodeRevoked, MergeParams;
    var payload := EncodeParams(b.params);
    var f1, f2, f3 := BlobField(1, payload), EncodePubKeys(b.dkimPubkeys), EncodeRevoked(b.revokedPubkeys);
    assert EncodeGenesis(b) + rest == f1 + (f2 + (f3 + rest));
    BlobRoom(1, payload);
    MergesWholeParams(a.params, b.params);
    DecodesBlobField(GenesisMsg(a), 1, payload, f2 + (f3 + rest), pos);
    var a1 := a.(params := MergeParams(a.params, b.params));
    AppendsPubKeys(a1, b.dkimPubkeys, f3 + rest, pos + |f1|);
    var a2 := a1.(dkimPubkeys := a.dkimPubkeys + b.dkimPubkeys);
    AppendsRevoked(a2, b.revokedPubkeys, rest, pos + |f1| + |f2|);
  }

  /** Decoding the bytes of `b` into `a` merges `b` into `a`, whatever follows. */
  lemma DecodeMerges(a: Message, b: Message, rest: ByteString, pos: nat)
    requires SameType(a, b) && pos + |Encode(b) + rest| < TWO63
    ensures Decode(a, Encode(b) + rest, pos) == Decode(Merge(a, b), rest, pos + |Encode(b)|)
  {
    hide Decode, EncodeRange, EncodeIndices, EncodeParams, EncodePubKey, EncodeGenesis;
    match a
    case RangeMsg(r) => MergesRange(r, b.range, rest, pos);
    case IndicesMsg(i) => MergesIndices(i, b.indices, rest, pos);
    case ParamsMsg(p) => MergesParams(p, b.params, rest, pos);
    case PubKeyMsg(k) => MergesPubKey(k, b.key, rest, pos);
    case GenesisMsg(g) => MergesGenesis(g, b.genesis, rest, pos);
  }

  /** Every message survives being written and read back. */
  lemma RoundTrip(m: Message)
    requires |Encode(m)| < TWO63
    ensures Decode(ZeroLike(m), Encode(m), 0) == DecodeOk(m)
  {
    hide Encode, DecodeStep, Merge;
    DecodeMerges(ZeroLike(m), m, [], 0);
    assert Encode(m) + [] == Encode(m);
    MergeIntoZero(m);
  }

  // For the messages of fixed shape the length bound always holds, whatever their fields.

  lemma RangeRoundTrip(r: IndexRange)
    ensures |EncodeRange(r)| <= 22
    ensures Decode(RangeMsg(ZERO_RANGE), EncodeRange(r), 0) == DecodeOk(RangeMsg(r))
  {
    hide Decode, EncodeRange, RangeSize;
    RangeLength(r);
    RoundTrip(RangeMsg(r));
  }

  lemma IndicesRoundTrip(i: PublicInputIndices)
    ensures |EncodeIndices(i)| <= 165
    ensures Decode(IndicesMsg(ZERO_INDICES), EncodeIndices(i), 0) == DecodeOk(IndicesMsg(i))
  {
    hide Decode, EncodeIndices, IndicesSize;
    IndicesLength(i);
    RoundTrip(IndicesMsg(i));
  }

  lemma ParamsRoundTrip(p: Params)
    ensures |EncodeParams(p)| <= 198
    ensures Decode(ParamsMsg(ZERO_PARAMS), EncodeParams(p), 0) == DecodeOk(ParamsMsg(p))
  {
    hide Decode, EncodeParams, ParamsSize;
    ParamsLength(p);
    RoundTrip(ParamsMsg(p));
  }

  /** Two encodings in a row read as their merge: later scalars win, embedded messages
      merge field by field, repeated fields add up. */
  lemma LastOneWins(a: Message, b: Message)
    requires SameType(a, b) && |Encode(a) + Encode(b)| < TWO63
    ensures Decode(ZeroLike(a), Encode(a) + Encode(b), 0) == DecodeOk(Merge(a, b))
  {
    hide Encode, DecodeStep, Merge;
    DecodeMerges(ZeroLike(a), a, Encode(b), 0);
    MergeIntoZero(a);
    DecodeMerges(a, b, [], |Encode(a)|);
    assert Encode(b) + [] == Encode(b);
  }

  /** No two messages of a type share their bytes. */
  lemma EncodeInjective(a: Message, b: Message)
    requires SameType(a, b) && |Encode(a)| < TWO63
    requires Encode(a) == Encode(b)
    ensures a == b
  {
    hide Encode, DecodeStep;
    RoundTrip(a);
    RoundTrip(b);
  }
}
