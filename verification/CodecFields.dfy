/** The wire format field by field: which bytes set which field of a message, what a writer
    puts on the wire and in which order, and what a reader refuses. */
module CodecFields {
  import opened Words
  import opened Varint
  import opened Skip
  import opened Messages
  import opened Codec
  import opened CodecLaws

  // ---------------------------------------------------------------- one field at a time

  /** A tag byte and a varint. */
  function VarintBytes(tag: Byte, v: Uint64): (bs: ByteString) {
    [tag] + EncodeVarint(v)
  }

  /** A tag byte, a length and that many bytes. */
  function BlobBytes(tag: Byte, payload: ByteString): (bs: ByteString) {
    [tag] + (EncodeVarint(|payload|) + payload)
  }

  lemma VarintBytesShort(tag: Byte, v: Uint64)
    ensures 0 < |VarintBytes(tag, v)| < TWO63
  {
    EncodedLengthIs1To10(v);
  }

  lemma ReadsVarint(m: Message, f: FieldNumber, v: Uint64)
    requires KindOf(m, f) == VarintKind
    ensures 0 < |VarintBytes(8 * f, v)| < TWO63
    ensures Decode(m, VarintBytes(8 * f, v), 0) == DecodeOk(SetVarint(m, f, v))
  {
    hide ParseVarint, KindOf, SetVarint, SetBlob, TakeBlob, SkipUnknown, EncodeVarint, FieldOf, WireType;
    VarintBytesShort(8 * f, v);
    var s := VarintBytes(8 * f, v);
    OneByteTag(f, 0, EncodeVarint(v));
    VarintRoundTrip(v, []);
    assert s[1..] == EncodeVarint(v) == EncodeVarint(v) + [];
    assert DecodeStep(m, s, 0) == StepOk(SetVarint(m, f, v), |s|);
    assert s[|s|..] == [];
  }

  lemma ReadsBlob(m: Message, f: FieldNumber, payload: ByteString)
    requires KindOf(m, f) == BlobKind && |BlobBytes(8 * f + 2, payload)| < TWO63
    ensures Decode(m, BlobBytes(8 * f + 2, payload), 0) == SetBlob(m, f, payload)
  {
    hide ParseVarint, KindOf, SetVarint, SetBlob, TakeBlob, SkipUnknown, EncodeVarint, FieldOf, WireType;
    var s := BlobBytes(8 * f + 2, payload);
    var tail := EncodeVarint(|payload|) + payload + [];
    assert s == [8 * f + 2] + tail && s[1..] == tail;
    OneByteTag(f, 2, tail);
    TakesWrittenBlob(payload, [], 1);
    assert s[|s|..] == [];
  }

  /** IndexRange: field 1 is the start, field 2 the end. */
  lemma RangeFields(r: IndexRange, v: Uint64)
    ensures |VarintBytes(0x08, v)| < TWO63 && |VarintBytes(0x10, v)| < TWO63
    ensures Decode(RangeMsg(r), VarintBytes(0x08, v), 0) == DecodeOk(RangeMsg(r.(start := v)))
    ensures Decode(RangeMsg(r), VarintBytes(0x10, v), 0) == DecodeOk(RangeMsg(r.(end := v)))
  {
    hide Decode, VarintBytes;
    ReadsVarint(RangeMsg(r), 1, v);
    ReadsVarint(RangeMsg(r), 2, v);
  }

  /** PublicInputIndices: 1 minimum length, 2 email hash, 4 DKIM hash. */
  lemma IndicesScalars(i: PublicInputIndices, v: Uint64)
    ensures |VarintBytes(0x08, v)| < TWO63 && |VarintBytes(0x10, v)| < TWO63 && |VarintBytes(0x20, v)| < TWO63
    ensures Decode(IndicesMsg(i), VarintBytes(0x08, v), 0) == DecodeOk(IndicesMsg(i.(minLength := v)))
    ensures Decode(IndicesMsg(i), VarintBytes(0x10, v), 0) == DecodeOk(IndicesMsg(i.(emailHashIndex := v)))
    ensures Decode(IndicesMsg(i), VarintBytes(0x20, v), 0) == DecodeOk(IndicesMsg(i.(dkimHashIndex := v)))
  {
    hide Decode, VarintBytes;
    ReadsVarint(IndicesMsg(i), 1, v);
    ReadsVarint(IndicesMsg(i), 2, v);
    ReadsVarint(IndicesMsg(i), 4, v);
  }

  /** The embedded ranges: 3 DKIM domain, 5 transaction bytes, 6 email host, 7 subject. A
      payload that reads into the range as it is replaces it by what comes out. */
  lemma IndicesRanges(i: PublicInputIndices, payload: ByteString, from: IndexRange, to: IndexRange)
    requires |payload| + 20 < TWO63 && Decode(RangeMsg(from), payload, 0) == DecodeOk(RangeMsg(to))
    ensures forall tag: Byte :: |BlobBytes(tag, payload)| < TWO63
    ensures i.dkimDomainRange == from ==>
              Decode(IndicesMsg(i), BlobBytes(0x1a, payload), 0) == DecodeOk(IndicesMsg(i.(dkimDomainRange := to)))
    ensures i.txBytesRange == from ==>
              Decode(IndicesMsg(i), BlobBytes(0x2a, payload), 0) == DecodeOk(IndicesMsg(i.(txBytesRange := to)))
    ensures i.emailHostRange == from ==>
              Decode(IndicesMsg(i), BlobBytes(0x32, payload), 0) == DecodeOk(IndicesMsg(i.(emailHostRange := to)))
    ensures i.emailSubjectRange == from ==>
              Decode(IndicesMsg(i), BlobBytes(0x3a, payload), 0) == DecodeOk(IndicesMsg(i.(emailSubjectRange := to)))
  {
    hide Decode;
    BlobBytesShort(payload);
    ReadsBlob(IndicesMsg(i), 3, payload);
    ReadsBlob(IndicesMsg(i), 5, payload);
    ReadsBlob(IndicesMsg(i), 6, payload);
    ReadsBlob(IndicesMsg(i), 7, payload);
  }

  lemma BlobBytesShort(payload: ByteString)
    requires |payload| + 20 < TWO63
    ensures forall tag: Byte :: |BlobBytes(tag, payload)| < TWO63
  {
    EncodedLengthIs1To10(|payload|);
  }

  /** Params: 1 key identifier, 2 size limit, 3 the indices, read into what is there. */
  lemma ParamsFields(p: Params, v: Uint64, payload: ByteString, to: PublicInputIndices)
    requires |payload| + 20 < TWO63
    requires Decode(IndicesMsg(p.publicInputIndices), payload, 0) == DecodeOk(IndicesMsg(to))
    ensures |VarintBytes(0x08, v)| < TWO63 && |VarintBytes(0x10, v)| < TWO63 && |BlobBytes(0x1a, payload)| < TWO63
    ensures Decode(ParamsMsg(p), VarintBytes(0x08, v), 0) == DecodeOk(ParamsMsg(p.(vkeyIdentifier := v)))
    ensures Decode(ParamsMsg(p), VarintBytes(0x10, v), 0) == DecodeOk(ParamsMsg(p.(maxPubkeySizeBytes := v)))
    ensures Decode(ParamsMsg(p), BlobBytes(0x1a, payload), 0) == DecodeOk(ParamsMsg(p.(publicInputIndices := to)))
  {
    hide Decode, VarintBytes;
    BlobBytesShort(payload);
    ReadsVarint(ParamsMsg(p), 1, v);
    ReadsVarint(ParamsMsg(p), 2, v);
    ReadsBlob(ParamsMsg(p), 3, payload);
  }

  /** DkimPubKey: 1 domain, 2 public key, 3 hash, 4 selector as bytes; 5 version and 6 key
      type as the low 32 bits of a varint. */
  lemma PubKeyFields(k: DkimPubKey, text: ByteString, v: Uint64)
    requires |text| + 20 < TWO63
    ensures forall tag: Byte :: |BlobBytes(tag, text)| < TWO63
    ensures |VarintBytes(0x28, v)| < TWO63 && |VarintBytes(0x30, v)| < TWO63
    ensures Decode(PubKeyMsg(k), BlobBytes(0x0a, text), 0) == DecodeOk(PubKeyMsg(k.(domain := text)))
    ensures Decode(PubKeyMsg(k), BlobBytes(0x12, text), 0) == DecodeOk(PubKeyMsg(k.(pubKey := text)))
    ensures Decode(PubKeyMsg(k), BlobBytes(0x1a, text), 0) == DecodeOk(PubKeyMsg(k.(poseidonHash := text)))
    ensures Decode(PubKeyMsg(k), BlobBytes(0x22, text), 0) == DecodeOk(PubKeyMsg(k.(selector := text)))
    ensures Decode(PubKeyMsg(k), VarintBytes(0x28, v), 0) == DecodeOk(PubKeyMsg(k.(version := ToInt32(v))))
    ensures Decode(PubKeyMsg(k), VarintBytes(0x30, v), 0) == DecodeOk(PubKeyMsg(k.(keyType := ToInt32(v))))
  {
    hide Decode, VarintBytes;
    BlobBytesShort(text);
    ReadsBlob(PubKeyMsg(k), 1, text);
    ReadsBlob(PubKeyMsg(k), 2, text);
    ReadsBlob(PubKeyMsg(k), 3, text);
    ReadsBlob(PubKeyMsg(k), 4, text);
    ReadsVarint(PubKeyMsg(k), 5, v);
    ReadsVarint(PubKeyMsg(k), 6, v);
  }

  /** GenesisState: 1 the parameters, read into what is there; 2 one more key, read from
      scratch; 3 one more revocation. */
  lemma GenesisFields(g: GenesisState, payload: ByteString)
    requires |payload| + 20 < TWO63
    ensures forall tag: Byte :: |BlobBytes(tag, payload)| < TWO63
    ensures forall to: Params :: Decode(ParamsMsg(g.params), payload, 0) == DecodeOk(ParamsMsg(to)) ==>
              Decode(GenesisMsg(g), BlobBytes(0x0a, payload), 0) == DecodeOk(GenesisMsg(g.(params := to)))
    ensures forall k: DkimPubKey :: Decode(PubKeyMsg(ZERO_PUBKEY), payload, 0) == DecodeOk(PubKeyMsg(k)) ==>
              (Decode(GenesisMsg(g), BlobBytes(0x12, payload), 0)
               == DecodeOk(GenesisMsg(g.(dkimPubkeys := g.dkimPubkeys + [k]))))
    ensures Decode(GenesisMsg(g), BlobBytes(0x1a, payload), 0)
         == DecodeOk(GenesisMsg(g.(revokedPubkeys := g.revokedPubkeys + [payload])))
  {
    hide Decode;
    BlobBytesShort(payload);
    ReadsBlob(GenesisMsg(g), 1, payload);
    ReadsBlob(GenesisMsg(g), 2, payload);
    ReadsBlob(GenesisMsg(g), 3, payload);
  }

  // ---------------------------------------------------------------- which fields there are

  /** Fields are numbered from 1 without gaps. */
  function FieldCount(m: Message): (n: nat) {
    match m
    case RangeMsg(_) => 2
    case IndicesMsg(_) => 7
    case ParamsMsg(_) => 3
    case PubKeyMsg(_) => 6
    case GenesisMsg(_) => 3
  }

  lemma KnownFields(m: Message, f: int)
    ensures KindOf(m, f) != UnknownField <==> 1 <= f <= FieldCount(m)
  {
  }

  /** A tag that is no field's: an end-group tag, a field number that is not positive as a
      signed 32-bit value, or a known field with a wire type other than its own. */
  lemma BadTagRefused(m: Message, s: ByteString, pos: nat)
    requires s != [] && pos + |s| < TWO63 && ParseVarint(s).VarintOk?
    ensures var wire := ParseVarint(s).value;
            var f, t := ToInt32(wire / 8), wire % 8;
            && (t == 4 ==> Decode(m, s, pos) == DecodeErr(EndGroupForNonGroup))
            && (t != 4 && f <= 0 ==> Decode(m, s, pos) == DecodeErr(IllegalTag))
            && (t != 4 && 1 <= f <= FieldCount(m) && t != (if KindOf(m, f) == VarintKind then 0 else 2) ==>
                  Decode(m, s, pos) == DecodeErr(WrongWireType))
  {
    hide ParseVarint, KindOf, SetVarint, SetBlob, TakeBlob, SkipUnknown, ToInt32;
    KnownFields(m, ToInt32(ParseVarint(s).value / 8));
  }

  /** What becomes of a length-delimited field, by the length announced: from 2^63 on it is
      negative; the position behind the payload may wrap; it may lie behind the buffer;
      or the payload is there. */
  lemma BlobOutcome(s: ByteString, pos: nat)
    requires pos + |s| < TWO63 && ParseVarint(s).VarintOk?
    ensures var VarintOk(length, n) := ParseVarint(s);
            TakeBlob(s, pos) ==
            if length >= TWO63 || pos + n + length >= TWO63 then BlobErr(InvalidLength)
            else if n + length > |s| then BlobErr(UnexpectedEof)
            else BlobOk(s[n..n + length], n + length)
  {
    hide ParseVarint;
  }

  // ---------------------------------------------------------------- what is written, in order

  /** A field number if the field is on the wire. */
  function If(present: bool, f: int): (fs: seq<int>) {
    if present then [f] else []
  }

  /** The field numbers of the records in a byte string, front to back. */
  function FieldsIn(s: ByteString): (fs: seq<int>)
    requires |s| < TWO63
    decreases |s|
  {
    if s == [] || !ParseVarint(s).VarintOk? then []
    else
      match SkipFrom(s, 0, 0)
      case SkipErr(_) => []
      case SkipOk(n) =>
        if n > |s| then [] else [ParseVarint(s).value / 8] + FieldsIn(s[n..])
  }

  lemma FieldInFront(r: Record, f: FieldNumber, t: nat, rest: ByteString)
    requires WellFormed(r) && r.tag == [8 * f + t] && t < 8 && !r.GroupRecord?
    requires |RecordBytes(r) + rest| < TWO63
    ensures FieldsIn(RecordBytes(r) + rest) == [f] + FieldsIn(rest)
  {
    hide SkipFrom, ParseVarint, WellFormed;
    var s := RecordBytes(r) + rest;
    SkipsRecord(r, rest, 0, 0);
    assert s == [8 * f + t] + s[1..];
    OneByteTag(f, t, s[1..]);
    assert s[|RecordBytes(r)|..] == rest;
  }

  lemma EncodedIsVarint(v: Uint64)
    ensures IsVarint(EncodeVarint(v)) && ParseVarint(EncodeVarint(v)).value == v
  {
    hide ParseVarint;
    VarintRoundTrip(v, []);
    assert EncodeVarint(v) + [] == EncodeVarint(v);
  }

  lemma TagIsVarint(f: FieldNumber, t: nat)
    requires t < 8
    ensures IsTag([8 * f + t], t)
  {
    hide ParseVarint;
    OneByteTag(f, t, []);
    assert [8 * f + t] + [] == [8 * f + t];
  }

  lemma VarintFieldInFront(f: FieldNumber, v: Uint64, rest: ByteString)
    requires |VarintField(f, v) + rest| < TWO63
    ensures FieldsIn(VarintField(f, v) + rest) == If(v != 0, f) + FieldsIn(rest)
  {
    hide FieldsIn, EncodeVarint, ParseVarint;
    if v == 0 {
      assert VarintField(f, v) + rest == rest;
    } else {
      TagIsVarint(f, 0);
      EncodedIsVarint(v);
      FieldInFront(VarintRecord([8 * f], EncodeVarint(v)), f, 0, rest);
    }
  }

  lemma BlobFieldInFront(f: FieldNumber, payload: ByteString, rest: ByteString)
    requires |BlobField(f, payload) + rest| < TWO63
    ensures FieldsIn(BlobField(f, payload) + rest) == [f] + FieldsIn(rest)
  {
    hide FieldsIn, EncodeVarint, ParseVarint;
    TagIsVarint(f, 2);
    EncodedIsVarint(|payload|);
    FieldInFront(BytesRecord([8 * f + 2], EncodeVarint(|payload|), payload), f, 2, rest);
  }

  lemma TextFieldInFront(f: FieldNumber, text: ByteString, rest: ByteString)
    requires |TextField(f, text) + rest| < TWO63
    ensures FieldsIn(TextField(f, text) + rest) == If(text != [], f) + FieldsIn(rest)
  {
    hide FieldsIn, BlobField;
    if text == [] {
      assert TextField(f, text) + rest == rest;
    } else {
      BlobFieldInFront(f, text, rest);
    }
  }

  /** Which fields of a message are on the wire, in ascending order: scalars unless zero,
      strings unless empty, embedded messages always, repeated ones as often as they are. */
  function Present(m: Message): (fs: seq<int>) {
    match m
    case RangeMsg(r) => If(r.start != 0, 1) + If(r.end != 0, 2)
    case IndicesMsg(i) =>
      If(i.minLength != 0, 1) + (If(i.emailHashIndex != 0, 2) + ([3] + (If(i.dkimHashIndex != 0, 4) + [5, 6, 7])))
    case ParamsMsg(p) => If(p.vkeyIdentifier != 0, 1) + (If(p.maxPubkeySizeBytes != 0, 2) + [3])
    case PubKeyMsg(k) =>
      If(k.domain != [], 1) + (If(k.pubKey != [], 2) + (If(k.poseidonHash != [], 3) + (If(k.selector != [], 4)
      + (If(k.version != 0, 5) + If(k.keyType != 0, 6)))))
    case GenesisMsg(g) => [1] + (seq(|g.dkimPubkeys|, _ => 2) + seq(|g.revokedPubkeys|, _ => 3))
  }

  /** Numbers from `low` on, none smaller than the one before it. */
  ghost predicate Ascend(fs: seq<int>, low: int) {
    && (forall i :: 0 <= i < |fs| ==> low <= fs[i])
    && (forall i, j :: 0 <= i < j < |fs| ==> fs[i] <= fs[j])
  }

  lemma AscendIf(present: bool, f: int, fs: seq<int>)
    requires Ascend(fs, f)
    ensures Ascend(If(present, f) + fs, f) && forall low :: low <= f ==> Ascend(If(present, f) + fs, low)
  {
  }

  lemma PresentAscends(m: Message)
    ensures Ascend(Present(m), 1)
  {
    hide If, Ascend;
    AscendLiterals();
    match m
    case RangeMsg(r) =>
      assert If(r.end != 0, 2) + [] == If(r.end != 0, 2);
      AscendIf(r.end != 0, 2, []);
      AscendIf(r.start != 0, 1, If(r.end != 0, 2));
    case IndicesMsg(i) =>
      var t4 := If(i.dkimHashIndex != 0, 4) + [5, 6, 7];
      var t3 := [3] + t4;
      var t2 := If(i.emailHashIndex != 0, 2) + t3;
      AscendIf(i.dkimHashIndex != 0, 4, [5, 6, 7]);
      AscendOne(3, t4);
      AscendIf(i.emailHashIndex != 0, 2, t3);
      AscendIf(i.minLength != 0, 1, t2);
    case ParamsMsg(p) =>
      assert [3] + [] == [3];
      AscendOne(3, []);
      AscendIf(p.maxPubkeySizeBytes != 0, 2, [3]);
      AscendIf(p.vkeyIdentifier != 0, 1, If(p.maxPubkeySizeBytes != 0, 2) + [3]);
    case PubKeyMsg(k) =>
      var t6 := If(k.keyType != 0, 6);
      var t5 := If(k.version != 0, 5) + t6;
      var t4 := If(k.selector != [], 4) + t5;
      var t3 := If(k.poseidonHash != [], 3) + t4;
      var t2 := If(k.pubKey != [], 2) + t3;
      assert t6 + [] == t6;
      AscendIf(k.keyType != 0, 6, []);
      AscendIf(k.version != 0, 5, t6);
      AscendIf(k.selector != [], 4, t5);
      AscendIf(k.poseidonHash != [], 3, t4);
      AscendIf(k.pubKey != [], 2, t3);
      AscendIf(k.domain != [], 1, t2);
    case GenesisMsg(g) =>
      AscendRepeated(|g.dkimPubkeys|, |g.revokedPubkeys|);
  }

  lemma AscendLiterals()
    ensures forall low :: Ascend([], low)
    ensures Ascend([5, 6, 7], 4)
  {
  }

  lemma AscendOne(f: int, fs: seq<int>)
    requires Ascend(fs, f) || Ascend(fs, f + 1)
    ensures forall low :: low <= f ==> Ascend([f] + fs, low)
  {
  }

  lemma AscendRepeated(a: nat, b: nat)
    ensures Ascend([1] + (seq(a, _ => 2) + seq(b, _ => 3)), 1)
  {
  }

  lemma PubKeysInFront(ms: seq<DkimPubKey>, rest: ByteString)
    requires |EncodePubKeys(ms) + rest| < TWO63
    ensures FieldsIn(EncodePubKeys(ms) + rest) == seq(|ms|, _ => 2) + FieldsIn(rest)
  {
    hide FieldsIn, BlobField, EncodePubKey;
    if ms == [] {
      assert EncodePubKeys(ms) + rest == rest;
    } else {
      var tail := EncodePubKeys(ms[1..]) + rest;
      assert EncodePubKeys(ms) + rest == BlobField(2, EncodePubKey(ms[0])) + tail;
      BlobFieldInFront(2, EncodePubKey(ms[0]), tail);
      PubKeysInFront(ms[1..], rest);
      assert [2] + seq(|ms| - 1, _ => 2) == seq(|ms|, _ => 2);
    }
  }

  lemma RevokedInFront(rs: seq<ByteString>, rest: ByteString)
    requires |EncodeRevoked(rs) + rest| < TWO63
    ensures FieldsIn(EncodeRevoked(rs) + rest) == seq(|rs|, _ => 3) + FieldsIn(rest)
  {
    hide FieldsIn, BlobField;
    if rs == [] {
      assert EncodeRevoked(rs) + rest == rest;
    } else {
      var tail := EncodeRevoked(rs[1..]) + rest;
      assert EncodeRevoked(rs) + rest == BlobField(3, rs[0]) + tail;
      BlobFieldInFront(3, rs[0], tail);
      RevokedInFront(rs[1..], rest);
      assert [3] + seq(|rs| - 1, _ => 3) == seq(|rs|, _ => 3);
    }
  }

  lemma NothingLeft()
    ensures FieldsIn([]) == []
  {
  }

  lemma RangeInOrder(r: IndexRange)
    requires |EncodeRange(r)| < TWO63
    ensures FieldsIn(EncodeRange(r)) == Present(RangeMsg(r))
  {
    hide FieldsIn, VarintField;
    NothingLeft();
    var f1, f2 := VarintField(1, r.start), VarintField(2, r.end);
    assert EncodeRange(r) == f1 + f2 && f2 == f2 + [];
    VarintFieldInFront(1, r.start, f2);
    VarintFieldInFront(2, r.end, []);
  }

  lemma IndicesInOrder(i: PublicInputIndices)
    requires |EncodeIndices(i)| < TWO63
    ensures FieldsIn(EncodeIndices(i)) == Present(IndicesMsg(i))
  {
    hide FieldsIn, VarintField, BlobField, EncodeRange;
    NothingLeft();
    var f7 := BlobField(7, EncodeRange(i.emailSubjectRange));
    var t6 := BlobField(6, EncodeRange(i.emailHostRange)) + f7;
    var t5 := BlobField(5, EncodeRange(i.txBytesRange)) + t6;
    var t4 := VarintField(4, i.dkimHashIndex) + t5;
    var t3 := BlobField(3, EncodeRange(i.dkimDomainRange)) + t4;
    var t2 := VarintField(2, i.emailHashIndex) + t3;
    assert f7 == f7 + [];
    VarintFieldInFront(1, i.minLength, t2);
    VarintFieldInFront(2, i.emailHashIndex, t3);
    BlobFieldInFront(3, EncodeRange(i.dkimDomainRange), t4);
    VarintFieldInFront(4, i.dkimHashIndex, t5);
    BlobFieldInFront(5, EncodeRange(i.txBytesRange), t6);
    BlobFieldInFront(6, EncodeRange(i.emailHostRange), f7);
    BlobFieldInFront(7, EncodeRange(i.emailSubjectRange), []);
    assert FieldsIn(t5) == [5] + ([6] + [7]) == [5, 6, 7];
  }

  lemma ParamsInOrder(p: Params)
    requires |EncodeParams(p)| < TWO63
    ensures FieldsIn(EncodeParams(p)) == Present(ParamsMsg(p))
  {
    hide FieldsIn, VarintField, BlobField, EncodeIndices;
    NothingLeft();
    var f3 := BlobField(3, EncodeIndices(p.publicInputIndices));
    assert f3 == f3 + [];
    VarintFieldInFront(1, p.vkeyIdentifier, VarintField(2, p.maxPubkeySizeBytes) + f3);
    VarintFieldInFront(2, p.maxPubkeySizeBytes, f3);
    BlobFieldInFront(3, EncodeIndices(p.publicInputIndices), []);
  }

  lemma PubKeyInOrder(k: DkimPubKey)
    requires |EncodePubKey(k)| < TWO63
    ensures FieldsIn(EncodePubKey(k)) == Present(PubKeyMsg(k))
  {
    hide FieldsIn, VarintField, TextField, SignExtend, If;
    NothingLeft();
    ZeroEnum(k.version);
    ZeroEnum(k.keyType);
    var v5, v6 := SignExtend(k.version), SignExtend(k.keyType);
    var f6 := VarintField(6, v6);
    var t5 := VarintField(5, v5) + f6;
    var t4 := TextField(4, k.selector) + t5;
    var t3 := TextField(3, k.poseidonHash) + t4;
    var t2 := TextField(2, k.pubKey) + t3;
    assert f6 == f6 + [];
    TextFieldInFront(1, k.domain, t2);
    TextFieldInFront(2, k.pubKey, t3);
    TextFieldInFront(3, k.poseidonHash, t4);
    TextFieldInFront(4, k.selector, t5);
    VarintFieldInFront(5, v5, f6);
    VarintFieldInFront(6, v6, []);
    assert If(v6 != 0, 6) + [] == If(v6 != 0, 6);
  }

  lemma ZeroEnum(x: Int32)
    ensures SignExtend(x) == 0 <==> x == 0
  {
  }

  lemma GenesisInOrder(g: GenesisState)
    requires |EncodeGenesis(g)| < TWO63
    ensures FieldsIn(EncodeGenesis(g)) == Present(GenesisMsg(g))
  {
    hide FieldsIn, BlobField, EncodeParams, EncodePubKeys, EncodeRevoked;
    NothingLeft();
    var keys, revoked := EncodePubKeys(g.dkimPubkeys), EncodeRevoked(g.revokedPubkeys);
    BlobFieldInFront(1, EncodeParams(g.params), keys + revoked);
    PubKeysInFront(g.dkimPubkeys, revoked);
    assert revoked == revoked + [];
    RevokedInFront(g.revokedPubkeys, []);
  }

  /** What a writer puts on the wire: exactly the fields that are present, in ascending
      order of their numbers. */
  lemma WrittenInOrder(m: Message)
    requires |Encode(m)| < TWO63
    ensures FieldsIn(Encode(m)) == Present(m)
    ensures Ascend(Present(m), 1)
  {
    hide EncodeRange, EncodeIndices, EncodeParams, EncodePubKey, EncodeGenesis, FieldsIn, Present, Ascend;
    PresentAscends(m);
    match m
    case RangeMsg(r) => RangeInOrder(r);
    case IndicesMsg(i) => IndicesInOrder(i);
    case ParamsMsg(p) => ParamsInOrder(p);
    case PubKeyMsg(k) => PubKeyInOrder(k);
    case GenesisMsg(g) => GenesisInOrder(g);
  }

  /** A negative enum is sign-extended: it takes ten bytes. */
  lemma NegativeEnumTakesTenBytes(x: Int32)
    requires x < 0
    ensures |EncodeVarint(SignExtend(x))| == 10
  {
    EncodedLengthIs1To10(SignExtend(x));
    if |EncodeVarint(SignExtend(x))| <= 9 {
      EncodedShape(SignExtend(x), []);
      ShortIsSmall(EncodeVarint(SignExtend(x)));
    }
  }

  lemma ShortIsSmall(bs: ByteString)
    requires |bs| <= 9
    ensures GroupValue(bs) < TWO63
  {
    hide Pow2;
    GroupValueSnoc(bs, 0);
    Pow2At64();
    Pow2Monotone(7 * |bs|, 63);
  }
}
