/** The protobuf messages of x/dkim as values, and the bytes each of them stands for. */
module Messages {
  import opened Words
  import opened Varint

  datatype IndexRange = IndexRange(start: Uint64, end: Uint64)

  datatype PublicInputIndices = PublicInputIndices(
    minLength: Uint64,
    emailHashIndex: Uint64,
    dkimDomainRange: IndexRange,
    dkimHashIndex: Uint64,
    txBytesRange: IndexRange,
    emailHostRange: IndexRange,
    emailSubjectRange: IndexRange)

  datatype Params = Params(
    vkeyIdentifier: Uint64,
    maxPubkeySizeBytes: Uint64,
    publicInputIndices: PublicInputIndices)

  /** Strings are their bytes. Version and key type are enums over 32-bit integers; a
      message on the wire may carry any of them. */
  datatype DkimPubKey = DkimPubKey(
    domain: ByteString,
    pubKey: ByteString,
    poseidonHash: ByteString,
    selector: ByteString,
    version: Int32,
    keyType: Int32)

  datatype GenesisState = GenesisState(
    params: Params,
    dkimPubkeys: seq<DkimPubKey>,
    revokedPubkeys: seq<ByteString>)

  /** Any message of the module: the readers share one loop and differ in their fields. */
  datatype Message =
    | RangeMsg(range: IndexRange)
    | IndicesMsg(indices: PublicInputIndices)
    | ParamsMsg(params: Params)
    | PubKeyMsg(key: DkimPubKey)
    | GenesisMsg(genesis: GenesisState)

  const ZERO_RANGE := IndexRange(0, 0)
  const ZERO_INDICES := PublicInputIndices(0, 0, ZERO_RANGE, 0, ZERO_RANGE, ZERO_RANGE, ZERO_RANGE)
  const ZERO_PARAMS := Params(0, 0, ZERO_INDICES)
  const ZERO_PUBKEY := DkimPubKey([], [], [], [], 0, 0)
  const ZERO_GENESIS := GenesisState(ZERO_PARAMS, [], [])

  /** The fresh message a reader starts from. */
  function ZeroLike(m: Message): (z: Message) {
    match m
    case RangeMsg(_) => RangeMsg(ZERO_RANGE)
    case IndicesMsg(_) => IndicesMsg(ZERO_INDICES)
    case ParamsMsg(_) => ParamsMsg(ZERO_PARAMS)
    case PubKeyMsg(_) => PubKeyMsg(ZERO_PUBKEY)
    case GenesisMsg(_) => GenesisMsg(ZERO_GENESIS)
  }

  predicate SameType(a: Message, b: Message) {
    ZeroLike(a) == ZeroLike(b)
  }

  // ---------------------------------------------------------------- fields on the wire

  /** Field numbers whose tag takes one byte. */
  type FieldNumber = f: int | 1 <= f <= 15 witness 1

  function VarintField(f: FieldNumber, v: Uint64): (bs: ByteString) {
    if v == 0 then [] else [8 * f] + EncodeVarint(v)
  }

  /** A length-delimited field: embedded messages are written even when empty. */
  function BlobField(f: FieldNumber, payload: ByteString): (bs: ByteString) {
    [8 * f + 2] + (EncodeVarint(|payload|) + payload)
  }

  /** Strings and byte fields are left out when empty. */
  function TextField(f: FieldNumber, payload: ByteString): (bs: ByteString) {
    if payload == [] then [] else BlobField(f, payload)
  }

  // ---------------------------------------------------------------- messages on the wire

  function EncodeRange(m: IndexRange): (bs: ByteString) {
    VarintField(1, m.start) + VarintField(2, m.end)
  }

  function EncodeIndices(m: PublicInputIndices): (bs: ByteString) {
    VarintField(1, m.minLength)
    + (VarintField(2, m.emailHashIndex)
    + (BlobField(3, EncodeRange(m.dkimDomainRange))
    + (VarintField(4, m.dkimHashIndex)
    + (BlobField(5, EncodeRange(m.txBytesRange))
    + (BlobField(6, EncodeRange(m.emailHostRange))
    + BlobField(7, EncodeRange(m.emailSubjectRange)))))))
  }

  function EncodeParams(m: Params): (bs: ByteString) {
    VarintField(1, m.vkeyIdentifier)
    + (VarintField(2, m.maxPubkeySizeBytes)
    + BlobField(3, EncodeIndices(m.publicInputIndices)))
  }

  function EncodePubKey(m: DkimPubKey): (bs: ByteString) {
    TextField(1, m.domain)
    + (TextField(2, m.pubKey)
    + (TextField(3, m.poseidonHash)
    + (TextField(4, m.selector)
    + (VarintField(5, SignExtend(m.version))
    + VarintField(6, SignExtend(m.keyType))))))
  }

  function EncodePubKeys(ms: seq<DkimPubKey>): (bs: ByteString) {
    if ms == [] then [] else BlobField(2, EncodePubKey(ms[0])) + EncodePubKeys(ms[1..])
  }

  function EncodeRevoked(rs: seq<ByteString>): (bs: ByteString) {
    if rs == [] then [] else BlobField(3, rs[0]) + EncodeRevoked(rs[1..])
  }

  function EncodeGenesis(m: GenesisState): (bs: ByteString) {
    BlobField(1, EncodeParams(m.params)) + (EncodePubKeys(m.dkimPubkeys) + EncodeRevoked(m.revokedPubkeys))
  }

  function Encode(m: Message): (bs: ByteString) {
    match m
    case RangeMsg(r) => EncodeRange(r)
    case IndicesMsg(i) => EncodeIndices(i)
    case ParamsMsg(p) => EncodeParams(p)
    case PubKeyMsg(k) => EncodePubKey(k)
    case GenesisMsg(g) => EncodeGenesis(g)
  }

  // ---------------------------------------------------------------- sizes

  function VarintFieldSize(v: Uint64): (n: nat) {
    if v == 0 then 0 else 1 + Sov(v)
  }

  function BlobFieldSize(length: nat): (n: nat) {
    1 + length + Sov(length)
  }

  function TextFieldSize(length: nat): (n: nat) {
    if length == 0 then 0 else BlobFieldSize(length)
  }

  function RangeSize(m: IndexRange): (n: nat) {
    VarintFieldSize(m.start) + VarintFieldSize(m.end)
  }

  function IndicesSize(m: PublicInputIndices): (n: nat) {
    VarintFieldSize(m.minLength)
    + VarintFieldSize(m.emailHashIndex)
    + BlobFieldSize(RangeSize(m.dkimDomainRange))
    + VarintFieldSize(m.dkimHashIndex)
    + BlobFieldSize(RangeSize(m.txBytesRange))
    + BlobFieldSize(RangeSize(m.emailHostRange))
    + BlobFieldSize(RangeSize(m.emailSubjectRange))
  }

  function ParamsSize(m: Params): (n: nat) {
    VarintFieldSize(m.vkeyIdentifier)
    + VarintFieldSize(m.maxPubkeySizeBytes)
    + BlobFieldSize(IndicesSize(m.publicInputIndices))
  }

  function PubKeySize(m: DkimPubKey): (n: nat) {
    TextFieldSize(|m.domain|)
    + TextFieldSize(|m.pubKey|)
    + TextFieldSize(|m.poseidonHash|)
    + TextFieldSize(|m.selector|)
    + VarintFieldSize(SignExtend(m.version))
    + VarintFieldSize(SignExtend(m.keyType))
  }

  function PubKeysSize(ms: seq<DkimPubKey>): (n: nat) {
    if ms == [] then 0 else BlobFieldSize(PubKeySize(ms[0])) + PubKeysSize(ms[1..])
  }

  function RevokedSize(rs: seq<ByteString>): (n: nat) {
    if rs == [] then 0 else BlobFieldSize(|rs[0]|) + RevokedSize(rs[1..])
  }

  function GenesisSize(m: GenesisState): (n: nat) {
    BlobFieldSize(ParamsSize(m.params)) + PubKeysSize(m.dkimPubkeys) + RevokedSize(m.revokedPubkeys)
  }

  /** The size a message reports before it is written. */
  function Size(m: Message): (n: nat) {
    match m
    case RangeMsg(r) => RangeSize(r)
    case IndicesMsg(i) => IndicesSize(i)
    case ParamsMsg(p) => ParamsSize(p)
    case PubKeyMsg(k) => PubKeySize(k)
    case GenesisMsg(g) => GenesisSize(g)
  }

  lemma VarintFieldLength(f: FieldNumber, v: Uint64)
    ensures |VarintField(f, v)| == VarintFieldSize(v) <= 1 + MAX_VARINT_LEN
  {
    SovIsEncodedLength(v);
    EncodedLengthIs1To10(v);
  }

  lemma BlobFieldLength(f: FieldNumber, payload: ByteString)
    ensures |BlobField(f, payload)| == BlobFieldSize(|payload|)
  {
    SovIsEncodedLength(|payload|);
  }

  lemma BlobRoom(f: FieldNumber, payload: ByteString)
    ensures |payload| < |BlobField(f, payload)|
  {
  }

  lemma RangeLength(m: IndexRange)
    ensures |EncodeRange(m)| == RangeSize(m) <= 22
  {
    VarintFieldLength(1, m.start);
    VarintFieldLength(2, m.end);
  }

  lemma RangeFieldLength(f: FieldNumber, m: IndexRange)
    ensures |BlobField(f, EncodeRange(m))| == BlobFieldSize(RangeSize(m)) <= 33
  {
    RangeLength(m);
    BlobFieldLength(f, EncodeRange(m));
    SovIsEncodedLength(RangeSize(m));
    EncodedLengthIs1To10(RangeSize(m));
  }

  lemma IndicesLength(m: PublicInputIndices)
    ensures |EncodeIndices(m)| == IndicesSize(m) <= 165
  {
    hide VarintField, VarintFieldSize, BlobField, BlobFieldSize;
    VarintFieldLength(1, m.minLength);
    VarintFieldLength(2, m.emailHashIndex);
    RangeFieldLength(3, m.dkimDomainRange);
    VarintFieldLength(4, m.dkimHashIndex);
    RangeFieldLength(5, m.txBytesRange);
    RangeFieldLength(6, m.emailHostRange);
    RangeFieldLength(7, m.emailSubjectRange);
  }

  lemma ParamsLength(m: Params)
    ensures |EncodeParams(m)| == ParamsSize(m) <= 198
  {
    var inner := EncodeIndices(m.publicInputIndices);
    VarintFieldLength(1, m.vkeyIdentifier);
    VarintFieldLength(2, m.maxPubkeySizeBytes);
    IndicesLength(m.publicInputIndices);
    BlobFieldLength(3, inner);
    SovIsEncodedLength(|inner|);
    EncodedLengthIs1To10(|inner|);
  }

  lemma PubKeyLength(m: DkimPubKey)
    ensures |EncodePubKey(m)| == PubKeySize(m)
  {
    hide VarintField, VarintFieldSize, BlobField, BlobFieldSize;
    BlobFieldLength(1, m.domain);
    BlobFieldLength(2, m.pubKey);
    BlobFieldLength(3, m.poseidonHash);
    BlobFieldLength(4, m.selector);
    VarintFieldLength(5, SignExtend(m.version));
    VarintFieldLength(6, SignExtend(m.keyType));
  }

  lemma {:induction false} PubKeysLength(ms: seq<DkimPubKey>)
    ensures |EncodePubKeys(ms)| == PubKeysSize(ms)
  {
    hide EncodePubKey, PubKeySize, BlobField, BlobFieldSize;
    if ms != [] {
      PubKeyLength(ms[0]);
      BlobFieldLength(2, EncodePubKey(ms[0]));
      PubKeysLength(ms[1..]);
    }
  }

  lemma {:induction false} RevokedLength(rs: seq<ByteString>)
    ensures |EncodeRevoked(rs)| == RevokedSize(rs)
  {
    hide BlobField, BlobFieldSize;
    if rs != [] {
      BlobFieldLength(3, rs[0]);
      RevokedLength(rs[1..]);
    }
  }

  lemma GenesisLength(m: GenesisState)
    ensures |EncodeGenesis(m)| == GenesisSize(m)
  {
    hide BlobField, BlobFieldSize, EncodeParams, ParamsSize, EncodePubKeys, EncodeRevoked;
    ParamsLength(m.params);
    BlobFieldLength(1, EncodeParams(m.params));
    PubKeysLength(m.dkimPubkeys);
    RevokedLength(m.revokedPubkeys);
  }

  /** The size computed in advance is the length of what gets written. */
  lemma SizeIsEncodedLength(m: Message)
    ensures |Encode(m)| == Size(m)
  {
    hide EncodeRange, EncodeIndices, EncodeParams, EncodePubKey, EncodeGenesis;
    hide RangeSize, IndicesSize, ParamsSize, PubKeySize, GenesisSize;
    match m
    case RangeMsg(r) => RangeLength(r);
    case IndicesMsg(i) => IndicesLength(i);
    case ParamsMsg(p) => ParamsLength(p);
    case PubKeyMsg(k) => PubKeyLength(k);
    case GenesisMsg(g) => GenesisLength(g);
  }

  // ---------------------------------------------------------------- merging

  /** "Last one wins" for scalars, recursively for embedded messages, and appending for
      repeated fields. A zero or empty scalar of `b` is not on the wire and overrides
      nothing. */
  function Merge(a: Message, b: Message): (c: Message)
    requires SameType(a, b)
    ensures SameType(c, a)
  {
    match a
    case RangeMsg(r) => RangeMsg(MergeRange(r, b.range))
    case IndicesMsg(i) => IndicesMsg(MergeIndices(i, b.indices))
    case ParamsMsg(p) => ParamsMsg(MergeParams(p, b.params))
    case PubKeyMsg(k) => PubKeyMsg(MergePubKey(k, b.key))
    case GenesisMsg(g) =>
      GenesisMsg(GenesisState(MergeParams(g.params, b.genesis.params),
                              g.dkimPubkeys + b.genesis.dkimPubkeys,
                              g.revokedPubkeys + b.genesis.revokedPubkeys))
  }

  function Latest(a: int, b: int): (c: int) {
    if b == 0 then a else b
  }

  function LatestText(a: ByteString, b: ByteString): (c: ByteString) {
    if b == [] then a else b
  }

  function MergeRange(a: IndexRange, b: IndexRange): (c: IndexRange) {
    IndexRange(Latest(a.start, b.start), Latest(a.end, b.end))
  }

  function MergeIndices(a: PublicInputIndices, b: PublicInputIndices): (c: PublicInputIndices) {
    PublicInputIndices(
      Latest(a.minLength, b.minLength),
      Latest(a.emailHashIndex, b.emailHashIndex),
      MergeRange(a.dkimDomainRange, b.dkimDomainRange),
      Latest(a.dkimHashIndex, b.dkimHashIndex),
      MergeRange(a.txBytesRange, b.txBytesRange),
      MergeRange(a.emailHostRange, b.emailHostRange),
      MergeRange(a.emailSubjectRange, b.emailSubjectRange))
  }

  function MergeParams(a: Params, b: Params): (c: Params) {
    Params(
      Latest(a.vkeyIdentifier, b.vkeyIdentifier),
      Latest(a.maxPubkeySizeBytes, b.maxPubkeySizeBytes),
      MergeIndices(a.publicInputIndices, b.publicInputIndices))
  }

  function MergePubKey(a: DkimPubKey, b: DkimPubKey): (c: DkimPubKey) {
    DkimPubKey(
      LatestText(a.domain, b.domain),
      LatestText(a.pubKey, b.pubKey),
      LatestText(a.poseidonHash, b.poseidonHash),
      LatestText(a.selector, b.selector),
      Latest(a.version, b.version),
      Latest(a.keyType, b.keyType))
  }

  lemma MergeIntoZero(m: Message)
    ensures Merge(ZeroLike(m), m) == m
  {
  }
}
