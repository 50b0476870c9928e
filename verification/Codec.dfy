/** What the generated readers compute: a fold over the records of a byte string. */
module Codec {
  import opened Words
  import opened Varint
  import opened Skip
  import opened Messages

  datatype DecodeResult = DecodeOk(m: Message) | DecodeErr(error: WireError)

  /** One turn of a reader's loop: the updated message and the bytes consumed. */
  datatype StepResult = StepOk(m: Message, size: nat) | StepErr(error: WireError)

  datatype BlobResult = BlobOk(payload: ByteString, size: nat) | BlobErr(error: WireError)

  datatype FieldKind = UnknownField | VarintKind | BlobKind

  /** Which fields a message has, and how they are written. */
  function KindOf(m: Message, f: int): (k: FieldKind) {
    match m
    case RangeMsg(_) => if f == 1 || f == 2 then VarintKind else UnknownField
    case IndicesMsg(_) =>
      if f == 1 || f == 2 || f == 4 then VarintKind
      else if f == 3 || f == 5 || f == 6 || f == 7 then BlobKind
      else UnknownField
    case ParamsMsg(_) =>
      if f == 1 || f == 2 then VarintKind else if f == 3 then BlobKind else UnknownField
    case PubKeyMsg(_) =>
      if 1 <= f <= 4 then BlobKind else if f == 5 || f == 6 then VarintKind else UnknownField
    case GenesisMsg(_) => if 1 <= f <= 3 then BlobKind else UnknownField
  }

  function SetVarint(m: Message, f: int, v: Uint64): (r: Message)
    requires KindOf(m, f) == VarintKind
    ensures SameType(m, r)
  {
    match m
    case RangeMsg(r) => RangeMsg(if f == 1 then r.(start := v) else r.(end := v))
    case IndicesMsg(i) =>
      IndicesMsg(if f == 1 then i.(minLength := v)
                 else if f == 2 then i.(emailHashIndex := v)
                 else i.(dkimHashIndex := v))
    case ParamsMsg(p) =>
      ParamsMsg(if f == 1 then p.(vkeyIdentifier := v) else p.(maxPubkeySizeBytes := v))
    case PubKeyMsg(k) =>
      PubKeyMsg(if f == 5 then k.(version := ToInt32(v)) else k.(keyType := ToInt32(v)))
  }

  /** The field number of a tag, a signed 32-bit number in the source. */
  function FieldOf(wire: Uint64): (f: Int32) {
    ToInt32(wire / 8)
  }

  /** A length and the bytes it announces, at the front of `s`; `pos` is where `s` starts
      in its buffer and only decides which of two errors an oversized length gives. */
  function TakeBlob(s: ByteString, pos: nat): (r: BlobResult)
    requires pos + |s| < TWO63
    ensures r.BlobOk? ==> |r.payload| < r.size <= |s|
  {
    match ParseVarint(s)
    case VarintErr(e) => BlobErr(e)
    case VarintOk(v, n) =>
      var length := ToInt64(v);
      if length < 0 then BlobErr(InvalidLength)
      else
        var post := ToInt64(pos + n + length);
        if post < 0 then BlobErr(InvalidLength)
        else if post > pos + |s| then BlobErr(UnexpectedEof)
        else BlobOk(s[n..n + length], n + length)
  }

  /** An unknown field is skipped whole. */
  function SkipUnknown(m: Message, s: ByteString, pos: nat): (r: StepResult)
    requires pos + |s| < TWO63
    ensures r.StepOk? ==> 0 < r.size <= |s| && r.m == m
  {
    match SkipFrom(s, 0, 0)
    case SkipErr(e) => StepErr(e)
    case SkipOk(n) =>
      if ToInt64(pos + n) < 0 then StepErr(InvalidLength)
      else if ToInt64(pos + n) > pos + |s| then StepErr(UnexpectedEof)
      else StepOk(m, n)
  }

  /** A length-delimited field: text replaces, an embedded message is merged into, a
      repeated field grows. */
  function SetBlob(m: Message, f: int, payload: ByteString): (r: DecodeResult)
    requires KindOf(m, f) == BlobKind && |payload| < TWO63
    ensures r.DecodeOk? ==> SameType(m, r.m)
    decreases |payload|, 2
  {
    match m
    case IndicesMsg(i) =>
      var target := if f == 3 then i.dkimDomainRange
                    else if f == 5 then i.txBytesRange
                    else if f == 6 then i.emailHostRange
                    else i.emailSubjectRange;
      (match Decode(RangeMsg(target), payload, 0)
       case DecodeErr(e) => DecodeErr(e)
       case DecodeOk(d) =>
         DecodeOk(IndicesMsg(
           if f == 3 then i.(dkimDomainRange := d.range)
           else if f == 5 then i.(txBytesRange := d.range)
           else if f == 6 then i.(emailHostRange := d.range)
           else i.(emailSubjectRange := d.range))))
    case ParamsMsg(p) =>
      (match Decode(IndicesMsg(p.publicInputIndices), payload, 0)
       case DecodeErr(e) => DecodeErr(e)
       case DecodeOk(d) => DecodeOk(ParamsMsg(p.(publicInputIndices := d.indices))))
    case PubKeyMsg(k) =>
      DecodeOk(PubKeyMsg(
        if f == 1 then k.(domain := payload)
        else if f == 2 then k.(pubKey := payload)
        else if f == 3 then k.(poseidonHash := payload)
        else k.(selector := payload)))
    case GenesisMsg(g) =>
      if f == 1 then
        match Decode(ParamsMsg(g.params), payload, 0)
        case DecodeErr(e) => DecodeErr(e)
        case DecodeOk(d) => DecodeOk(GenesisMsg(g.(params := d.params)))
      else if f == 2 then
        match Decode(PubKeyMsg(ZERO_PUBKEY), payload, 0)
        case DecodeErr(e) => DecodeErr(e)
        case DecodeOk(d) => DecodeOk(GenesisMsg(g.(dkimPubkeys := g.dkimPubkeys + [d.key])))
      else
        DecodeOk(GenesisMsg(g.(revokedPubkeys := g.revokedPubkeys + [payload])))
  }

  /** One turn of the loop. */
  function DecodeStep(m: Message, s: ByteString, pos: nat): (r: StepResult)
    requires s != [] && pos + |s| < TWO63
    ensures r.StepOk? ==> SameType(m, r.m) && 0 < r.size <= |s|
    decreases |s|, 0
  {
    match ParseVarint(s)
    case VarintErr(e) => StepErr(e)
    case VarintOk(wire, a) =>
      var f, t := FieldOf(wire), WireType(wire);
      if t == 4 then StepErr(EndGroupForNonGroup)
      else if f <= 0 then StepErr(IllegalTag)
      else
        match KindOf(m, f)
        case UnknownField => SkipUnknown(m, s, pos)
        case VarintKind =>
          if t != 0 then StepErr(WrongWireType)
          else
            (match ParseVarint(s[a..])
             case VarintErr(e) => StepErr(e)
             case VarintOk(v, n) => StepOk(SetVarint(m, f, v), a + n))
        case BlobKind =>
          if t != 2 then StepErr(WrongWireType)
          else
            (match TakeBlob(s[a..], pos + a)
             case BlobErr(e) => StepErr(e)
             case BlobOk(payload, n) =>
               (match SetBlob(m, f, payload)
                case DecodeErr(e) => StepErr(e)
                case DecodeOk(m') => StepOk(m', a + n)))
  }

  /** Unmarshal from position `pos` on, `s` being what is left of the buffer. */
  function Decode(m: Message, s: ByteString, pos: nat): (r: DecodeResult)
    requires pos + |s| < TWO63
    ensures r.DecodeOk? ==> SameType(m, r.m)
    decreases |s|, 1
  {
    if s == [] then DecodeOk(m)
    else
      match DecodeStep(m, s, pos)
      case StepErr(e) => DecodeErr(e)
      case StepOk(m', n) => Decode(m', s[n..], pos + n)
  }
}
