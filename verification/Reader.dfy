/** The generated readers: objects whose Unmarshal walks a buffer and updates their fields
    in place, embedded messages being objects of their own. */
module Reader {
  import opened Options
  import opened Words
  import opened Varint
  import opened Skip
  import opened Messages
  import opened Codec

  // ---------------------------------------------------------------- the pieces of a turn

  /** A tag: its field number and wire type. */
  method ReadTag(data: ByteString, index: nat)
    returns (field: Int32, wireType: nat, next: nat, err: Option<WireError>)
    requires index < |data| < TWO63
    ensures err == None ==>
              && ParseVarint(data[index..]).VarintOk?
              && var VarintOk(wire, a) := ParseVarint(data[index..]);
              && field == FieldOf(wire) > 0 && wireType == WireType(wire) != 4
              && next == index + a <= |data|
    ensures err.Some? ==> forall m: Message :: DecodeStep(m, data[index..], index) == StepErr(err.value)
  {
    hide ParseVarint, SkipUnknown, TakeBlob, SetBlob, SetVarint, KindOf;
    var wire;
    field, wireType := 0, 0;
    wire, next, err := ReadGroups(data, index, TWO64);
    if err.Some? { return; }
    field, wireType := ToInt32(wire / 8), wire % 8;
    if wireType == 4 {
      err := Some(EndGroupForNonGroup);
    } else if field <= 0 {
      err := Some(IllegalTag);
    }
  }

  /** The length of a length-delimited field; its payload is data[next..post]. */
  method ReadBlob(data: ByteString, index: nat)
    returns (payload: ByteString, post: nat, err: Option<WireError>)
    requires index <= |data| < TWO63
    ensures match TakeBlob(data[index..], index)
      case BlobOk(p, n) => err == None && payload == p && post == index + n <= |data|
      case BlobErr(e) => err == Some(e)
  {
    hide ParseVarint;
    payload, post := [], 0;
    var length, next;
    length, next, err := ReadGroups(data, index, TWO64);
    if err.Some? { return; }
    if ToInt64(length) < 0 {
      err := Some(InvalidLength);
      return;
    }
    var end := ToInt64(next + ToInt64(length));
    if end < 0 {
      err := Some(InvalidLength);
      return;
    }
    if end > |data| {
      err := Some(UnexpectedEof);
      return;
    }
    post := end;
    payload := data[next..post];
    assert payload == data[index..][next - index..post - index];
  }

  /** The default branch: the whole record from its tag on is skipped. */
  method SkipField(ghost m: Message, data: ByteString, index: nat) returns (next: nat, err: Option<WireError>)
    requires index <= |data| < TWO63
    ensures match SkipUnknown(m, data[index..], index)
      case StepOk(_, n) => err == None && next == index + n <= |data|
      case StepErr(e) => err == Some(e)
  {
    hide SkipFrom;
    var skipped;
    next := index;
    skipped, err := SkipRecord(data[index..]);
    if err.Some? { return; }
    if ToInt64(index + skipped) < 0 {
      err := Some(InvalidLength);
    } else if ToInt64(index + skipped) > |data| {
      err := Some(UnexpectedEof);
    } else {
      next := index + skipped;
    }
  }

  lemma Turn(m: Message, data: ByteString, index: nat, m': Message, next: nat)
    requires index < next <= |data| < TWO63
    requires DecodeStep(m, data[index..], index) == StepOk(m', next - index)
    ensures Decode(m, data[index..], index) == Decode(m', data[next..], next)
  {
    hide DecodeStep;
    assert data[index..][next - index..] == data[next..];
  }

  // ---------------------------------------------------------------- messages

  class RangeMessage {
    var start: Uint64
    var end: Uint64

    constructor ()
      ensures Value() == ZERO_RANGE
    {
      start, end := 0, 0;
    }

    function Value(): (v: IndexRange)
      reads this
    {
      IndexRange(start, end)
    }

    /** The reader computes the fold of its buffer over the fields it starts with. */
    method Unmarshal(data: ByteString) returns (err: Option<WireError>)
      requires |data| < TWO63
      modifies this
      ensures match Decode(RangeMsg(old(Value())), data, 0)
        case DecodeOk(m) => err == None && RangeMsg(Value()) == m
        case DecodeErr(e) => err == Some(e)
    {
      ghost var goal := Decode(RangeMsg(Value()), data, 0);
      var index := 0;
      err := None;
      while index < |data|
        invariant index <= |data| && err == None
        invariant Decode(RangeMsg(Value()), data[index..], index) == goal
        decreases |data| - index
      {
        ghost var m, pre := RangeMsg(Value()), index;
        var next;
        next, err := Step(data, index);
        if err.Some? { return; }
        Turn(m, data, pre, RangeMsg(Value()), next);
        index := next;
      }
      assert data[index..] == [];
    }

    method Step(data: ByteString, index: nat) returns (next: nat, err: Option<WireError>)
      requires index < |data| < TWO63
      modifies this
      ensures match DecodeStep(RangeMsg(old(Value())), data[index..], index)
        case StepOk(m, n) => err == None && RangeMsg(Value()) == m && next == index + n
        case StepErr(e) => err == Some(e)
    {
      hide ParseVarint, SkipUnknown;
      var field, wireType;
      field, wireType, next, err := ReadTag(data, index);
      if err.Some? { return; }
      assert data[next..] == data[index..][next - index..];
      match field {
        case 1 =>
          if wireType != 0 { return next, Some(WrongWireType); }
          var v;
          v, next, err := ReadGroups(data, next, TWO64);
          if err.Some? { return; }
          start := v;
        case 2 =>
          if wireType != 0 { return next, Some(WrongWireType); }
          var v;
          v, next, err := ReadGroups(data, next, TWO64);
          if err.Some? { return; }
          end := v;
        case _ =>
          next, err := SkipField(RangeMsg(Value()), data, index);
      }
    }
  }

  class IndicesMessage {
    var minLength: Uint64
    var emailHashIndex: Uint64
    const dkimDomainRange: RangeMessage
    var dkimHashIndex: Uint64
    const txBytesRange: RangeMessage
    const emailHostRange: RangeMessage
    const emailSubjectRange: RangeMessage

    ghost function Parts(): (p: set<object>) {
      {this, dkimDomainRange, txBytesRange, emailHostRange, emailSubjectRange}
    }

    /** The embedded messages are separate pieces of memory. */
    ghost predicate Valid() {
      && dkimDomainRange != txBytesRange && dkimDomainRange != emailHostRange
      && dkimDomainRange != emailSubjectRange && txBytesRange != emailHostRange
      && txBytesRange != emailSubjectRange && emailHostRange != emailSubjectRange
    }

    constructor ()
      ensures Valid() && fresh(Parts())
      ensures Value() == ZERO_INDICES
    {
      minLength, emailHashIndex, dkimHashIndex := 0, 0, 0;
      dkimDomainRange := new RangeMessage();
      txBytesRange := new RangeMessage();
      emailHostRange := new RangeMessage();
      emailSubjectRange := new RangeMessage();
    }

    ghost function Value(): (v: PublicInputIndices)
      reads Parts()
    {
      PublicInputIndices(minLength, emailHashIndex, dkimDomainRange.Value(), dkimHashIndex,
                         txBytesRange.Value(), emailHostRange.Value(), emailSubjectRange.Value())
    }

    /** The reader computes the fold of its buffer over the fields it starts with. */
    method Unmarshal(data: ByteString) returns (err: Option<WireError>)
      requires Valid() && |data| < TWO63
      modifies Parts()
      ensures match Decode(IndicesMsg(old(Value())), data, 0)
        case DecodeOk(m) => err == None && IndicesMsg(Value()) == m
        case DecodeErr(e) => err == Some(e)
    {
      hide DecodeStep;
      ghost var goal := Decode(IndicesMsg(Value()), data, 0);
      var index := 0;
      err := None;
      while index < |data|
        invariant index <= |data| && err == None
        invariant Decode(IndicesMsg(Value()), data[index..], index) == goal
        decreases |data| - index
      {
        ghost var m, pre := IndicesMsg(Value()), index;
        var next;
        next, err := Step(data, index);
        if err.Some? { return; }
        Turn(m, data, pre, IndicesMsg(Value()), next);
        index := next;
      }
      assert data[index..] == [];
    }

    method Step(data: ByteString, index: nat) returns (next: nat, err: Option<WireError>)
      requires Valid() && index < |data| < TWO63
      modifies Parts()
      ensures match DecodeStep(IndicesMsg(old(Value())), data[index..], index)
        case StepOk(m, n) => err == None && IndicesMsg(Value()) == m && next == index + n
        case StepErr(e) => err == Some(e)
    {
      hide ParseVarint, SkipUnknown, TakeBlob, Decode;
      var field, wireType;
      field, wireType, next, err := ReadTag(data, index);
      if err.Some? { return; }
      assert data[next..] == data[index..][next - index..];
      match field {
        case 1 =>
          if wireType != 0 { return next, Some(WrongWireType); }
          var v;
          v, next, err := ReadGroups(data, next, TWO64);
          if err.Some? { return; }
          minLength := v;
        case 2 =>
          if wireType != 0 { return next, Some(WrongWireType); }
          var v;
          v, next, err := ReadGroups(data, next, TWO64);
          if err.Some? { return; }
          emailHashIndex := v;
        case 3 =>
          if wireType != 2 { return next, Some(WrongWireType); }
          var payload;
          payload, next, err := ReadBlob(data, next);
          if err.Some? { return; }
          err := dkimDomainRange.Unmarshal(payload);
        case 4 =>
          if wireType != 0 { return next, Some(WrongWireType); }
          var v;
          v, next, err := ReadGroups(data, next, TWO64);
          if err.Some? { return; }
          dkimHashIndex := v;
        case 5 =>
          if wireType != 2 { return next, Some(WrongWireType); }
          var payload;
          payload, next, err := ReadBlob(data, next);
          if err.Some? { return; }
          err := txBytesRange.Unmarshal(payload);
        case 6 =>
          if wireType != 2 { return next, Some(WrongWireType); }
          var payload;
          payload, next, err := ReadBlob(data, next);
          if err.Some? { return; }
          err := emailHostRange.Unmarshal(payload);
        case 7 =>
          if wireType != 2 { return next, Some(WrongWireType); }
          var payload;
          payload, next, err := ReadBlob(data, next);
          if err.Some? { return; }
          err := emailSubjectRange.Unmarshal(payload);
        case _ =>
          next, err := SkipField(IndicesMsg(Value()), data, index);
      }
    }
  }

  class ParamsMessage {
    var vkeyIdentifier: Uint64
    var maxPubkeySizeBytes: Uint64
    const publicInputIndices: IndicesMessage

    ghost function Parts(): (p: set<object>) {
      {this} + publicInputIndices.Parts()
    }

    ghost predicate Valid() {
      publicInputIndices.Valid()
    }

    constructor ()
      ensures Valid() && fresh(Parts())
      ensures Value() == ZERO_PARAMS
    {
      vkeyIdentifier, maxPubkeySizeBytes := 0, 0;
      publicInputIndices := new IndicesMessage();
    }

    ghost function Value(): (v: Params)
      reads Parts()
    {
      Params(vkeyIdentifier, maxPubkeySizeBytes, publicInputIndices.Value())
    }

    /** The reader computes the fold of its buffer over the fields it starts with. */
    method Unmarshal(data: ByteString) returns (err: Option<WireError>)
      requires Valid() && |data| < TWO63
      modifies Parts()
      ensures match Decode(ParamsMsg(old(Value())), data, 0)
        case DecodeOk(m) => err == None && ParamsMsg(Value()) == m
        case DecodeErr(e) => err == Some(e)
    {
      hide DecodeStep;
      ghost var goal := Decode(ParamsMsg(Value()), data, 0);
      var index := 0;
      err := None;
      while index < |data|
        invariant index <= |data| && err == None
        invariant Decode(ParamsMsg(Value()), data[index..], index) == goal
        decreases |data| - index
      {
        ghost var m, pre := ParamsMsg(Value()), index;
        var next;
        next, err := Step(data, index);
        if err.Some? { return; }
        Turn(m, data, pre, ParamsMsg(Value()), next);
        index := next;
      }
      assert data[index..] == [];
    }

    method Step(data: ByteString, index: nat) returns (next: nat, err: Option<WireError>)
      requires Valid() && index < |data| < TWO63
      modifies Parts()
      ensures match DecodeStep(ParamsMsg(old(Value())), data[index..], index)
        case StepOk(m, n) => err == None && ParamsMsg(Value()) == m && next == index + n
        case StepErr(e) => err == Some(e)
    {
      hide ParseVarint, SkipUnknown, TakeBlob, Decode;
      var field, wireType;
      field, wireType, next, err := ReadTag(data, index);
      if err.Some? { return; }
      assert data[next..] == data[index..][next - index..];
      match field {
        case 1 =>
          if wireType != 0 { return next, Some(WrongWireType); }
          var v;
          v, next, err := ReadGroups(data, next, TWO64);
          if err.Some? { return; }
          vkeyIdentifier := v;
        case 2 =>
          if wireType != 0 { return next, Some(WrongWireType); }
          var v;
          v, next, err := ReadGroups(data, next, TWO64);
          if err.Some? { return; }
          maxPubkeySizeBytes := v;
        case 3 =>
          if wireType != 2 { return next, Some(WrongWireType); }
          var payload;
          payload, next, err := ReadBlob(data, next);
          if err.Some? { return; }
          err := publicInputIndices.Unmarshal(payload);
        case _ =>
          next, err := SkipField(ParamsMsg(Value()), data, index);
      }
    }
  }

  class PubKeyMessage {
    var domain: ByteString
    var pubKey: ByteString
    var poseidonHash: ByteString
    var selector: ByteString
    var version: Int32
    var keyType: Int32

    constructor ()
      ensures Value() == ZERO_PUBKEY
    {
      domain, pubKey, poseidonHash, selector := [], [], [], [];
      version, keyType := 0, 0;
    }

    function Value(): (v: DkimPubKey)
      reads this
    {
      DkimPubKey(domain, pubKey, poseidonHash, selector, version, keyType)
    }

    /** The reader computes the fold of its buffer over the fields it starts with. */
    method Unmarshal(data: ByteString) returns (err: Option<WireError>)
      requires |data| < TWO63
      modifies this
      ensures match Decode(PubKeyMsg(old(Value())), data, 0)
        case DecodeOk(m) => err == None && PubKeyMsg(Value()) == m
        case DecodeErr(e) => err == Some(e)
    {
      hide DecodeStep;
      ghost var goal := Decode(PubKeyMsg(Value()), data, 0);
      var index := 0;
      err := None;
      while index < |data|
        invariant index <= |data| && err == None
        invariant Decode(PubKeyMsg(Value()), data[index..], index) == goal
        decreases |data| - index
      {
        ghost var m, pre := PubKeyMsg(Value()), index;
        var next;
        next, err := Step(data, index);
        if err.Some? { return; }
        Turn(m, data, pre, PubKeyMsg(Value()), next);
        index := next;
      }
      assert data[index..] == [];
    }

    method Step(data: ByteString, index: nat) returns (next: nat, err: Option<WireError>)
      requires index < |data| < TWO63
      modifies this
      ensures match DecodeStep(PubKeyMsg(old(Value())), data[index..], index)
        case StepOk(m, n) => err == None && PubKeyMsg(Value()) == m && next == index + n
        case StepErr(e) => err == Some(e)
    {
      hide ParseVarint, SkipUnknown, TakeBlob, Decode;
      var field, wireType;
      field, wireType, next, err := ReadTag(data, index);
      if err.Some? { return; }
      assert data[next..] == data[index..][next - index..];
      match field {
        case 1 =>
          if wireType != 2 { return next, Some(WrongWireType); }
          var payload;
          payload, next, err := ReadBlob(data, next);
          if err.Some? { return; }
          domain := payload;
        case 2 =>
          if wireType != 2 { return next, Some(WrongWireType); }
          var payload;
          payload, next, err := ReadBlob(data, next);
          if err.Some? { return; }
          pubKey := payload;
        case 3 =>
          if wireType != 2 { return next, Some(WrongWireType); }
          var payload;
          payload, next, err := ReadBlob(data, next);
          if err.Some? { return; }
          poseidonHash := payload;
        case 4 =>
          if wireType != 2 { return next, Some(WrongWireType); }
          var payload;
          payload, next, err := ReadBlob(data, next);
          if err.Some? { return; }
          selector := payload;
        case 5 =>
          if wireType != 0 { return next, Some(WrongWireType); }
          var v;
          v, next, err := ReadGroups(data, next, TWO32);
          if err.Some? { return; }
          version := ToInt32(v);
        case 6 =>
          if wireType != 0 { return next, Some(WrongWireType); }
          var v;
          v, next, err := ReadGroups(data, next, TWO32);
          if err.Some? { return; }
          keyType := ToInt32(v);
        case _ =>
          next, err := SkipField(PubKeyMsg(Value()), data, index);
      }
    }
  }

  class GenesisMessage {
    const params: ParamsMessage
    var dkimPubkeys: seq<DkimPubKey>
    var revokedPubkeys: seq<ByteString>

    ghost function Parts(): (p: set<object>) {
      {this} + params.Parts()
    }

    ghost predicate Valid() {
      params.Valid()
    }

    constructor ()
      ensures Valid() && fresh(Parts())
      ensures Value() == ZERO_GENESIS
    {
      params := new ParamsMessage();
      dkimPubkeys, revokedPubkeys := [], [];
    }

    ghost function Value(): (v: GenesisState)
      reads Parts()
    {
      GenesisState(params.Value(), dkimPubkeys, revokedPubkeys)
    }

    /** The reader computes the fold of its buffer over the fields it starts with. */
    method Unmarshal(data: ByteString) returns (err: Option<WireError>)
      requires Valid() && |data| < TWO63
      modifies Parts()
      ensures match Decode(GenesisMsg(old(Value())), data, 0)
        case DecodeOk(m) => err == None && GenesisMsg(Value()) == m
        case DecodeErr(e) => err == Some(e)
    {
      hide DecodeStep;
      ghost var goal := Decode(GenesisMsg(Value()), data, 0);
      var index := 0;
      err := None;
      while index < |data|
        invariant index <= |data| && err == None
        invariant Decode(GenesisMsg(Value()), data[index..], index) == goal
        decreases |data| - index
      {
        ghost var m, pre := GenesisMsg(Value()), index;
        var next;
        next, err := Step(data, index);
        if err.Some? { return; }
        Turn(m, data, pre, GenesisMsg(Value()), next);
        index := next;
      }
      assert data[index..] == [];
    }

    method Step(data: ByteString, index: nat) returns (next: nat, err: Option<WireError>)
      requires Valid() && index < |data| < TWO63
      modifies Parts()
      ensures match DecodeStep(GenesisMsg(old(Value())), data[index..], index)
        case StepOk(m, n) => err == None && GenesisMsg(Value()) == m && next == index + n
        case StepErr(e) => err == Some(e)
    {
      hide ParseVarint, SkipUnknown, TakeBlob, Decode;
      var field, wireType;
      field, wireType, next, err := ReadTag(data, index);
      if err.Some? { return; }
      assert data[next..] == data[index..][next - index..];
      match field {
        case 1 =>
          if wireType != 2 { return next, Some(WrongWireType); }
          var payload;
          payload, next, err := ReadBlob(data, next);
          if err.Some? { return; }
          ghost var keys, revoked := dkimPubkeys, revokedPubkeys;
          err := params.Unmarshal(payload);
          assert dkimPubkeys == keys && revokedPubkeys == revoked;
          return;
        case 2 =>
          if wireType != 2 { return next, Some(WrongWireType); }
          var payload;
          payload, next, err := ReadBlob(data, next);
          if err.Some? { return; }
          ghost var was := params.Value();
          var key := new PubKeyMessage();
          err := key.Unmarshal(payload);
          if err.Some? { return; }
          dkimPubkeys := dkimPubkeys + [key.Value()];
          assert params.Value() == was;
          return;
        case 3 =>
          if wireType != 2 { return next, Some(WrongWireType); }
          var payload;
          payload, next, err := ReadBlob(data, next);
          if err.Some? { return; }
          ghost var was := params.Value();
          revokedPubkeys := revokedPubkeys + [payload];
          assert params.Value() == was;
          return;
        case _ =>
          next, err := SkipField(GenesisMsg(Value()), data, index);
      }
    }
  }
}
