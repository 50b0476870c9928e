/** Genesis import and export of the registry. */
module Genesis {
  import opened Options
  import opened Words
  import opened Messages
  import opened Parameters
  import opened Ordering
  import opened Registry
  import opened RegistryLaws

  const EMPTY := State(map[], map[], None)

  // ---------------------------------------------------------------- validation

  /** A revoked entry is a 32-byte digest or, in old exports, a whole RSA key. */
  function ValidateRevoked(c: Crypto, entry: ByteString, limit: Uint64): (err: Option<DkimError>) {
    match DecodeWithLimit(c, entry, limit)
    case Err(e) => Some(e)
    case Ok(bz) => if |bz| == 32 || c.parsePublicKey(bz).Some? then None else Some(InvalidPubKey)
  }

  function ValidateAllRevoked(c: Crypto, entries: seq<ByteString>, limit: Uint64): (err: Option<DkimError>)
    ensures err != Some(KeyEncoding)
  {
    if entries == [] then None
    else
      match ValidateRevoked(c, entries[0], limit)
      case Some(e) => Some(e)
      case None => ValidateAllRevoked(c, entries[1..], limit)
  }

  function ValidateGenesis(c: Crypto, g: GenesisState): (err: Option<DkimError>)
    ensures err != Some(KeyEncoding)
  {
    var params := WithDefaultSize(g.params);
    if !ValidParams(params) then Some(InvalidParams)
    else
      match ValidateKeys(c, g.dkimPubkeys, params.maxPubkeySizeBytes, None, false)
      case Some(e) => Some(e)
      case None => ValidateAllRevoked(c, g.revokedPubkeys, params.maxPubkeySizeBytes)
  }

  lemma {:induction false} AllRevokedIffEach(c: Crypto, entries: seq<ByteString>, limit: Uint64)
    ensures ValidateAllRevoked(c, entries, limit) == None <==>
            forall r :: r in entries ==> ValidateRevoked(c, r, limit) == None
  {
    if entries != [] {
      AllRevokedIffEach(c, entries[1..], limit);
      assert entries == [entries[0]] + entries[1..];
    }
  }

  // ---------------------------------------------------------------- import

  function MarkAll(m: map<ByteString, bool>, entries: seq<ByteString>): (r: map<ByteString, bool>)
    decreases |entries|
  {
    if entries == [] then m else MarkAll(m[entries[0] := true], entries[1..])
  }

  function InitGenesis(c: Crypto, st: State, g: GenesisState): (r: Result<State>)
    ensures EncodableKeys(st.dkimPubKeys.Keys) && r.Ok? ==> EncodableKeys(r.value.dkimPubKeys.Keys)
  {
    match ValidateGenesis(c, g)
    case Some(e) => Err(e)
    case None =>
      match SetParams(st, WithDefaultSize(g.params))
      case Err(e) => Err(e)
      case Ok(st1) =>
        match SaveAll(st.dkimPubKeys, g.dkimPubkeys)
        case Err(e) => Err(e)
        case Ok(m) =>
          assert EncodableKeys(st.dkimPubKeys.Keys) ==> EncodableKeys(m.Keys) by {
            if EncodableKeys(st.dkimPubKeys.Keys) {
              SaveAllEncodable(st.dkimPubKeys, g.dkimPubkeys);
            }
          }
          Ok(State(m, MarkAll(st.revokedKeys, g.revokedPubkeys), st1.params))
  }

  lemma {:induction false} MarkAllMeans(m: map<ByteString, bool>, entries: seq<ByteString>, r: ByteString)
    ensures var m' := MarkAll(m, entries);
            if r in entries then r in m' && m'[r]
            else (r in m' <==> r in m) && (r in m ==> m'[r] == m[r])
    decreases |entries|
  {
    if entries != [] {
      MarkAllMeans(m[entries[0] := true], entries[1..], r);
      assert entries == [entries[0]] + entries[1..];
    }
  }

  // ---------------------------------------------------------------- export

  function Identity(bs: ByteString): (r: ByteString) {
    bs
  }

  lemma IdentityDistinct(s: set<ByteString>)
    ensures Distinct(s, Identity)
  {
  }

  function Values(m: map<Key, DkimPubKey>, ks: seq<Key>): (vs: seq<DkimPubKey>)
    requires forall k :: k in ks ==> k in m
    ensures |vs| == |ks| && forall i :: 0 <= i < |ks| ==> vs[i] == m[ks[i]]
  {
    if ks == [] then [] else [m[ks[0]]] + Values(m, ks[1..])
  }

  /** Keys and revocations in store order, and the parameters in force. */
  function ExportGenesis(st: State): (g: GenesisState)
    requires EncodableKeys(st.dkimPubKeys.Keys)
  {
    StoreKeysDistinct(st.dkimPubKeys.Keys);
    IdentityDistinct(st.revokedKeys.Keys);
    GenesisState(GetParams(st),
                 Values(st.dkimPubKeys, Sorted(st.dkimPubKeys.Keys, StoreKey)),
                 Sorted(st.revokedKeys.Keys, Identity))
  }

  lemma ExportMembers(st: State)
    requires EncodableKeys(st.dkimPubKeys.Keys)
    ensures forall v :: v in ExportGenesis(st).dkimPubkeys <==>
                        exists k :: k in st.dkimPubKeys && st.dkimPubKeys[k] == v
    ensures forall r :: r in ExportGenesis(st).revokedPubkeys <==> r in st.revokedKeys
  {
    StoreKeysDistinct(st.dkimPubKeys.Keys);
    IdentityDistinct(st.revokedKeys.Keys);
    var ks := Sorted(st.dkimPubKeys.Keys, StoreKey);
    var vs := Values(st.dkimPubKeys, ks);
    forall k | k in st.dkimPubKeys ensures st.dkimPubKeys[k] in vs {
      assert k in ks;
      var i :| 0 <= i < |ks| && ks[i] == k;
      assert vs[i] == st.dkimPubKeys[k];
    }
    forall v | v in vs ensures exists k :: k in st.dkimPubKeys && st.dkimPubKeys[k] == v {
      var i :| 0 <= i < |vs| && vs[i] == v;
      assert ks[i] in ks;
    }
  }

  /** An export lists keys and revocations in byte order of what they are stored under. */
  lemma ExportInStoreOrder(c: Crypto, st: State)
    requires SoundState(c, st)
    ensures EncodableKeys(st.dkimPubKeys.Keys)
    ensures var keys := ExportGenesis(st).dkimPubkeys;
            forall i, j :: 0 <= i < j < |keys| ==>
              LexLess(keys[i].domain + [0] + keys[i].selector, keys[j].domain + [0] + keys[j].selector)
    ensures var rs := ExportGenesis(st).revokedPubkeys;
            forall i, j :: 0 <= i < j < |rs| ==> LexLess(rs[i], rs[j])
  {
    hide LexLess;
    SoundEncodable(c, st);
    StoreKeysDistinct(st.dkimPubKeys.Keys);
    IdentityDistinct(st.revokedKeys.Keys);
    var ks, rs := Sorted(st.dkimPubKeys.Keys, StoreKey), Sorted(st.revokedKeys.Keys, Identity);
    var keys := ExportGenesis(st).dkimPubkeys;
    forall i | 0 <= i < |ks| ensures StoreKey(ks[i]) == keys[i].domain + [0] + keys[i].selector {
      assert ks[i] in ks && SoundRecord(c, ks[i], st.dkimPubKeys[ks[i]]);
    }
    forall i, j | 0 <= i < j < |rs| ensures LexLess(rs[i], rs[j]) {
      assert LexLess(Identity(rs[i]), Identity(rs[j]));
    }
  }

  /** An exported record is found again under its own key. */
  lemma ExportedRecord(c: Crypto, st: State, k: Key)
    requires SoundState(c, st)
    ensures EncodableKeys(st.dkimPubKeys.Keys)
    ensures LastFor(ExportGenesis(st).dkimPubkeys, k) == if k in st.dkimPubKeys then Some(st.dkimPubKeys[k]) else None
  {
    SoundEncodable(c, st);
    StoreKeysDistinct(st.dkimPubKeys.Keys);
    var vs := ExportGenesis(st).dkimPubkeys;
    ExportMembers(st);
    if LastFor(vs, k).Some? {
      LastForIsMember(vs, k);
      var i :| 0 <= i < |vs| && LastFor(vs, k) == Some(vs[i]) && KeyOf(vs[i]) == k;
      assert vs[i] in vs;
    } else if k in st.dkimPubKeys {
      assert st.dkimPubKeys[k] in vs;
      LastForFinds(vs, st.dkimPubKeys[k]);
    }
  }

  lemma {:induction false} LastForFinds(vs: seq<DkimPubKey>, v: DkimPubKey)
    requires v in vs
    ensures LastFor(vs, KeyOf(v)).Some?
  {
    var n := |vs| - 1;
    if KeyOf(vs[n]) != KeyOf(v) {
      assert vs == vs[..n] + [vs[n]];
      LastForFinds(vs[..n], v);
    }
  }

  /** Export followed by import on empty stores restores the registry: same keys, same
      revocations, same parameters in force; it goes through exactly when the export
      validates. */
  lemma GenesisRoundTrip(c: Crypto, st: State)
    requires SoundState(c, st)
    ensures EncodableKeys(st.dkimPubKeys.Keys)
    ensures InitGenesis(c, EMPTY, ExportGenesis(st)).Ok? <==> ValidateGenesis(c, ExportGenesis(st)) == None
    ensures ValidateGenesis(c, ExportGenesis(st)) == None ==>
              InitGenesis(c, EMPTY, ExportGenesis(st)) == Ok(st.(params := Some(GetParams(st))))
  {
    hide ValidateGenesis, SaveAll, SavedPart, MarkAll, LastFor, Sorted, Values, ValidParams;
    SoundEncodable(c, st);
    ParamsInForceValid(c, st);
    var g := ExportGenesis(st);
    ExportMembers(st);
    SaveAllSucceedsIff(map[], g.dkimPubkeys);
    forall i | 0 <= i < |g.dkimPubkeys| ensures Encodable(g.dkimPubkeys[i].domain) {
      assert g.dkimPubkeys[i] in g.dkimPubkeys;
    }
    var m := SaveAll(map[], g.dkimPubkeys).value;
    forall k ensures (k in m <==> k in st.dkimPubKeys) && (k in m ==> m[k] == st.dkimPubKeys[k]) {
      SaveAllOverlays(map[], g.dkimPubkeys, k);
      ExportedRecord(c, st, k);
    }
    assert m == st.dkimPubKeys;
    var r := MarkAll(map[], g.revokedPubkeys);
    forall x ensures (x in r <==> x in st.revokedKeys) && (x in r ==> r[x] == st.revokedKeys[x]) {
      MarkAllMeans(map[], g.revokedPubkeys, x);
    }
    assert r == st.revokedKeys;
  }

  // ---------------------------------------------------------------- exports stay importable

  /** The text decodes to at most `limit` bytes. */
  ghost predicate DecodesWithin(c: Crypto, text: ByteString, limit: Uint64) {
    c.decodeBase64(text).Some? && |c.decodeBase64(text).value| <= limit
  }

  /** Every stored key and every revocation decodes to at most `limit` bytes. */
  ghost predicate SizesWithin(c: Crypto, st: State, limit: Uint64) {
    && (forall k :: k in st.dkimPubKeys ==> DecodesWithin(c, st.dkimPubKeys[k].pubKey, limit))
    && (forall r :: r in st.revokedKeys ==> DecodesWithin(c, r, limit))
  }

  /** A revocation in one of the two accepted forms: a digest or a whole RSA key. */
  ghost predicate WellMade(c: Crypto, r: ByteString) {
    && c.decodeBase64(r).Some?
    && var bz := c.decodeBase64(r).value;
    && (|bz| == 32 || c.parsePublicKey(bz).Some?)
  }

  ghost predicate RevocationsWellMade(c: Crypto, st: State) {
    forall r :: r in st.revokedKeys ==> WellMade(c, r)
  }

  /** Every revocation is well made, and every key and revocation fits the limit in force. */
  ghost predicate Fits(c: Crypto, st: State) {
    RevocationsWellMade(c, st) && SizesWithin(c, st, GetParams(st).maxPubkeySizeBytes)
  }

  lemma RevokedValidIff(c: Crypto, r: ByteString, limit: Uint64)
    ensures ValidateRevoked(c, r, limit) == None <==> WellMade(c, r) && DecodesWithin(c, r, limit)
    ensures ValidateRevoked(c, r, limit) == Some(PubKeyTooLarge) <==>
            c.decodeBase64(r).Some? && |c.decodeBase64(r).value| > limit
    ensures ValidateRevoked(c, r, limit) in {None, Some(PubKeyTooLarge), Some(InvalidPubKey)}
  {
  }

  lemma GoodKeyValidates(c: Crypto, k: Key, record: DkimPubKey, limit: Uint64)
    requires SoundRecord(c, k, record)
    ensures ValidateKey(c, record, limit, None, false) == None <==> DecodesWithin(c, record.pubKey, limit)
  {
  }

  lemma ExportedKeysValidIff(c: Crypto, st: State, limit: Uint64)
    requires SoundState(c, st)
    ensures EncodableKeys(st.dkimPubKeys.Keys)
    ensures ValidateKeys(c, ExportGenesis(st).dkimPubkeys, limit, None, false) == None <==>
            forall k :: k in st.dkimPubKeys ==> DecodesWithin(c, st.dkimPubKeys[k].pubKey, limit)
  {
    hide SoundRecord, DecodesWithin, ValidateKey, ExportGenesis, ValidateKeys;
    SoundEncodable(c, st);
    var keys := ExportGenesis(st).dkimPubkeys;
    ExportMembers(st);
    BatchValidIffEach(c, keys, limit, None, false);
    forall k | k in st.dkimPubKeys
      ensures st.dkimPubKeys[k] in keys
      ensures ValidateKey(c, st.dkimPubKeys[k], limit, None, false) == None <==>
              DecodesWithin(c, st.dkimPubKeys[k].pubKey, limit)
    {
      GoodKeyValidates(c, k, st.dkimPubKeys[k], limit);
    }
    forall i | 0 <= i < |keys| ensures exists k :: k in st.dkimPubKeys && st.dkimPubKeys[k] == keys[i] {
      assert keys[i] in keys;
    }
  }

  lemma ExportedRevocationsValidIff(c: Crypto, st: State, limit: Uint64)
    requires EncodableKeys(st.dkimPubKeys.Keys)
    ensures ValidateAllRevoked(c, ExportGenesis(st).revokedPubkeys, limit) == None <==>
            forall r :: r in st.revokedKeys ==> WellMade(c, r) && DecodesWithin(c, r, limit)
  {
    hide DecodesWithin, WellMade, ValidateRevoked, ExportGenesis, ValidateAllRevoked;
    ExportMembers(st);
    AllRevokedIffEach(c, ExportGenesis(st).revokedPubkeys, limit);
    forall r ensures ValidateRevoked(c, r, limit) == None <==> WellMade(c, r) && DecodesWithin(c, r, limit) {
      RevokedValidIff(c, r, limit);
    }
  }

  /** An export validates exactly if every revocation is well made and everything stored
      decodes to at most the current limit. */
  lemma ExportValidIff(c: Crypto, st: State)
    requires SoundState(c, st)
    ensures EncodableKeys(st.dkimPubKeys.Keys)
    ensures ValidateGenesis(c, ExportGenesis(st)) == None <==> Fits(c, st)
  {
    hide SoundState, DecodesWithin, WellMade, ValidParams, ValidateKeys, ValidateAllRevoked, EncodableKeys;
    hide GetParams, WithDefaultSize, Sorted, Values;
    SoundEncodable(c, st);
    var limit := GetParams(st).maxPubkeySizeBytes;
    ParamsInForceValid(c, st);
    ExportedKeysValidIff(c, st, limit);
    ExportedRevocationsValidIff(c, st, limit);
  }

  lemma ParamsInForceValid(c: Crypto, st: State)
    requires SoundState(c, st)
    ensures ValidParams(GetParams(st)) && WithDefaultSize(GetParams(st)) == GetParams(st)
  {
  }

  /** Where an export stops being importable: new parameters leave it valid if and only if
      everything stored decodes to at most the new limit. */
  lemma UpdateKeepsExportIff(c: Crypto, authority: ByteString, st: State, msg: Msg)
    requires SoundState(c, st) && Fits(c, st)
    requires msg.UpdateParams? && HandleUpdateParams(authority, st, msg).Ok?
    ensures EncodableKeys(st.dkimPubKeys.Keys)
    ensures ValidateGenesis(c, ExportGenesis(Deliver(c, authority, st, msg))) == None <==>
            SizesWithin(c, st, WithDefaultSize(msg.params).maxPubkeySizeBytes)
  {
    hide SoundState, ValidateGenesis, ExportGenesis, DecodesWithin, WellMade, ValidParams, EncodableKeys;
    SoundEncodable(c, st);
    SoundStep(c, authority, st, msg);
    ExportValidIff(c, Deliver(c, authority, st, msg));
  }

  /** What the source relies on: a canonical key is the base64 form of a 32-byte digest. */
  ghost predicate DigestSized(c: Crypto) {
    forall rsa: RsaKey :: c.decodeBase64(c.canonicalKey(rsa)).Some? && |c.decodeBase64(c.canonicalKey(rsa)).value| == 32
  }

  lemma NewRevocationIsCanonical(c: Crypto, authority: ByteString, st: State, msg: Msg, r: ByteString)
    returns (rsa: RsaKey)
    requires EncodableKeys(st.dkimPubKeys.Keys)
    requires r in Deliver(c, authority, st, msg).revokedKeys && r !in st.revokedKeys
    ensures r == c.canonicalKey(rsa)
  {
    hide FirstUnreadable;
    rsa := c.parsePrivateKey(msg.privKey).value;
  }

  lemma WellMadeStep(c: Crypto, authority: ByteString, st: State, msg: Msg)
    requires DigestSized(c) && EncodableKeys(st.dkimPubKeys.Keys) && RevocationsWellMade(c, st)
    ensures RevocationsWellMade(c, Deliver(c, authority, st, msg))
  {
    hide Deliver, EncodableKeys;
    forall r | r in Deliver(c, authority, st, msg).revokedKeys ensures WellMade(c, r) {
      if r !in st.revokedKeys {
        var rsa := NewRevocationIsCanonical(c, authority, st, msg, r);
      }
    }
  }

  lemma {:induction false} WellMadeRun(c: Crypto, authority: ByteString, st: State, msgs: seq<Msg>)
    requires DigestSized(c) && EncodableKeys(st.dkimPubKeys.Keys) && RevocationsWellMade(c, st)
    ensures RevocationsWellMade(c, Run(c, authority, st, msgs))
    decreases |msgs|
  {
    hide DigestSized, Deliver, RevocationsWellMade, EncodableKeys;
    if msgs != [] {
      WellMadeStep(c, authority, st, msgs[0]);
      WellMadeRun(c, authority, Deliver(c, authority, st, msgs[0]), msgs[1..]);
    }
  }

  /** The message does not lower the size limit. */
  ghost predicate KeepsLimit(c: Crypto, authority: ByteString, st: State, msg: Msg)
    requires EncodableKeys(st.dkimPubKeys.Keys)
  {
    GetParams(st).maxPubkeySizeBytes <= GetParams(Deliver(c, authority, st, msg)).maxPubkeySizeBytes
  }

  ghost predicate RunKeepsLimit(c: Crypto, authority: ByteString, st: State, msgs: seq<Msg>)
    requires EncodableKeys(st.dkimPubKeys.Keys)
    decreases |msgs|
  {
    msgs == [] ||
    (&& KeepsLimit(c, authority, st, msgs[0])
     && RunKeepsLimit(c, authority, Deliver(c, authority, st, msgs[0]), msgs[1..]))
  }

  lemma SizesStep(c: Crypto, authority: ByteString, st: State, msg: Msg, limit: Uint64)
    requires DigestSized(c) && EncodableKeys(st.dkimPubKeys.Keys)
    requires 32 <= limit && SizesWithin(c, st, limit) && GetParams(st).maxPubkeySizeBytes <= limit
    ensures SizesWithin(c, Deliver(c, authority, st, msg), limit)
  {
    hide Deliver, GetParams, BitLength, EncodableKeys;
    var st' := Deliver(c, authority, st, msg);
    forall k | k in st'.dkimPubKeys ensures DecodesWithin(c, st'.dkimPubKeys[k].pubKey, limit) {
      StepEntry(c, authority, st, msg, k);
    }
    forall r | r in st'.revokedKeys ensures DecodesWithin(c, r, limit) {
      if r !in st.revokedKeys {
        var rsa := NewRevocationIsCanonical(c, authority, st, msg, r);
      }
    }
  }

  lemma SizesGrow(c: Crypto, st: State, limit: Uint64, limit': Uint64)
    requires SizesWithin(c, st, limit) && limit <= limit'
    ensures SizesWithin(c, st, limit')
  {
  }

  lemma {:induction false} SizesRun(c: Crypto, authority: ByteString, st: State, msgs: seq<Msg>)
    requires DigestSized(c) && EncodableKeys(st.dkimPubKeys.Keys)
    requires 32 <= GetParams(st).maxPubkeySizeBytes && SizesWithin(c, st, GetParams(st).maxPubkeySizeBytes)
    requires RunKeepsLimit(c, authority, st, msgs)
    ensures var end := Run(c, authority, st, msgs);
            SizesWithin(c, end, GetParams(end).maxPubkeySizeBytes)
    decreases |msgs|
  {
    hide DigestSized, Deliver, SizesWithin, GetParams, EncodableKeys;
    if msgs != [] {
      var st' := Deliver(c, authority, st, msgs[0]);
      SizesStep(c, authority, st, msgs[0], GetParams(st).maxPubkeySizeBytes);
      SizesGrow(c, st', GetParams(st).maxPubkeySizeBytes, GetParams(st').maxPubkeySizeBytes);
      SizesRun(c, authority, st', msgs[1..]);
    }
  }

  // ---------------------------------------------------------------- from a genesis file on

  /** Every record that no later one overwrites carries its own hash. */
  ghost predicate HashesRight(c: Crypto, keys: seq<DkimPubKey>) {
    forall k :: LastFor(keys, k).Some? ==> Hashed(c, LastFor(keys, k).value)
  }

  /** What an import leaves behind: a sound registry in which everything fits. Hashes are
      taken from the file unchecked, so they are right exactly if they were right there
      for every record that was not overwritten by a later one. */
  lemma ImportEstablishes(c: Crypto, g: GenesisState)
    requires InitGenesis(c, EMPTY, g).Ok?
    ensures var st := InitGenesis(c, EMPTY, g).value;
            && SoundState(c, st) && Fits(c, st)
            && (Invariant(c, st) <==> HashesRight(c, g.dkimPubkeys))
  {
    hide ValidParams, ValidateRevoked, WellMade;
    var st := InitGenesis(c, EMPTY, g).value;
    var limit := GetParams(st).maxPubkeySizeBytes;
    BatchValidIffEach(c, g.dkimPubkeys, limit, None, false);
    AllRevokedIffEach(c, g.revokedPubkeys, limit);
    SaveAllSucceedsIff(map[], g.dkimPubkeys);
    forall k
      ensures k in st.dkimPubKeys <==> LastFor(g.dkimPubkeys, k).Some?
      ensures k in st.dkimPubKeys ==> LastFor(g.dkimPubkeys, k) == Some(st.dkimPubKeys[k])
      ensures k in st.dkimPubKeys ==>
                SoundRecord(c, k, st.dkimPubKeys[k]) && DecodesWithin(c, st.dkimPubKeys[k].pubKey, limit)
    {
      SaveAllOverlays(map[], g.dkimPubkeys, k);
      if k in st.dkimPubKeys {
        LastForIsMember(g.dkimPubkeys, k);
      }
    }
    forall r
      ensures r in st.revokedKeys <==> r in g.revokedPubkeys
      ensures r in st.revokedKeys ==> st.revokedKeys[r] && WellMade(c, r) && DecodesWithin(c, r, limit)
    {
      MarkAllMeans(map[], g.revokedPubkeys, r);
      RevokedValidIff(c, r, limit);
    }
    if Invariant(c, st) {
      forall k | LastFor(g.dkimPubkeys, k).Some? ensures Hashed(c, LastFor(g.dkimPubkeys, k).value) {
        assert k in st.dkimPubKeys;
      }
    }
    if HashesRight(c, g.dkimPubkeys) {
      forall k | k in st.dkimPubKeys ensures Hashed(c, st.dkimPubKeys[k]) {
        assert LastFor(g.dkimPubkeys, k).Some?;
      }
    }
  }

  /** What an import does to stores of any content: the keys of the file are laid over the
      stored ones, the last per key winning; its revocations join the stored ones; its
      parameters are in force, with 512 for a size cap of zero. */
  lemma ImportExact(c: Crypto, st: State, g: GenesisState, k: Key, r: ByteString)
    requires InitGenesis(c, st, g).Ok?
    ensures var st' := InitGenesis(c, st, g).value;
            && (match LastFor(g.dkimPubkeys, k)
                case Some(record) => k in st'.dkimPubKeys && st'.dkimPubKeys[k] == record
                case None =>
                  && (k in st'.dkimPubKeys <==> k in st.dkimPubKeys)
                  && (k in st.dkimPubKeys ==> st'.dkimPubKeys[k] == st.dkimPubKeys[k]))
            && (r in st'.revokedKeys <==> r in g.revokedPubkeys || r in st.revokedKeys)
            && st'.params == Some(Params(g.params.vkeyIdentifier,
                 if g.params.maxPubkeySizeBytes == 0 then 512 else g.params.maxPubkeySizeBytes,
                 g.params.publicInputIndices))
  {
    hide ValidateGenesis, SaveAll, SavedPart, MarkAll, LastFor, ValidParams;
    SaveAllOverlays(st.dkimPubKeys, g.dkimPubkeys, k);
    MarkAllMeans(st.revokedKeys, g.revokedPubkeys, r);
  }

  /** After any run from an imported genesis, the export imports back to the very same
      registry if and only if everything stored decodes to at most the limit then in
      force. */
  lemma ExportImportsIff(c: Crypto, authority: ByteString, g: GenesisState, msgs: seq<Msg>)
    requires DigestSized(c) && InitGenesis(c, EMPTY, g).Ok?
    ensures var end := Run(c, authority, InitGenesis(c, EMPTY, g).value, msgs);
            InitGenesis(c, EMPTY, ExportGenesis(end)) == Ok(end.(params := Some(GetParams(end)))) <==>
            SizesWithin(c, end, GetParams(end).maxPubkeySizeBytes)
  {
    hide DigestSized, SoundState, Invariant, RevocationsWellMade, SizesWithin;
    hide ValidateGenesis, InitGenesis, ExportGenesis, GetParams;
    var st := InitGenesis(c, EMPTY, g).value;
    ImportEstablishes(c, g);
    WellMadeRun(c, authority, st, msgs);
    SoundRun(c, authority, st, msgs);
    var end := Run(c, authority, st, msgs);
    ExportValidIff(c, end);
    GenesisRoundTrip(c, end);
  }

  /** So it does after every run that starts with room for a digest and never lowers the
      size limit. */
  lemma ExportsStayImportable(c: Crypto, authority: ByteString, g: GenesisState, msgs: seq<Msg>)
    requires DigestSized(c) && InitGenesis(c, EMPTY, g).Ok? && 32 <= WithDefaultSize(g.params).maxPubkeySizeBytes
    requires RunKeepsLimit(c, authority, InitGenesis(c, EMPTY, g).value, msgs)
    ensures var end := Run(c, authority, InitGenesis(c, EMPTY, g).value, msgs);
            && ValidateGenesis(c, ExportGenesis(end)) == None
            && InitGenesis(c, EMPTY, ExportGenesis(end)) == Ok(end.(params := Some(GetParams(end))))
  {
    hide DigestSized, SoundState, Invariant, RevocationsWellMade, SizesWithin;
    hide ValidateGenesis, ExportGenesis, RunKeepsLimit;
    var st := InitGenesis(c, EMPTY, g).value;
    ImportEstablishes(c, g);
    assert GetParams(st) == WithDefaultSize(g.params);
    SizesRun(c, authority, st, msgs);
    ExportImportsIff(c, authority, g, msgs);
  }

  /** The condition on the limit is needed: with a genesis that imports, one governance
      message that lowers the limit below a stored key makes the export invalid. */
  lemma LoweredLimitRejectsExport() returns (c: Crypto, g: GenesisState, msg: Msg)
    ensures DigestSized(c) && InitGenesis(c, EMPTY, g).Ok?
    ensures var st := Deliver(c, [], InitGenesis(c, EMPTY, g).value, msg);
            ValidateGenesis(c, ExportGenesis(st)) == Some(PubKeyTooLarge)
  {
    var key := RsaKey(0, 65537);
    var digest: ByteString := seq(32, _ => 7);
    var text: ByteString := seq(64, _ => 7);
    c := Crypto(bs => Some(bs), bs => if |bs| >= 32 then Some(key) else None, bs => None, rsa => digest,
                bs => Some(bs));
    var record := DkimPubKey([1], text, text, [2], 0, 0);
    g := GenesisState(DefaultParams(), [record], []);
    msg := UpdateParams([], DefaultParams().(maxPubkeySizeBytes := 40));
    assert ValidateKeys(c, [record], 512, None, false) == None by {
      assert [record][1..] == [];
    }
    assert SaveAll(map[], [record]) == Ok(map[Key([1], [2]) := record]) by {
      assert [record][1..] == [];
    }
    var st0 := InitGenesis(c, EMPTY, g).value;
    var st := Deliver(c, [], st0, msg);
    assert st == State(map[Key([1], [2]) := record], map[], Some(msg.params));
    StoreKeysDistinct(st.dkimPubKeys.Keys);
    var ks := Sorted(st.dkimPubKeys.Keys, StoreKey);
    assert Key([1], [2]) in ks;
    assert ks[0] in ks && ks[0] == Key([1], [2]);
    assert ValidateKey(c, record, 40, None, false) == Some(PubKeyTooLarge);
  }

  // ---------------------------------------------------------------- revocations in a genesis file

  /** Which keys the revocation list of an imported genesis keeps out: of a key that is
      otherwise fit to be added, an Add is refused if and only if the list holds its
      canonical form. Entries in the other accepted form, a whole RSA key, bar nothing. */
  lemma ListedKeyBarredIff(c: Crypto, authority: ByteString, g: GenesisState, key: DkimPubKey)
    requires InitGenesis(c, EMPTY, g).Ok?
    requires Admissible(c, key, WithDefaultSize(g.params).maxPubkeySizeBytes, {})
    requires c.poseidonHash(key.pubKey).Some? && Encodable(key.domain)
    ensures var st := InitGenesis(c, EMPTY, g).value;
            HandleAdd(c, authority, st, AddDkimPubKeys(authority, [key])).Ok? <==>
            c.canonicalKey(KeyIn(c, key.pubKey).value) !in g.revokedPubkeys
  {
    hide ValidateGenesis, HandleAdd, BitLength, ValidParams;
    var st := InitGenesis(c, EMPTY, g).value;
    var canonical := c.canonicalKey(KeyIn(c, key.pubKey).value);
    MarkAllMeans(map[], g.revokedPubkeys, canonical);
    var msg := AddDkimPubKeys(authority, [key]);
    AddSucceedsIff(c, authority, st, msg);
    assert msg.dkimPubkeys[0] == key;
  }

  /** A genesis that lists a key as revoked by its own text imports, and the key can still
      be added under that very text. */
  lemma LegacyEntryBarsNothing() returns (c: Crypto, g: GenesisState, key: DkimPubKey)
    ensures InitGenesis(c, EMPTY, g).Ok? && key.pubKey in g.revokedPubkeys
    ensures HandleAdd(c, [], InitGenesis(c, EMPTY, g).value, AddDkimPubKeys([], [key])).Ok?
  {
    hide BitLength, Pow2;
    var rsa := RsaKey(Pow2(1023), 65537);
    var digest: ByteString := seq(32, _ => 7);
    var text: ByteString := seq(64, _ => 7);
    c := Crypto(bs => Some(bs), bs => if |bs| == 64 then Some(rsa) else None, bs => None, k => digest, bs => Some(bs));
    key := DkimPubKey([1], text, [], [2], 0, 0);
    g := GenesisState(DefaultParams(), [], [text]);
    assert ValidateAllRevoked(c, [text], 512) == None by {
      assert [text][1..] == [];
    }
    BitLengthPow2(1023);
    assert digest !in [text];
    ListedKeyBarredIff(c, [], g, key);
  }
}
