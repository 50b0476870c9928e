/** What every run of messages keeps, and what each message does. */
module RegistryLaws {
  import opened Options
  import opened Words
  import opened Messages
  import opened Parameters
  import opened Ordering
  import opened Registry

  // ---------------------------------------------------------------- adding

  /** The last record of a batch with the given store key. */
  function LastFor(keys: seq<DkimPubKey>, k: Key): (r: Option<DkimPubKey>) {
    if keys == [] then None
    else
      var n := |keys| - 1;
      if KeyOf(keys[n]) == k then Some(keys[n]) else LastFor(keys[..n], k)
  }

  lemma {:induction false} LastForFront(keys: seq<DkimPubKey>, k: Key)
    requires keys != []
    ensures LastFor(keys, k) == match LastFor(keys[1..], k)
                                case Some(r) => Some(r)
                                case None => if KeyOf(keys[0]) == k then Some(keys[0]) else None
  {
    var n := |keys| - 1;
    if n == 0 {
      assert keys[1..] == [] && keys[..n] == [];
    } else if KeyOf(keys[n]) != k {
      LastForFront(keys[..n], k);
      assert keys[..n][1..] == keys[1..][..n - 1];
    }
  }

  /** Saving a batch overlays it on the store, later records of the batch winning. */
  lemma {:induction false} SaveAllOverlays(m: map<Key, DkimPubKey>, keys: seq<DkimPubKey>, k: Key)
    requires SaveAll(m, keys).Ok?
    ensures var m' := SaveAll(m, keys).value;
            match LastFor(keys, k)
            case Some(r) => k in m' && m'[k] == r
            case None => (k in m' <==> k in m) && (k in m ==> m'[k] == m[k])
    decreases |keys|
  {
    if keys != [] {
      SaveAllOverlays(m[KeyOf(keys[0]) := keys[0]], keys[1..], k);
      LastForFront(keys, k);
    }
  }

  lemma {:induction false} SaveAllSucceedsIff(m: map<Key, DkimPubKey>, keys: seq<DkimPubKey>)
    ensures SaveAll(m, keys).Ok? <==> forall i :: 0 <= i < |keys| ==> Encodable(keys[i].domain)
    decreases |keys|
  {
    if keys != [] {
      SaveAllSucceedsIff(m[KeyOf(keys[0]) := keys[0]], keys[1..]);
      assert forall i :: 1 <= i < |keys| ==> keys[i] == keys[1..][i - 1];
      assert forall i :: 0 <= i < |keys| - 1 ==> keys[1..][i] == keys[i + 1];
    }
  }

  lemma {:induction false} WithHashesPointwise(c: Crypto, keys: seq<DkimPubKey>)
    ensures WithHashes(c, keys).Ok? <==> forall i :: 0 <= i < |keys| ==> c.poseidonHash(keys[i].pubKey).Some?
    ensures WithHashes(c, keys).Ok? ==>
              forall i :: 0 <= i < |keys| ==>
                && c.poseidonHash(keys[i].pubKey).Some?
                && WithHashes(c, keys).value[i] == keys[i].(poseidonHash := c.poseidonHash(keys[i].pubKey).value)
  {
    if keys != [] {
      WithHashesPointwise(c, keys[1..]);
      assert forall i :: 1 <= i < |keys| ==> keys[i] == keys[1..][i - 1];
      assert forall i :: 0 <= i < |keys| - 1 ==> keys[1..][i] == keys[i + 1];
    }
  }

  /** A record the message path lets in against the given limit and revocations. */
  ghost predicate Admissible(c: Crypto, key: DkimPubKey, limit: Uint64, revoked: set<ByteString>) {
    && key.keyType == 0 && key.version == 0
    && c.decodeBase64(key.pubKey).Some?
    && var bz := c.decodeBase64(key.pubKey).value;
    && |bz| <= limit && c.parsePublicKey(bz).Some?
    && var rsa := c.parsePublicKey(bz).value;
    && BitLength(rsa.modulus) >= DEFAULT_MIN_RSA_KEY_BITS
    && c.canonicalKey(rsa) !in revoked
  }

  lemma ValidateKeyMeans(c: Crypto, key: DkimPubKey, limit: Uint64, revoked: set<ByteString>)
    ensures ValidateKey(c, key, limit, Some(revoked), true) == None <==> Admissible(c, key, limit, revoked)
  {
  }

  /** Every record of a batch is admissible and can be hashed. */
  ghost predicate AllAdmissible(c: Crypto, st: State, keys: seq<DkimPubKey>) {
    forall i :: 0 <= i < |keys| ==>
      && Admissible(c, keys[i], GetParams(st).maxPubkeySizeBytes, st.revokedKeys.Keys)
      && c.poseidonHash(keys[i].pubKey).Some?
  }

  /** All or nothing: a batch is taken exactly if it is signed by the authority and every
      record in it is admissible, can be hashed and can be stored. The handler gets to the
      point of writing only if all of them are admissible and can be hashed, and if the
      batch is not taken the registry stays as it was. */
  lemma AddSucceedsIff(c: Crypto, authority: ByteString, st: State, msg: Msg)
    requires msg.AddDkimPubKeys?
    ensures HandleAdd(c, authority, st, msg).Ok? <==>
            && msg.authority == authority && AllAdmissible(c, st, msg.dkimPubkeys)
            && forall i :: 0 <= i < |msg.dkimPubkeys| ==> Encodable(msg.dkimPubkeys[i].domain)
    ensures HandleAdd(c, authority, st, msg) == Err(KeyEncoding) ==>
              msg.authority == authority && AllAdmissible(c, st, msg.dkimPubkeys)
    ensures HandleAdd(c, authority, st, msg).Err? && EncodableKeys(st.dkimPubKeys.Keys) ==>
              Deliver(c, authority, st, msg) == st
  {
    hide Admissible, ValidateKey, BitLength;
    var keys, limit := msg.dkimPubkeys, GetParams(st).maxPubkeySizeBytes;
    var revoked := st.revokedKeys.Keys;
    BatchValidIffEach(c, keys, limit, Some(revoked), true);
    forall i | 0 <= i < |keys|
      ensures ValidateKey(c, keys[i], limit, Some(revoked), true) == None <==> Admissible(c, keys[i], limit, revoked)
    {
      ValidateKeyMeans(c, keys[i], limit, revoked);
    }
    WithHashesPointwise(c, keys);
    if WithHashes(c, keys).Ok? {
      var hashed := WithHashes(c, keys).value;
      SaveAllSucceedsIff(st.dkimPubKeys, hashed);
      assert forall i :: 0 <= i < |keys| ==> hashed[i].domain == keys[i].domain;
    }
  }

  lemma {:induction false} LastForHashed(c: Crypto, keys: seq<DkimPubKey>, hashed: seq<DkimPubKey>, k: Key)
    requires |hashed| == |keys|
    requires forall i :: 0 <= i < |keys| ==>
               && c.poseidonHash(keys[i].pubKey).Some?
               && hashed[i] == keys[i].(poseidonHash := c.poseidonHash(keys[i].pubKey).value)
    ensures match LastFor(keys, k)
            case None => LastFor(hashed, k) == None
            case Some(r) => c.poseidonHash(r.pubKey).Some? &&
                            LastFor(hashed, k) == Some(r.(poseidonHash := c.poseidonHash(r.pubKey).value))
  {
    if keys != [] {
      var n := |keys| - 1;
      LastForHashed(c, keys[..n], hashed[..n], k);
    }
  }

  /** What a batch that is taken leaves: under each key the last record of the batch for
      it, with its own hash filled in, and everything else as it was. */
  lemma AddExact(c: Crypto, authority: ByteString, st: State, msg: Msg, k: Key)
    requires msg.AddDkimPubKeys? && HandleAdd(c, authority, st, msg).Ok?
    ensures var st' := HandleAdd(c, authority, st, msg).value;
            && st'.revokedKeys == st.revokedKeys && st'.params == st.params
            && match LastFor(msg.dkimPubkeys, k)
               case None =>
                 && (k in st'.dkimPubKeys <==> k in st.dkimPubKeys)
                 && (k in st.dkimPubKeys ==> st'.dkimPubKeys[k] == st.dkimPubKeys[k])
               case Some(r) =>
                 && c.poseidonHash(r.pubKey).Some? && k in st'.dkimPubKeys
                 && st'.dkimPubKeys[k] == r.(poseidonHash := c.poseidonHash(r.pubKey).value)
  {
    hide ValidateKeys;
    var keys := msg.dkimPubkeys;
    WithHashesPointwise(c, keys);
    var hashed := WithHashes(c, keys).value;
    SaveAllOverlays(st.dkimPubKeys, hashed, k);
    LastForHashed(c, keys, hashed, k);
  }

  // ---------------------------------------------------------------- revoking

  lemma {:induction false} ReadableIffEach(c: Crypto, st: State, ks: seq<Key>, limit: Uint64)
    requires forall k :: k in ks ==> k in st.dkimPubKeys
    ensures FirstUnreadable(c, st, ks, limit) == None <==> forall k :: k in ks ==> Readable(c, st.dkimPubKeys[k], limit)
  {
    if ks != [] {
      ReadableIffEach(c, st, ks[1..], limit);
      assert ks == [ks[0]] + ks[1..];
    }
  }

  /** A range is refused for its first unreadable record: as too large if that decodes to
      more than the limit, and as invalid otherwise. */
  lemma {:induction false} UnreadableMeans(c: Crypto, st: State, ks: seq<Key>, limit: Uint64)
    requires forall k :: k in ks ==> k in st.dkimPubKeys
    ensures var n := ReadableRun(c, st, ks, limit);
            && (forall i :: 0 <= i < n ==> Readable(c, st.dkimPubKeys[ks[i]], limit))
            && (n < |ks| ==>
                  && !Readable(c, st.dkimPubKeys[ks[n]], limit)
                  && var bz := c.decodeBase64(st.dkimPubKeys[ks[n]].pubKey);
                  && FirstUnreadable(c, st, ks, limit) ==
                     Some(if bz.Some? && |bz.value| > limit then PubKeyTooLarge else InvalidPubKey))
  {
    if ks != [] {
      UnreadableMeans(c, st, ks[1..], limit);
      assert forall i :: 1 <= i < |ks| ==> ks[i] == ks[1..][i - 1];
    }
  }

  /** A stored record that still decodes within the limit and parses. */
  ghost predicate Readable(c: Crypto, record: DkimPubKey, limit: Uint64) {
    && c.decodeBase64(record.pubKey).Some?
    && |c.decodeBase64(record.pubKey).value| <= limit
    && c.parsePublicKey(c.decodeBase64(record.pubKey).value).Some?
  }

  /** Revocation succeeds exactly if the private key parses and every record of the domain
      is still readable under the current limit. It then removes precisely the records of
      the domain that carry the key, leaves every other record and the parameters alone,
      and marks the canonical key if and only if something was removed. */
  lemma RevokeExact(c: Crypto, st: State, msg: Msg)
    requires msg.RevokeDkimPubKey? && EncodableKeys(st.dkimPubKeys.Keys)
    ensures HandleRevoke(c, st, msg).Ok? <==>
            && c.parsePrivateKey(msg.privKey).Some? && Encodable(msg.domain)
            && forall k :: k in st.dkimPubKeys && k.domain == msg.domain ==>
                 Readable(c, st.dkimPubKeys[k], GetParams(st).maxPubkeySizeBytes)
    ensures HandleRevoke(c, st, msg).Ok? ==>
              var st' := HandleRevoke(c, st, msg).value;
              var rsa := c.parsePrivateKey(msg.privKey).value;
              && (forall k :: k in st'.dkimPubKeys <==>
                    && k in st.dkimPubKeys
                    && !(k.domain == msg.domain && KeyIn(c, st.dkimPubKeys[k].pubKey) == Some(rsa)))
              && (forall k :: k in st'.dkimPubKeys ==> st'.dkimPubKeys[k] == st.dkimPubKeys[k])
              && st'.params == st.params
              && (if st'.dkimPubKeys == st.dkimPubKeys then st'.revokedKeys == st.revokedKeys
                  else st'.revokedKeys == st.revokedKeys[c.canonicalKey(rsa) := true])
  {
    hide Readable;
    if c.parsePrivateKey(msg.privKey).Some? && Encodable(msg.domain) {
      var range := InDomain(st, msg.domain);
      PrefixIsDomain(st, msg.domain);
      StoreKeysDistinct(range);
      ReadableIffEach(c, st, Sorted(range, StoreKey), GetParams(st).maxPubkeySizeBytes);
      var rsa := c.parsePrivateKey(msg.privKey).value;
      var gone := Holders(c, st, msg.domain, rsa);
      if gone != {} {
        var k :| k in gone;
        assert k in st.dkimPubKeys && k !in (st.dkimPubKeys - gone);
      } else {
        assert st.dkimPubKeys - gone == st.dkimPubKeys;
      }
    }
  }

  // ---------------------------------------------------------------- removing and updating

  /** Removal takes one record and touches nothing else; a record that is not there is no
      error. */
  lemma RemoveExact(authority: ByteString, st: State, msg: Msg)
    requires msg.RemoveDkimPubKey?
    ensures HandleRemove(authority, st, msg).Ok? <==> msg.authority == authority && Encodable(msg.domain)
    ensures HandleRemove(authority, st, msg).Ok? ==>
              var st' := HandleRemove(authority, st, msg).value;
              && (forall k :: k in st'.dkimPubKeys <==>
                    k in st.dkimPubKeys && (k.domain != msg.domain || k.selector != msg.selector))
              && (forall k :: k in st'.dkimPubKeys ==> st'.dkimPubKeys[k] == st.dkimPubKeys[k])
              && st'.revokedKeys == st.revokedKeys && st'.params == st.params
  {
  }

  /** New parameters are in force exactly if the authority sent them and they are valid
      once a zero size cap has been replaced; keys and revocations stay. */
  lemma UpdateParamsExact(authority: ByteString, st: State, msg: Msg)
    requires msg.UpdateParams?
    ensures HandleUpdateParams(authority, st, msg).Ok? <==>
            msg.authority == authority && ValidParams(WithDefaultSize(msg.params))
    ensures HandleUpdateParams(authority, st, msg).Ok? ==>
              var st' := HandleUpdateParams(authority, st, msg).value;
              && GetParams(st') == WithDefaultSize(msg.params)
              && st'.dkimPubKeys == st.dkimPubKeys && st'.revokedKeys == st.revokedKeys
  {
  }

  // ---------------------------------------------------------------- what is refused, and why

  /** The floor for new keys: a modulus below 2^1023 is refused for its size, and one from
      there on is not. */
  lemma KeySizeFloor(c: Crypto, key: DkimPubKey, limit: Uint64, revoked: Option<set<ByteString>>)
    requires key.keyType == 0 && key.version == 0 && KeyIn(c, key.pubKey).Some?
    requires |c.decodeBase64(key.pubKey).value| <= limit
    ensures ValidateKey(c, key, limit, revoked, true) == Some(KeyTooSmall) <==>
            KeyIn(c, key.pubKey).value.modulus < Pow2(1023)
    ensures ValidateKey(c, key, limit, revoked, false) != Some(KeyTooSmall)
  {
    hide BitLength, Pow2;
    BitLengthAbove(KeyIn(c, key.pubKey).value.modulus, 1023);
  }

  /** When each complaint about a key is made. */
  lemma ComplaintMeans(c: Crypto, key: DkimPubKey, limit: Uint64, revoked: Option<set<ByteString>>, enforce: bool)
    ensures var complaint := ValidateKey(c, key, limit, revoked, enforce);
            var rsa := KeyIn(c, key.pubKey);
            var plain := key.keyType == 0 && key.version == 0;
            var large := c.decodeBase64(key.pubKey).Some? && |c.decodeBase64(key.pubKey).value| > limit;
            && (complaint == Some(InvalidKeyType) <==> key.keyType != 0)
            && (complaint == Some(InvalidVersion) <==> key.keyType == 0 && key.version != 0)
            && (complaint == Some(PubKeyTooLarge) <==> plain && large)
            && (complaint == Some(InvalidPubKey) <==> plain && !large && rsa == None)
            && (complaint == Some(KeyTooSmall) <==>
                  plain && !large && rsa.Some? && enforce && rsa.value.modulus < Pow2(1023))
            && (complaint == Some(InvalidatedKey) <==>
                  && plain && !large && rsa.Some? && (enforce ==> rsa.value.modulus >= Pow2(1023))
                  && revoked.Some? && c.canonicalKey(rsa.value) in revoked.value)
  {
    hide BitLength, Pow2;
    if KeyIn(c, key.pubKey).Some? {
      BitLengthAbove(KeyIn(c, key.pubKey).value.modulus, 1023);
    }
  }

  /** A batch is refused with the complaint about its first bad key. */
  lemma {:induction false} BatchReportsFirst(c: Crypto, keys: seq<DkimPubKey>, limit: Uint64,
                                            revoked: Option<set<ByteString>>, enforce: bool, n: nat)
    requires n < |keys| && ValidateKey(c, keys[n], limit, revoked, enforce).Some?
    requires forall i :: 0 <= i < n ==> ValidateKey(c, keys[i], limit, revoked, enforce) == None
    ensures ValidateKeys(c, keys, limit, revoked, enforce) == ValidateKey(c, keys[n], limit, revoked, enforce)
    decreases n
  {
    hide ValidateKey;
    if n > 0 {
      BatchReportsFirst(c, keys[1..], limit, revoked, enforce, n - 1);
    }
  }

  /** Why a message fails. */
  lemma FailureMeans(c: Crypto, authority: ByteString, st: State, msg: Msg)
    requires EncodableKeys(st.dkimPubKeys.Keys)
    ensures Handle(c, authority, st, msg) == Err(InvalidSigner) <==>
            !msg.RevokeDkimPubKey? && msg.authority != authority
    ensures Handle(c, authority, st, msg) == Err(InvalidParams) <==>
            msg.UpdateParams? && msg.authority == authority && !ValidParams(WithDefaultSize(msg.params))
    ensures Handle(c, authority, st, msg) == Err(ParsingPrivKey) <==>
            msg.RevokeDkimPubKey? && c.parsePrivateKey(msg.privKey) == None
    ensures Handle(c, authority, st, msg) == Err(PoseidonFailed) <==>
            && msg.AddDkimPubKeys? && msg.authority == authority
            && ValidateKeys(c, msg.dkimPubkeys, GetParams(st).maxPubkeySizeBytes,
                            Some(st.revokedKeys.Keys), true) == None
            && exists i :: 0 <= i < |msg.dkimPubkeys| && c.poseidonHash(msg.dkimPubkeys[i].pubKey) == None
  {
    hide SaveAll, ValidParams, Sorted, WithHashes, GetParams;
    if msg.AddDkimPubKeys? {
      WithHashesPointwise(c, msg.dkimPubkeys);
    }
  }

  /** The limits in force before any parameters are stored. */
  lemma DefaultsInForce(st: State)
    requires st.params == None
    ensures GetParams(st) == Params(1, 512, PublicInputIndices(88, 68, IndexRange(0, 9), 9, IndexRange(12, 68),
                                                               IndexRange(70, 79), IndexRange(79, 88)))
  {
  }

  // ---------------------------------------------------------------- messages as delivered

  /** A delivered Add: if the authority sent it and every record is admissible, can be
      hashed and can be stored, then each key holds the last record of the batch for it,
      with its own hash, and all else is as before. If not, nothing has changed. */
  lemma DeliveredAdd(c: Crypto, authority: ByteString, st: State, msg: Msg, k: Key)
    requires EncodableKeys(st.dkimPubKeys.Keys) && msg.AddDkimPubKeys?
    ensures var st', keys := Deliver(c, authority, st, msg), msg.dkimPubkeys;
            if && msg.authority == authority && AllAdmissible(c, st, keys)
               && forall i :: 0 <= i < |keys| ==> Encodable(keys[i].domain)
            then
              && st'.revokedKeys == st.revokedKeys && st'.params == st.params
              && match LastFor(keys, k)
                 case None =>
                   && (k in st'.dkimPubKeys <==> k in st.dkimPubKeys)
                   && (k in st.dkimPubKeys ==> st'.dkimPubKeys[k] == st.dkimPubKeys[k])
                 case Some(r) =>
                   && c.poseidonHash(r.pubKey).Some? && k in st'.dkimPubKeys
                   && st'.dkimPubKeys[k] == r.(poseidonHash := c.poseidonHash(r.pubKey).value)
            else st' == st
  {
    hide AllAdmissible, HandleAdd;
    AddSucceedsIff(c, authority, st, msg);
    if HandleAdd(c, authority, st, msg).Ok? {
      AddExact(c, authority, st, msg, k);
    }
  }

  predicate IsFor(record: DkimPubKey, k: Key) {
    record.domain == k.domain && record.selector == k.selector
  }

  ghost predicate IsLast(keys: seq<DkimPubKey>, k: Key, i: int) {
    && 0 <= i < |keys| && IsFor(keys[i], k)
    && forall j :: i < j < |keys| ==> !IsFor(keys[j], k)
  }

  /** The last record of a batch for a key: it is in the batch under that domain and
      selector, and none behind it is. */
  lemma {:induction false} LastForMeans(keys: seq<DkimPubKey>, k: Key)
    ensures LastFor(keys, k) == None <==> forall i :: 0 <= i < |keys| ==> !IsFor(keys[i], k)
    ensures LastFor(keys, k).Some? ==> exists i :: IsLast(keys, k, i) && LastFor(keys, k) == Some(keys[i])
  {
    if keys != [] {
      var n := |keys| - 1;
      var front := keys[..n];
      LastForMeans(front, k);
      if IsFor(keys[n], k) {
        assert KeyOf(keys[n]) == k && IsLast(keys, k, n);
      } else {
        assert forall i :: 0 <= i < n ==> keys[i] == front[i];
        if LastFor(front, k).Some? {
          var i :| IsLast(front, k, i) && LastFor(front, k) == Some(front[i]);
          assert IsLast(keys, k, i);
        }
      }
    }
  }

  /** A delivered Remove: if the authority sent it, the record under that domain and
      selector is gone, if there was one, and nothing else has changed. */
  lemma DeliveredRemove(c: Crypto, authority: ByteString, st: State, msg: Msg, k: Key)
    requires EncodableKeys(st.dkimPubKeys.Keys) && msg.RemoveDkimPubKey?
    ensures var st' := Deliver(c, authority, st, msg);
            if msg.authority == authority && Encodable(msg.domain) then
              && st'.revokedKeys == st.revokedKeys && st'.params == st.params
              && (k in st'.dkimPubKeys <==>
                    k in st.dkimPubKeys && !(k.domain == msg.domain && k.selector == msg.selector))
              && (k in st'.dkimPubKeys ==> st'.dkimPubKeys[k] == st.dkimPubKeys[k])
            else st' == st
  {
  }

  /** A delivered Revoke: if the private key parses and every record of the domain is
      readable, the records of the domain with that key are gone, all others stay, and
      the canonical key is marked exactly if one went. If not, nothing has changed. */
  lemma DeliveredRevoke(c: Crypto, authority: ByteString, st: State, msg: Msg, k: Key)
    requires EncodableKeys(st.dkimPubKeys.Keys) && msg.RevokeDkimPubKey?
    ensures var st', rsa := Deliver(c, authority, st, msg), c.parsePrivateKey(msg.privKey);
            if && rsa.Some? && Encodable(msg.domain)
               && forall j :: j in st.dkimPubKeys && j.domain == msg.domain ==>
                    Readable(c, st.dkimPubKeys[j], GetParams(st).maxPubkeySizeBytes)
            then
              && st'.params == st.params
              && (k in st'.dkimPubKeys <==>
                    && k in st.dkimPubKeys
                    && !(k.domain == msg.domain && KeyIn(c, st.dkimPubKeys[k].pubKey) == rsa))
              && (k in st'.dkimPubKeys ==> st'.dkimPubKeys[k] == st.dkimPubKeys[k])
              && (if st'.dkimPubKeys == st.dkimPubKeys then st'.revokedKeys == st.revokedKeys
                  else st'.revokedKeys == st.revokedKeys[c.canonicalKey(rsa.value) := true])
            else st' == st
  {
    hide HandleRevoke, Readable;
    RevokeExact(c, st, msg);
  }

  ghost predicate Covers(r: IndexRange, i: int) {
    r.start <= i < r.end
  }

  /** A range with an index in it, all of them below `bound`. */
  ghost predicate Usable(r: IndexRange, bound: Uint64) {
    (exists i :: Covers(r, i)) && forall i :: Covers(r, i) ==> i < bound
  }

  lemma UsableIff(r: IndexRange, bound: Uint64)
    ensures Usable(r, bound) <==> ValidRange(r) && r.end <= bound
  {
    if ValidRange(r) && r.end <= bound {
      assert Covers(r, r.start);
    }
    if Usable(r, bound) {
      var i :| Covers(r, i);
      assert Covers(r, r.end - 1);
    }
  }

  /** A delivered UpdateParams: it is taken if and only if the authority sent it, the key
      identifier is positive, every range has an index, and every index in a range and
      both single ones are below the minimum length. The parameters are then as sent,
      with 512 for a size cap of zero, and keys and revocations stay. If not, nothing has
      changed. */
  lemma DeliveredUpdate(c: Crypto, authority: ByteString, st: State, msg: Msg)
    requires EncodableKeys(st.dkimPubKeys.Keys) && msg.UpdateParams?
    ensures var p, ix := msg.params, msg.params.publicInputIndices;
            var taken := && msg.authority == authority && p.vkeyIdentifier > 0
                         && ix.emailHashIndex < ix.minLength && ix.dkimHashIndex < ix.minLength
                         && Usable(ix.dkimDomainRange, ix.minLength) && Usable(ix.txBytesRange, ix.minLength)
                         && Usable(ix.emailHostRange, ix.minLength) && Usable(ix.emailSubjectRange, ix.minLength);
            && (Handle(c, authority, st, msg).Ok? <==> taken)
            && Deliver(c, authority, st, msg) ==
               if taken then
                 st.(params := Some(Params(p.vkeyIdentifier,
                                           if p.maxPubkeySizeBytes == 0 then 512 else p.maxPubkeySizeBytes, ix)))
               else st
  {
    hide Usable;
    var ix := msg.params.publicInputIndices;
    UsableIff(ix.dkimDomainRange, ix.minLength);
    UsableIff(ix.txBytesRange, ix.minLength);
    UsableIff(ix.emailHostRange, ix.minLength);
    UsableIff(ix.emailSubjectRange, ix.minLength);
  }

  // ---------------------------------------------------------------- one step

  /** What a stored record promises, apart from its hash. */
  ghost predicate SoundRecord(c: Crypto, k: Key, record: DkimPubKey) {
    && KeyOf(record) == k && Encodable(k.domain)
    && record.keyType == 0 && record.version == 0
    && KeyIn(c, record.pubKey).Some?
  }

  ghost predicate Hashed(c: Crypto, record: DkimPubKey) {
    c.poseidonHash(record.pubKey) == Some(record.poseidonHash)
  }

  ghost predicate SoundState(c: Crypto, st: State) {
    && (forall k :: k in st.dkimPubKeys ==> SoundRecord(c, k, st.dkimPubKeys[k]))
    && (forall r :: r in st.revokedKeys ==> st.revokedKeys[r])
    && (st.params.Some? ==> ValidParams(st.params.value))
  }

  /** The registry invariant: each record sits under its own domain and selector, is an
      RSA key of DKIM version 1 that decodes and parses, and carries its own hash. */
  ghost predicate Invariant(c: Crypto, st: State) {
    SoundState(c, st) && forall k :: k in st.dkimPubKeys ==> Hashed(c, st.dkimPubKeys[k])
  }

  lemma SoundEncodable(c: Crypto, st: State)
    requires SoundState(c, st)
    ensures EncodableKeys(st.dkimPubKeys.Keys)
  {
  }

  /** A record that an Add in state `st` has written. */
  ghost predicate Admitted(c: Crypto, st: State, k: Key, record: DkimPubKey) {
    && SoundRecord(c, k, record) && Hashed(c, record)
    && Admissible(c, record, GetParams(st).maxPubkeySizeBytes, st.revokedKeys.Keys)
  }

  lemma {:induction false} LastForIsMember(keys: seq<DkimPubKey>, k: Key)
    requires LastFor(keys, k).Some?
    ensures exists i :: 0 <= i < |keys| && LastFor(keys, k) == Some(keys[i]) && KeyOf(keys[i]) == k
  {
    var n := |keys| - 1;
    if KeyOf(keys[n]) != k {
      LastForIsMember(keys[..n], k);
    }
  }

  /** Every record after an Add was there before, unchanged, or was admitted. */
  lemma AddEntry(c: Crypto, authority: ByteString, st: State, msg: Msg, k: Key)
    requires msg.AddDkimPubKeys? && HandleAdd(c, authority, st, msg).Ok?
    requires k in HandleAdd(c, authority, st, msg).value.dkimPubKeys
    ensures var record := HandleAdd(c, authority, st, msg).value.dkimPubKeys[k];
            (k in st.dkimPubKeys && st.dkimPubKeys[k] == record) || Admitted(c, st, k, record)
  {
    hide BitLength, ValidateKeys, ValidateKey;
    var keys := msg.dkimPubkeys;
    var hashed := WithHashes(c, keys).value;
    SaveAllOverlays(st.dkimPubKeys, hashed, k);
    if LastFor(hashed, k).Some? {
      LastForIsMember(hashed, k);
      var i :| 0 <= i < |hashed| && LastFor(hashed, k) == Some(hashed[i]) && KeyOf(hashed[i]) == k;
      WithHashesPointwise(c, keys);
      AddSucceedsIff(c, authority, st, msg);
    }
  }

  /** The same for every message. */
  lemma StepEntry(c: Crypto, authority: ByteString, st: State, msg: Msg, k: Key)
    requires EncodableKeys(st.dkimPubKeys.Keys)
    requires k in Deliver(c, authority, st, msg).dkimPubKeys
    ensures var record := Deliver(c, authority, st, msg).dkimPubKeys[k];
            (k in st.dkimPubKeys && st.dkimPubKeys[k] == record) || Admitted(c, st, k, record)
  {
    hide Admitted;
    if msg.AddDkimPubKeys? && HandleAdd(c, authority, st, msg).Ok? {
      AddEntry(c, authority, st, msg, k);
    }
  }

  /** Revocations are never taken back, and a flag is never anything but true. */
  lemma StepRevocations(c: Crypto, authority: ByteString, st: State, msg: Msg)
    requires EncodableKeys(st.dkimPubKeys.Keys)
    ensures st.revokedKeys.Keys <= Deliver(c, authority, st, msg).revokedKeys.Keys
    ensures forall r :: r in Deliver(c, authority, st, msg).revokedKeys ==>
              Deliver(c, authority, st, msg).revokedKeys[r] || (r in st.revokedKeys && !st.revokedKeys[r])
  {
  }

  lemma SoundStep(c: Crypto, authority: ByteString, st: State, msg: Msg)
    requires SoundState(c, st) && EncodableKeys(st.dkimPubKeys.Keys)
    ensures SoundState(c, Deliver(c, authority, st, msg))
  {
    hide SoundRecord, Admissible, ValidParams, Deliver;
    var st' := Deliver(c, authority, st, msg);
    forall k | k in st'.dkimPubKeys ensures SoundRecord(c, k, st'.dkimPubKeys[k]) {
      StepEntry(c, authority, st, msg, k);
    }
    StepRevocations(c, authority, st, msg);
    StepParams(c, authority, st, msg);
  }

  lemma InvariantStep(c: Crypto, authority: ByteString, st: State, msg: Msg)
    requires Invariant(c, st) && EncodableKeys(st.dkimPubKeys.Keys)
    ensures Invariant(c, Deliver(c, authority, st, msg))
  {
    hide SoundState, Admissible, Deliver;
    SoundStep(c, authority, st, msg);
    var st' := Deliver(c, authority, st, msg);
    forall k | k in st'.dkimPubKeys ensures Hashed(c, st'.dkimPubKeys[k]) {
      StepEntry(c, authority, st, msg, k);
    }
  }

  lemma StepParams(c: Crypto, authority: ByteString, st: State, msg: Msg)
    requires EncodableKeys(st.dkimPubKeys.Keys)
    ensures var st' := Deliver(c, authority, st, msg);
            st'.params == st.params || (st'.params.Some? && ValidParams(st'.params.value))
  {
  }

  // ---------------------------------------------------------------- whole runs

  lemma {:induction false} SoundRun(c: Crypto, authority: ByteString, st: State, msgs: seq<Msg>)
    requires SoundState(c, st) && EncodableKeys(st.dkimPubKeys.Keys)
    ensures SoundState(c, Run(c, authority, st, msgs))
    decreases |msgs|
  {
    hide SoundState, Deliver, EncodableKeys;
    if msgs != [] {
      SoundStep(c, authority, st, msgs[0]);
      SoundRun(c, authority, Deliver(c, authority, st, msgs[0]), msgs[1..]);
    }
  }

  /** The registry invariant holds after every run that starts with it. */
  lemma {:induction false} InvariantRun(c: Crypto, authority: ByteString, st: State, msgs: seq<Msg>)
    requires Invariant(c, st) && EncodableKeys(st.dkimPubKeys.Keys)
    ensures Invariant(c, Run(c, authority, st, msgs))
    decreases |msgs|
  {
    hide Invariant, Deliver, EncodableKeys;
    if msgs != [] {
      InvariantStep(c, authority, st, msgs[0]);
      InvariantRun(c, authority, Deliver(c, authority, st, msgs[0]), msgs[1..]);
    }
  }

  lemma {:induction false} RevocationsOnlyGrow(c: Crypto, authority: ByteString, st: State, msgs: seq<Msg>)
    requires EncodableKeys(st.dkimPubKeys.Keys)
    ensures st.revokedKeys.Keys <= Run(c, authority, st, msgs).revokedKeys.Keys
    decreases |msgs|
  {
    hide Deliver, EncodableKeys;
    if msgs != [] {
      StepRevocations(c, authority, st, msgs[0]);
      RevocationsOnlyGrow(c, authority, Deliver(c, authority, st, msgs[0]), msgs[1..]);
    }
  }

  /** A stored record whose canonical key is revoked. */
  ghost predicate Tainted(c: Crypto, st: State, k: Key) {
    && k in st.dkimPubKeys
    && var rsa := KeyIn(c, st.dkimPubKeys[k].pubKey);
    && rsa.Some? && c.canonicalKey(rsa.value) in st.revokedKeys
  }

  lemma AdmittedNotRevoked(c: Crypto, st: State, k: Key, record: DkimPubKey)
    requires Admitted(c, st, k, record)
    ensures KeyIn(c, record.pubKey).Some? && c.canonicalKey(KeyIn(c, record.pubKey).value) !in st.revokedKeys
  {
  }

  /** Over any run, a record whose key was already revoked at the start and that is stored
      at the end has been there, unchanged, all along: revoked keys never come in. */
  lemma {:induction false} RevokedKeysNeverComeIn(c: Crypto, authority: ByteString, st: State, msgs: seq<Msg>, k: Key)
    requires EncodableKeys(st.dkimPubKeys.Keys)
    requires Tainted(c, Run(c, authority, st, msgs), k)
    requires c.canonicalKey(KeyIn(c, Run(c, authority, st, msgs).dkimPubKeys[k].pubKey).value) in st.revokedKeys
    ensures k in st.dkimPubKeys && st.dkimPubKeys[k] == Run(c, authority, st, msgs).dkimPubKeys[k]
    ensures Tainted(c, st, k)
    decreases |msgs|
  {
    hide Deliver, EncodableKeys, Admitted;
    if msgs != [] {
      var st' := Deliver(c, authority, st, msgs[0]);
      StepRevocations(c, authority, st, msgs[0]);
      RevokedKeysNeverComeIn(c, authority, st', msgs[1..], k);
      StepEntry(c, authority, st, msgs[0], k);
      if Admitted(c, st, k, st'.dkimPubKeys[k]) {
        AdmittedNotRevoked(c, st, k, st'.dkimPubKeys[k]);
      }
    }
  }

  /** The domain holds no record of the key, and the key is marked. */
  ghost predicate Barred(c: Crypto, st: State, domain: ByteString, rsa: RsaKey) {
    && c.canonicalKey(rsa) in st.revokedKeys
    && Holders(c, st, domain, rsa) == {}
  }

  lemma BarredStep(c: Crypto, authority: ByteString, st: State, msg: Msg, domain: ByteString, rsa: RsaKey)
    requires EncodableKeys(st.dkimPubKeys.Keys) && Barred(c, st, domain, rsa)
    ensures Barred(c, Deliver(c, authority, st, msg), domain, rsa)
  {
    hide Deliver, EncodableKeys, Admitted;
    var st' := Deliver(c, authority, st, msg);
    StepRevocations(c, authority, st, msg);
    forall k | k in st'.dkimPubKeys && k.domain == domain
      ensures KeyIn(c, st'.dkimPubKeys[k].pubKey) != Some(rsa)
    {
      StepEntry(c, authority, st, msg, k);
      if Admitted(c, st, k, st'.dkimPubKeys[k]) {
        AdmittedNotRevoked(c, st, k, st'.dkimPubKeys[k]);
      } else {
        assert k !in Holders(c, st, domain, rsa);
      }
    }
  }

  lemma {:induction false} BarredForever(c: Crypto, authority: ByteString, st: State, msgs: seq<Msg>,
                                        domain: ByteString, rsa: RsaKey)
    requires EncodableKeys(st.dkimPubKeys.Keys) && Barred(c, st, domain, rsa)
    ensures Barred(c, Run(c, authority, st, msgs), domain, rsa)
    decreases |msgs|
  {
    hide Deliver, EncodableKeys, Barred;
    if msgs != [] {
      BarredStep(c, authority, st, msgs[0], domain, rsa);
      BarredForever(c, authority, Deliver(c, authority, st, msgs[0]), msgs[1..], domain, rsa);
    }
  }

  /** No resurrection: once a Revoke has removed a key from a domain, no later state holds
      that key under that domain, whatever encoding it is submitted in. */
  lemma NoResurrection(c: Crypto, authority: ByteString, st: State, revoke: Msg, later: seq<Msg>)
    requires EncodableKeys(st.dkimPubKeys.Keys)
    requires revoke.RevokeDkimPubKey? && HandleRevoke(c, st, revoke).Ok?
    requires Holders(c, st, revoke.domain, c.parsePrivateKey(revoke.privKey).value) != {}
    ensures var rsa := c.parsePrivateKey(revoke.privKey).value;
            var end := Run(c, authority, st, [revoke] + later);
            && c.canonicalKey(rsa) in end.revokedKeys
            && forall k :: k in end.dkimPubKeys && k.domain == revoke.domain ==>
                 KeyIn(c, end.dkimPubKeys[k].pubKey) != Some(rsa)
  {
    var rsa := c.parsePrivateKey(revoke.privKey).value;
    var st' := Deliver(c, authority, st, revoke);
    assert st' == Revoked(c, st, revoke.domain, rsa);
    assert Holders(c, st', revoke.domain, rsa) == {};
    assert Barred(c, st', revoke.domain, rsa);
    BarredForever(c, authority, st', later, revoke.domain, rsa);
    assert ([revoke] + later)[1..] == later;
    var end := Run(c, authority, st', later);
    forall k | k in end.dkimPubKeys && k.domain == revoke.domain
      ensures KeyIn(c, end.dkimPubKeys[k].pubKey) != Some(rsa)
    {
      assert k !in Holders(c, end, revoke.domain, rsa);
    }
  }
}
