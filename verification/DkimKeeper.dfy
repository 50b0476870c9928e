/** The keeper: the stores of the registry and the handlers that update them in place. */
module DkimKeeper {
  import opened Options
  import opened Words
  import opened Messages
  import opened Parameters
  import opened Ordering
  import opened Registry
  import opened Genesis

  /** The early-exit loop over a batch of keys. */
  method ValidateBatch(c: Crypto, keys: seq<DkimPubKey>, limit: Uint64, revoked: Option<set<ByteString>>,
                       enforceMinKeySize: bool) returns (err: Option<DkimError>)
    ensures err == ValidateKeys(c, keys, limit, revoked, enforceMinKeySize)
  {
    hide ValidateKey;
    for i := 0 to |keys|
      invariant ValidateKeys(c, keys, limit, revoked, enforceMinKeySize)
             == ValidateKeys(c, keys[i..], limit, revoked, enforceMinKeySize)
    {
      err := ValidateKey(c, keys[i], limit, revoked, enforceMinKeySize);
      assert keys[i..][1..] == keys[i + 1..];
      if err.Some? {
        return;
      }
    }
    err := None;
  }

  /** The loop of an export over the record iterator. */
  method CopyRecords(m: map<Key, DkimPubKey>, kvs: seq<Key>) returns (keys: seq<DkimPubKey>)
    requires forall k :: k in kvs ==> k in m
    ensures keys == Values(m, kvs)
  {
    hide Values;
    keys := [];
    for i := 0 to |kvs|
      invariant keys == Values(m, kvs)[..i]
    {
      var v := m[kvs[i]];
      keys := keys + [DkimPubKey(v.domain, v.pubKey, v.poseidonHash, v.selector, v.version, v.keyType)];
    }
  }

  method CopyEntries(iter: seq<ByteString>) returns (entries: seq<ByteString>)
    ensures entries == iter
  {
    entries := [];
    for i := 0 to |iter|
      invariant entries == iter[..i]
    {
      entries := entries + [iter[i]];
    }
  }

  /** The records among `kvs` that carry the key `rsa`. */
  ghost function Matching(c: Crypto, st: State, kvs: seq<Key>, rsa: RsaKey): (ks: set<Key>)
    requires forall k :: k in kvs ==> k in st.dkimPubKeys
  {
    set k | k in kvs && KeyIn(c, st.dkimPubKeys[k].pubKey) == Some(rsa)
  }

  /** The records of a domain in store order. */
  function DomainKeys(st: State, domain: ByteString): (kvs: seq<Key>)
    requires EncodableKeys(st.dkimPubKeys.Keys)
    ensures forall k :: k in kvs <==> k in InDomain(st, domain)
  {
    StoreKeysDistinct(InDomain(st, domain));
    Sorted(InDomain(st, domain), StoreKey)
  }

  lemma MatchingSnoc(c: Crypto, st: State, kvs: seq<Key>, i: nat, rsa: RsaKey)
    requires i < |kvs| && forall k :: k in kvs ==> k in st.dkimPubKeys
    ensures Matching(c, st, kvs[..i + 1], rsa)
         == Matching(c, st, kvs[..i], rsa)
            + (if KeyIn(c, st.dkimPubKeys[kvs[i]].pubKey) == Some(rsa) then {kvs[i]} else {})
  {
    assert kvs[..i + 1] == kvs[..i] + [kvs[i]];
  }

  lemma MatchingNone(c: Crypto, st: State, kvs: seq<Key>, rsa: RsaKey)
    requires forall k :: k in kvs ==> k in st.dkimPubKeys
    ensures Matching(c, st, kvs[..0], rsa) == {}
  {
  }

  lemma RangeDone(c: Crypto, st: State, kvs: seq<Key>, limit: Uint64)
    requires forall k :: k in kvs ==> k in st.dkimPubKeys
    ensures FirstUnreadable(c, st, kvs[|kvs|..], limit) == None && ReadableRun(c, st, kvs[|kvs|..], limit) == 0
  {
  }

  /** Removing some holders of a key and, if there were any, marking the key. */
  ghost function WithoutKeys(c: Crypto, st: State, gone: set<Key>, rsa: RsaKey): (r: State) {
    State(st.dkimPubKeys - gone,
          if gone == {} then st.revokedKeys else st.revokedKeys[c.canonicalKey(rsa) := true],
          st.params)
  }

  class Keeper {
    const crypto: Crypto
    const authority: ByteString
    var dkimPubKeys: map<Key, DkimPubKey>
    var revokedKeys: map<ByteString, bool>
    var params: Option<Params>

    constructor (crypto: Crypto, authority: ByteString)
      ensures this.crypto == crypto && this.authority == authority
      ensures Stores() == EMPTY && Valid()
    {
      this.crypto, this.authority := crypto, authority;
      dkimPubKeys, revokedKeys, params := map[], map[], None;
    }

    function Stores(): (st: State)
      reads this
    {
      State(dkimPubKeys, revokedKeys, params)
    }

    /** Only keys that can be encoded are ever stored. */
    ghost predicate Valid()
      reads this
    {
      EncodableKeys(dkimPubKeys.Keys)
    }

    method SaveDkimPubKeys(keys: seq<DkimPubKey>) returns (err: Option<DkimError>)
      requires Valid()
      modifies this`dkimPubKeys
      ensures Valid()
      ensures dkimPubKeys == SavedPart(old(dkimPubKeys), keys)
      ensures match SaveAll(old(dkimPubKeys), keys)
        case Ok(m) => err == None && dkimPubKeys == m
        case Err(e) => err == Some(e)
    {
      for i := 0 to |keys|
        invariant Valid()
        invariant SaveAll(old(dkimPubKeys), keys) == SaveAll(dkimPubKeys, keys[i..])
        invariant SavedPart(old(dkimPubKeys), keys) == SavedPart(dkimPubKeys, keys[i..])
      {
        assert keys[i..][1..] == keys[i + 1..];
        if !Encodable(keys[i].domain) {
          return Some(KeyEncoding);
        }
        dkimPubKeys := dkimPubKeys[KeyOf(keys[i]) := keys[i]];
      }
      err := None;
    }

    /** Validates the whole batch, fills in the hashes, then stores. Nothing is written
        unless every key has passed validation and hashing; a domain that cannot be encoded
        then stops the writing at that record. */
    method Add(msg: Msg) returns (err: Option<DkimError>)
      requires Valid() && msg.AddDkimPubKeys?
      modifies this`dkimPubKeys
      ensures Valid()
      ensures match HandleAdd(crypto, authority, old(Stores()), msg)
        case Ok(st) => err == None && Stores() == st
        case Err(e) =>
          && err == Some(e)
          && (e != KeyEncoding ==> Stores() == old(Stores()))
          && (e == KeyEncoding ==>
                && WithHashes(crypto, msg.dkimPubkeys).Ok?
                && dkimPubKeys == SavedPart(old(dkimPubKeys), WithHashes(crypto, msg.dkimPubkeys).value))
    {
      hide ValidateKeys, SaveAll, SavedPart;
      if authority != msg.authority {
        return Some(InvalidSigner);
      }
      err := ValidateBatch(crypto, msg.dkimPubkeys, GetParams(Stores()).maxPubkeySizeBytes,
                           Some(revokedKeys.Keys), true);
      if err.Some? { return; }
      var keys: seq<DkimPubKey> := [];
      for i := 0 to |msg.dkimPubkeys|
        invariant Valid() && Stores() == old(Stores())
        invariant match (WithHashes(crypto, msg.dkimPubkeys), WithHashes(crypto, msg.dkimPubkeys[i..]))
                  case (Ok(all), Ok(rest)) => all == keys + rest
                  case (Err(e), Err(e')) => e == e'
                  case _ => false
      {
        var hash := crypto.poseidonHash(msg.dkimPubkeys[i].pubKey);
        assert msg.dkimPubkeys[i..][1..] == msg.dkimPubkeys[i + 1..];
        if hash == None {
          return Some(PoseidonFailed);
        }
        keys := keys + [msg.dkimPubkeys[i].(poseidonHash := hash.value)];
      }
      assert msg.dkimPubkeys[|msg.dkimPubkeys|..] == [] && keys + [] == keys;
      assert WithHashes(crypto, msg.dkimPubkeys) == Ok(keys);
      err := SaveDkimPubKeys(keys);
    }

    method Remove(msg: Msg) returns (err: Option<DkimError>)
      requires Valid() && msg.RemoveDkimPubKey?
      modifies this`dkimPubKeys
      ensures Valid()
      ensures match HandleRemove(authority, old(Stores()), msg)
        case Ok(st) => err == None && Stores() == st
        case Err(e) => err == Some(e) && Stores() == old(Stores())
    {
      if authority != msg.authority {
        return Some(InvalidSigner);
      }
      if !Encodable(msg.domain) {
        return Some(KeyEncoding);
      }
      dkimPubKeys := dkimPubKeys - {Key(msg.domain, msg.selector)};
      err := None;
    }

    /** Walks the given records in store order. It gives up at the first one that no
        longer decodes or parses, with exactly the matching records before it removed; the
        transaction around it then rolls back. */
    method RevokeRange(kvs: seq<Key>, rsa: RsaKey, limit: Uint64) returns (err: Option<DkimError>)
      requires Valid() && forall k :: k in kvs ==> k in dkimPubKeys
      modifies this`dkimPubKeys, this`revokedKeys
      ensures Valid()
      ensures err == FirstUnreadable(crypto, old(Stores()), kvs, limit)
      ensures var before := old(Stores());
              var n := ReadableRun(crypto, before, kvs, limit);
              Stores() == WithoutKeys(crypto, before, Matching(crypto, before, kvs[..n], rsa), rsa)
    {
      hide FirstUnreadable, ReadableRun, Matching;
      var before := Stores();
      var revoked := false;
      assert kvs[0..] == kvs;
      MatchingNone(crypto, before, kvs, rsa);
      ghost var gone: set<Key> := {};
      for i := 0 to |kvs|
        invariant gone == Matching(crypto, before, kvs[..i], rsa)
        invariant dkimPubKeys == before.dkimPubKeys - gone
        invariant revoked <==> gone != {}
        invariant revokedKeys == if revoked then before.revokedKeys[crypto.canonicalKey(rsa) := true]
                                 else before.revokedKeys
        invariant FirstUnreadable(crypto, before, kvs, limit) == FirstUnreadable(crypto, before, kvs[i..], limit)
        invariant ReadableRun(crypto, before, kvs, limit) == i + ReadableRun(crypto, before, kvs[i..], limit)
      {
        var k := kvs[i];
        assert k in kvs && kvs[i..][0] == k && kvs[i..][1..] == kvs[i + 1..];
        ReadsFirst(crypto, before, kvs[i..], limit);
        MatchingSnoc(crypto, before, kvs, i, rsa);
        var decoded := DecodeWithLimit(crypto, before.dkimPubKeys[k].pubKey, limit);
        if decoded.Err? {
          return Some(decoded.error);
        }
        var stored := crypto.parsePublicKey(decoded.value);
        if stored == None {
          return Some(InvalidPubKey);
        }
        if stored.value.exponent == rsa.exponent && stored.value.modulus == rsa.modulus {
          dkimPubKeys := dkimPubKeys - {k};
          if !revoked {
            revokedKeys := revokedKeys[crypto.canonicalKey(rsa) := true];
            revoked := true;
          }
          gone := gone + {k};
        }
      }
      RangeDone(crypto, before, kvs, limit);
      err := None;
    }

    /** Revokes a key in a domain: all records of the domain that carry it are removed. */
    method Revoke(msg: Msg) returns (err: Option<DkimError>)
      requires Valid() && msg.RevokeDkimPubKey?
      modifies this`dkimPubKeys, this`revokedKeys
      ensures Valid()
      ensures match HandleRevoke(crypto, old(Stores()), msg)
        case Ok(st) => err == None && Stores() == st
        case Err(e) => err == Some(e)
      ensures var before, rsa := old(Stores()), crypto.parsePrivateKey(msg.privKey);
              Stores() == if rsa == None || !Encodable(msg.domain) then before
                          else
                            var kvs := DomainKeys(before, msg.domain);
                            var n := ReadableRun(crypto, before, kvs, GetParams(before).maxPubkeySizeBytes);
                            WithoutKeys(crypto, before, Matching(crypto, before, kvs[..n], rsa.value), rsa.value)
    {
      hide FirstUnreadable;
      var limit := GetParams(Stores()).maxPubkeySizeBytes;
      var privateKey := crypto.parsePrivateKey(msg.privKey);
      if privateKey == None {
        return Some(ParsingPrivKey);
      }
      if !Encodable(msg.domain) {
        return Some(KeyEncoding);
      }
      ghost var before := Stores();
      PrefixIsDomain(before, msg.domain);
      var kvs := DomainKeys(Stores(), msg.domain);
      err := RevokeRange(kvs, privateKey.value, limit);
      assert kvs[..|kvs|] == kvs;
      assert Matching(crypto, before, kvs, privateKey.value) == Holders(crypto, before, msg.domain, privateKey.value);
    }

    method StoreParams(p: Params) returns (err: Option<DkimError>)
      modifies this`params
      ensures match SetParams(old(Stores()), p)
        case Ok(st) => err == None && Stores() == st
        case Err(e) => err == Some(e) && Stores() == old(Stores())
    {
      var p' := p;
      if p'.maxPubkeySizeBytes == 0 {
        p' := p'.(maxPubkeySizeBytes := DEFAULT_MAX_PUBKEY_SIZE_BYTES);
      }
      if !ValidParams(p') {
        return Some(InvalidParams);
      }
      params := Some(p');
      err := None;
    }

    method Update(msg: Msg) returns (err: Option<DkimError>)
      requires msg.UpdateParams?
      modifies this`params
      ensures match HandleUpdateParams(authority, old(Stores()), msg)
        case Ok(st) => err == None && Stores() == st
        case Err(e) => err == Some(e) && Stores() == old(Stores())
    {
      if authority != msg.authority {
        return Some(InvalidSigner);
      }
      var p := msg.params;
      if p.maxPubkeySizeBytes == 0 {
        p := p.(maxPubkeySizeBytes := DEFAULT_MAX_PUBKEY_SIZE_BYTES);
      }
      if !ValidParams(p) {
        return Some(InvalidParams);
      }
      err := StoreParams(p);
    }

    /** One transaction: the handler runs on the stores and a failure restores them. */
    method DeliverTx(msg: Msg) returns (err: Option<DkimError>)
      requires Valid()
      modifies this
      ensures Valid()
      ensures Stores() == Deliver(crypto, authority, old(Stores()), msg)
      ensures match Handle(crypto, authority, old(Stores()), msg)
        case Ok(_) => err == None
        case Err(e) => err == Some(e)
    {
      hide HandleAdd, HandleRemove, HandleRevoke, HandleUpdateParams;
      var saved := Stores();
      match msg {
        case AddDkimPubKeys(_, _) => err := Add(msg);
        case RemoveDkimPubKey(_, _, _) => err := Remove(msg);
        case RevokeDkimPubKey(_, _, _) => err := Revoke(msg);
        case UpdateParams(_, _) => err := Update(msg);
      }
      if err.Some? {
        dkimPubKeys, revokedKeys, params := saved.dkimPubKeys, saved.revokedKeys, saved.params;
      }
    }

    /** Import: parameters, then revocations, then keys. */
    method Import(g: GenesisState) returns (err: Option<DkimError>)
      requires Valid()
      modifies this
      ensures Valid()
      ensures match InitGenesis(crypto, old(Stores()), g)
        case Ok(st) => err == None && Stores() == st
        case Err(e) => err == Some(e)
      ensures Stores() == if err.Some? && err != Some(KeyEncoding) then old(Stores())
                          else State(SavedPart(old(dkimPubKeys), g.dkimPubkeys),
                                     MarkAll(old(revokedKeys), g.revokedPubkeys), Some(WithDefaultSize(g.params)))
    {
      hide ValidateGenesis, SaveAll;
      err := ValidateGenesis(crypto, g);
      if err.Some? { return; }
      err := StoreParams(WithDefaultSize(g.params));
      if err.Some? { return; }
      for i := 0 to |g.revokedPubkeys|
        invariant dkimPubKeys == old(dkimPubKeys)
        invariant SetParams(old(Stores()), WithDefaultSize(g.params)) == Ok(old(Stores()).(params := params))
        invariant MarkAll(old(revokedKeys), g.revokedPubkeys) == MarkAll(revokedKeys, g.revokedPubkeys[i..])
      {
        assert g.revokedPubkeys[i..][1..] == g.revokedPubkeys[i + 1..];
        revokedKeys := revokedKeys[g.revokedPubkeys[i] := true];
      }
      err := SaveDkimPubKeys(g.dkimPubkeys);
    }

    /** Export: two iterator loops that append to lists. */
    method Export() returns (g: GenesisState)
      requires Valid()
      ensures g == ExportGenesis(Stores())
    {
      StoreKeysDistinct(dkimPubKeys.Keys);
      IdentityDistinct(revokedKeys.Keys);
      var keys := CopyRecords(dkimPubKeys, Sorted(dkimPubKeys.Keys, StoreKey));
      var revoked := CopyEntries(Sorted(revokedKeys.Keys, Identity));
      g := GenesisState(GetParams(Stores()), keys, revoked);
    }
  }
}
