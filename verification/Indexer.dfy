/** The authz and feegrant indexer: a replica of two grant stores, fed by the change sets
    of committed blocks, with a secondary index by grantee. */
module Indexer {
  import opened Options
  import opened Words
  import opened KeyedOps

  type Address = ByteString

  datatype GrantKey = GrantKey(granter: Address, grantee: Address, msgType: ByteString)
  datatype Grant = Grant(authorization: Option<ByteString>, expiration: ByteString)

  datatype AllowanceKey = AllowanceKey(granter: Address, grantee: Address)
  type Allowance = ByteString

  /** Entry of the authz index: the grantee, then the whole primary key. */
  datatype GrantIndexKey = GrantIndexKey(grantee: Address, key: GrantKey)

  /** Entry of the feegrant index: the reversed pair. */
  datatype AllowanceIndexKey = AllowanceIndexKey(grantee: Address, granter: Address)

  function IndexGrant(k: GrantKey): (i: GrantIndexKey) {
    GrantIndexKey(k.grantee, k)
  }

  function IndexAllowance(k: AllowanceKey): (i: AllowanceIndexKey) {
    AllowanceIndexKey(k.grantee, k.granter)
  }

  // ---------------------------------------------------------------- indexed maps

  /** A map with one secondary index. Writing a key drops its old reference and adds the
      new one; removing it drops the reference. */
  class IndexedMap<K(==, !new), V, I(==, !new)> {
    const indexKey: K -> I
    var primary: map<K, V>
    var index: set<I>

    /** The index is exactly the projection of the primary map. */
    ghost predicate Valid()
      reads this
    {
      && Injective(indexKey)
      && forall i :: i in index <==> exists k :: k in primary && indexKey(k) == i
    }

    constructor (indexKey: K -> I)
      requires Injective(indexKey)
      ensures Valid() && primary == map[] && this.indexKey == indexKey
    {
      this.indexKey, primary, index := indexKey, map[], {};
    }

    method Set(k: K, v: V)
      requires Valid()
      modifies this
      ensures Valid() && primary == old(primary)[k := v]
    {
      if k in primary {
        index := index - {indexKey(k)};
      }
      index := index + {indexKey(k)};
      primary := primary[k := v];
      assert forall j :: j in old(primary) && j != k ==> indexKey(j) != indexKey(k);
    }

    method Remove(k: K)
      requires Valid() && k in primary
      modifies this
      ensures Valid() && primary == old(primary) - {k}
    {
      index := index - {indexKey(k)};
      primary := primary - {k};
      assert forall j :: j in primary ==> j in old(primary) && indexKey(j) != indexKey(k);
    }

    /** The index leads to the primary map and back: no reference dangles, none is missing. */
    lemma IndexExact(k: K)
      requires Valid()
      ensures indexKey(k) in index <==> k in primary
    {
    }
  }

  // ---------------------------------------------------------------- change sets

  datatype StoreName = AuthzStore | FeeGrantStore | OtherStore

  datatype StoreKVPair = StoreKVPair(store: StoreName, delete: bool, key: ByteString, value: ByteString)

  /** The key and value codecs of the chain's modules. */
  datatype Codecs = Codecs(
    decodeGrantKey: ByteString -> Option<GrantKey>,
    decodeGrant: ByteString -> Option<Grant>,
    parseAllowanceKey: ByteString -> Option<AllowanceKey>,
    decodeAllowance: ByteString -> Option<Allowance>)

  const GRANT_PREFIX: ByteString := [1]
  const ALLOWANCE_PREFIX: ByteString := [0]
  const MIN_ALLOWANCE_KEY := 5

  /** Splits a grant key; a key that cannot be decoded reads as the empty triple. */
  function ParseGrantKey(c: Codecs, key: ByteString): (k: GrantKey) {
    if |key| < 1 then GrantKey([], [], [])
    else
      match c.decodeGrantKey(key[1..])
      case None => GrantKey([], [], [])
      case Some(k) => k
  }

  /** What one change does to the authz replica. */
  function GrantOp(c: Codecs, pair: StoreKVPair): (op: Op<GrantKey, Grant>) {
    if !pair.store.AuthzStore? || !(GRANT_PREFIX <= pair.key) then Skip
    else if pair.delete then Delete(ParseGrantKey(c, pair.key))
    else
      match c.decodeGrant(pair.value)
      case None => Skip
      case Some(g) => Put(ParseGrantKey(c, pair.key), g)
  }

  /** What one change does to the feegrant replica. */
  function AllowanceOp(c: Codecs, pair: StoreKVPair): (op: Op<AllowanceKey, Allowance>) {
    if !pair.store.FeeGrantStore? || !(ALLOWANCE_PREFIX <= pair.key) || |pair.key| < MIN_ALLOWANCE_KEY then Skip
    else
      match c.parseAllowanceKey(pair.key)
      case None => Skip
      case Some(k) =>
        if pair.delete then Delete(k)
        else
          match c.decodeAllowance(pair.value)
          case None => Skip
          case Some(a) => Put(k, a)
  }

  function GrantOps(c: Codecs, pairs: seq<StoreKVPair>): (ops: seq<Op<GrantKey, Grant>>)
    ensures |ops| == |pairs| && forall i :: 0 <= i < |pairs| ==> ops[i] == GrantOp(c, pairs[i])
  {
    seq(|pairs|, i requires 0 <= i < |pairs| => GrantOp(c, pairs[i]))
  }

  function AllowanceOps(c: Codecs, pairs: seq<StoreKVPair>): (ops: seq<Op<AllowanceKey, Allowance>>)
    ensures |ops| == |pairs| && forall i :: 0 <= i < |pairs| ==> ops[i] == AllowanceOp(c, pairs[i])
  {
    seq(|pairs|, i requires 0 <= i < |pairs| => AllowanceOp(c, pairs[i]))
  }

  // ---------------------------------------------------------------- the service

  class StreamService {
    const codecs: Codecs
    const authorizations: IndexedMap<GrantKey, Grant, GrantIndexKey>
    const feeAllowances: IndexedMap<AllowanceKey, Allowance, AllowanceIndexKey>

    ghost predicate Valid()
      reads authorizations, feeAllowances
    {
      && authorizations.Valid() && authorizations.indexKey == IndexGrant
      && feeAllowances.Valid() && feeAllowances.indexKey == IndexAllowance
    }

    constructor (codecs: Codecs)
      ensures Valid() && fresh(authorizations) && fresh(feeAllowances)
      ensures authorizations.primary == map[] && feeAllowances.primary == map[]
    {
      this.codecs := codecs;
      authorizations := new IndexedMap(IndexGrant);
      feeAllowances := new IndexedMap(IndexAllowance);
    }

    /** SafeAuthzHandlerUpdate. */
    method UpdateGrant(pair: StoreKVPair)
      requires Valid() && pair.store.AuthzStore? && GRANT_PREFIX <= pair.key
      modifies authorizations
      ensures Valid()
      ensures authorizations.primary == ApplyOp(old(authorizations.primary), GrantOp(codecs, pair))
    {
      var key := ParseGrantKey(codecs, pair.key);
      if pair.delete {
        if key in authorizations.primary {
          authorizations.Remove(key);
        }
        return;
      }
      var grant := codecs.decodeGrant(pair.value);
      if grant == None {
        return;
      }
      authorizations.Set(key, grant.value);
    }

    /** SafeFeeGrantHandlerUpdate. */
    method UpdateAllowance(pair: StoreKVPair)
      requires Valid() && pair.store.FeeGrantStore? && ALLOWANCE_PREFIX <= pair.key
      modifies feeAllowances
      ensures Valid()
      ensures feeAllowances.primary == ApplyOp(old(feeAllowances.primary), AllowanceOp(codecs, pair))
    {
      if |pair.key| < MIN_ALLOWANCE_KEY {
        return;
      }
      var key := codecs.parseAllowanceKey(pair.key);
      if key == None {
        return;
      }
      if pair.delete {
        if key.value in feeAllowances.primary {
          feeAllowances.Remove(key.value);
        }
        return;
      }
      var allowance := codecs.decodeAllowance(pair.value);
      if allowance == None {
        return;
      }
      feeAllowances.Set(key.value, allowance.value);
    }

    /** ListenCommit: folds a change set into the two maps, whatever is in it. */
    method ListenCommit(changeSet: seq<StoreKVPair>)
      requires Valid()
      modifies authorizations, feeAllowances
      ensures Valid()
      ensures authorizations.primary == ApplyOps(old(authorizations.primary), GrantOps(codecs, changeSet))
      ensures feeAllowances.primary == ApplyOps(old(feeAllowances.primary), AllowanceOps(codecs, changeSet))
    {
      hide GrantOp, AllowanceOp;
      for i := 0 to |changeSet|
        invariant Valid()
        invariant authorizations.primary == ApplyOps(old(authorizations.primary), GrantOps(codecs, changeSet[..i]))
        invariant feeAllowances.primary == ApplyOps(old(feeAllowances.primary), AllowanceOps(codecs, changeSet[..i]))
      {
        var pair := changeSet[i];
        ghost var grants, allowances := authorizations.primary, feeAllowances.primary;
        match pair.store {
          case AuthzStore =>
            if GRANT_PREFIX <= pair.key {
              UpdateGrant(pair);
            }
          case FeeGrantStore =>
            if ALLOWANCE_PREFIX <= pair.key {
              UpdateAllowance(pair);
            }
          case OtherStore =>
        }
        OneMore(codecs, old(authorizations.primary), old(feeAllowances.primary), changeSet, i);
        Ignored(codecs, pair, grants, allowances);
      }
      assert changeSet[..|changeSet|] == changeSet;
    }
  }

  /** What the two indexes say about the primary maps: a grant is found under its grantee
      and under no one else. */
  lemma GrantIndexExact(service: StreamService, grantee: Address, k: GrantKey)
    requires service.Valid()
    ensures (exists i :: i in service.authorizations.index && i.grantee == grantee && i.key == k) <==>
            k in service.authorizations.primary && k.grantee == grantee
  {
    var m, index := service.authorizations.primary, service.authorizations.index;
    if k in m && k.grantee == grantee {
      var i := service.authorizations.indexKey(k);
      assert i in index && i.grantee == grantee && i.key == k;
    }
    forall i | i in index && i.grantee == grantee && i.key == k ensures k in m && k.grantee == grantee {
      var j :| j in m && service.authorizations.indexKey(j) == i;
    }
  }

  /** An allowance is found under its grantee, next to its granter. */
  lemma AllowanceIndexExact(service: StreamService, granter: Address, grantee: Address)
    requires service.Valid()
    ensures (exists i :: i in service.feeAllowances.index && i.grantee == grantee && i.granter == granter) <==>
            (exists k :: k in service.feeAllowances.primary && k.grantee == grantee && k.granter == granter)
  {
    var m, index := service.feeAllowances.primary, service.feeAllowances.index;
    forall k | k in m && k.grantee == grantee && k.granter == granter
      ensures exists i :: i in index && i.grantee == grantee && i.granter == granter
    {
      var i := service.feeAllowances.indexKey(k);
      assert i in index && i.grantee == grantee && i.granter == granter;
    }
    forall i | i in index && i.grantee == grantee && i.granter == granter
      ensures exists k :: k in m && k.grantee == grantee && k.granter == granter
    {
      var k :| k in m && service.feeAllowances.indexKey(k) == i;
    }
  }

  /** Which changes leave the replica alone: in the authz store all whose key does not start
      with 1, in the feegrant store all whose key does not start with 0, is shorter than
      five bytes or does not parse, and writes whose value does not decode. */
  lemma WhatIsIgnored(c: Codecs, pair: StoreKVPair)
    ensures GrantOp(c, pair) == Skip <==>
            || pair.store != AuthzStore || pair.key == [] || pair.key[0] != 1
            || (!pair.delete && c.decodeGrant(pair.value) == None)
    ensures AllowanceOp(c, pair) == Skip <==>
            || pair.store != FeeGrantStore || |pair.key| < 5 || pair.key[0] != 0
            || c.parseAllowanceKey(pair.key) == None
            || (!pair.delete && c.decodeAllowance(pair.value) == None)
  {
    assert GRANT_PREFIX <= pair.key <==> pair.key != [] && pair.key[0] == 1;
    assert ALLOWANCE_PREFIX <= pair.key <==> pair.key != [] && pair.key[0] == 0;
  }

  /** An authz key that does not decode is not ignored: it stands for the empty triple. */
  lemma UndecodableGrantKey(c: Codecs, pair: StoreKVPair)
    requires pair.store == AuthzStore && pair.key != [] && pair.key[0] == 1
    requires c.decodeGrantKey(pair.key[1..]) == None
    ensures pair.delete ==> GrantOp(c, pair) == Delete(GrantKey([], [], []))
    ensures !pair.delete && c.decodeGrant(pair.value).Some? ==>
              GrantOp(c, pair) == Put(GrantKey([], [], []), c.decodeGrant(pair.value).value)
  {
  }

  lemma OneMore(c: Codecs, grants: map<GrantKey, Grant>, allowances: map<AllowanceKey, Allowance>,
                pairs: seq<StoreKVPair>, i: nat)
    requires i < |pairs|
    ensures ApplyOps(grants, GrantOps(c, pairs[..i + 1]))
         == ApplyOp(ApplyOps(grants, GrantOps(c, pairs[..i])), GrantOp(c, pairs[i]))
    ensures ApplyOps(allowances, AllowanceOps(c, pairs[..i + 1]))
         == ApplyOp(ApplyOps(allowances, AllowanceOps(c, pairs[..i])), AllowanceOp(c, pairs[i]))
  {
    hide GrantOp, AllowanceOp, ApplyOp;
    var g, a := GrantOp(c, pairs[i]), AllowanceOp(c, pairs[i]);
    assert GrantOps(c, pairs[..i + 1]) == GrantOps(c, pairs[..i]) + [g];
    assert AllowanceOps(c, pairs[..i + 1]) == AllowanceOps(c, pairs[..i]) + [a];
    ApplyOpsConcat(grants, GrantOps(c, pairs[..i]), [g]);
    ApplyOpsConcat(allowances, AllowanceOps(c, pairs[..i]), [a]);
    assert [g][1..] == [] && [a][1..] == [];
  }

  /** Changes to other stores or under other prefixes do nothing here. */
  lemma Ignored(c: Codecs, pair: StoreKVPair, grants: map<GrantKey, Grant>, allowances: map<AllowanceKey, Allowance>)
    ensures !pair.store.AuthzStore? || !(GRANT_PREFIX <= pair.key) ==> ApplyOp(grants, GrantOp(c, pair)) == grants
    ensures !pair.store.FeeGrantStore? || !(ALLOWANCE_PREFIX <= pair.key) ==>
              ApplyOp(allowances, AllowanceOp(c, pair)) == allowances
  {
  }

  /** Replaying a block, or any run of blocks taken as one change set, is harmless: this
      holds of every change set, including malformed keys and values. */
  lemma ReplayHarmless(c: Codecs, grants: map<GrantKey, Grant>, allowances: map<AllowanceKey, Allowance>,
                       pairs: seq<StoreKVPair>)
    ensures ApplyOps(ApplyOps(grants, GrantOps(c, pairs)), GrantOps(c, pairs)) == ApplyOps(grants, GrantOps(c, pairs))
    ensures ApplyOps(ApplyOps(allowances, AllowanceOps(c, pairs)), AllowanceOps(c, pairs))
         == ApplyOps(allowances, AllowanceOps(c, pairs))
  {
    ReplayChangesNothing(grants, GrantOps(c, pairs));
    ReplayChangesNothing(allowances, AllowanceOps(c, pairs));
  }

  // ---------------------------------------------------------------- the chain

  /** The chain's own stores, as raw bytes. */
  datatype Chain = Chain(authz: map<ByteString, ByteString>, feegrant: map<ByteString, ByteString>)

  function RawOp(store: StoreName, pair: StoreKVPair): (op: Op<ByteString, ByteString>) {
    if pair.store != store then Skip
    else if pair.delete then Delete(pair.key)
    else Put(pair.key, pair.value)
  }

  function RawOps(store: StoreName, pairs: seq<StoreKVPair>): (ops: seq<Op<ByteString, ByteString>>)
    ensures |ops| == |pairs| && forall i :: 0 <= i < |pairs| ==> ops[i] == RawOp(store, pairs[i])
  {
    seq(|pairs|, i requires 0 <= i < |pairs| => RawOp(store, pairs[i]))
  }

  function Commit(chain: Chain, pairs: seq<StoreKVPair>): (r: Chain) {
    Chain(ApplyOps(chain.authz, RawOps(AuthzStore, pairs)), ApplyOps(chain.feegrant, RawOps(FeeGrantStore, pairs)))
  }

  // ---------------------------------------------------------------- keys on the chain

  const MAX_ADDRESS := 255

  /** An address whose length fits the one byte it is written in. */
  predicate AddressFits(a: Address) {
    1 <= |a| <= MAX_ADDRESS
  }

  predicate GrantKeyFits(k: GrantKey) {
    AddressFits(k.granter) && AddressFits(k.grantee)
  }

  predicate AllowanceKeyFits(k: AllowanceKey) {
    AddressFits(k.granter) && AddressFits(k.grantee)
  }

  /** How the chain writes the keys that the indexer parses. */
  datatype KeyFormat = KeyFormat(grantKey: GrantKey -> ByteString, allowanceKey: AllowanceKey -> ByteString)

  /** The indexer's parsers invert the chain's key formats on all keys the chain can write,
      and the prefixes set the grants apart from the other records of each store. */
  ghost predicate Agrees(c: Codecs, f: KeyFormat) {
    && (forall k :: GrantKeyFits(k) ==>
          GRANT_PREFIX <= f.grantKey(k) && c.decodeGrantKey(f.grantKey(k)[1..]) == Some(k))
    && (forall k :: AllowanceKeyFits(k) ==>
          && ALLOWANCE_PREFIX <= f.allowanceKey(k) && |f.allowanceKey(k)| >= MIN_ALLOWANCE_KEY
          && c.parseAllowanceKey(f.allowanceKey(k)) == Some(k))
  }

  /** An address behind its length. */
  function WithLength(a: Address): (bs: ByteString)
    requires AddressFits(a)
  {
    [|a|] + a
  }

  /** An address and what follows it, if the bytes announced are there. */
  function TakeAddress(s: ByteString): (r: Option<(Address, ByteString)>) {
    if s == [] then None
    else
      var end: nat := (s[0] as int) + 1;
      if |s| < end then None else Some((s[1..end], s[end..]))
  }

  lemma TakesAddress(a: Address, rest: ByteString)
    requires AddressFits(a)
    ensures TakeAddress(WithLength(a) + rest) == Some((a, rest))
  {
    var s := WithLength(a) + rest;
    assert s[1..1 + |a|] == a && s[1 + |a|..] == rest;
  }

  /** The documented feegrant key: prefix, grantee, granter. */
  function AllowanceKeyBytes(k: AllowanceKey): (bs: ByteString) {
    if AllowanceKeyFits(k) then ALLOWANCE_PREFIX + (WithLength(k.grantee) + (WithLength(k.granter) + [])) else []
  }

  function ParseAllowanceKey(key: ByteString): (k: Option<AllowanceKey>) {
    if key == [] then None
    else
      match TakeAddress(key[1..])
      case None => None
      case Some((grantee, rest)) =>
        match TakeAddress(rest)
        case None => None
        case Some((granter, _)) => Some(AllowanceKey(granter, grantee))
  }

  /** The documented authz key: prefix, then the triple, its text last and up to the end. */
  function GrantKeyBytes(k: GrantKey): (bs: ByteString) {
    if GrantKeyFits(k) then GRANT_PREFIX + (WithLength(k.granter) + (WithLength(k.grantee) + k.msgType)) else []
  }

  function DecodeGrantKey(triple: ByteString): (k: Option<GrantKey>) {
    match TakeAddress(triple)
    case None => None
    case Some((granter, rest)) =>
      match TakeAddress(rest)
      case None => None
      case Some((grantee, msgType)) => Some(GrantKey(granter, grantee, msgType))
  }

  /** The documented formats, byte by byte. */
  lemma KeyLayout(k: GrantKey, a: AllowanceKey)
    requires GrantKeyFits(k) && AllowanceKeyFits(a)
    ensures GrantKeyBytes(k) == [1, |k.granter|] + k.granter + [|k.grantee|] + k.grantee + k.msgType
    ensures AllowanceKeyBytes(a) == [0, |a.grantee|] + a.grantee + [|a.granter|] + a.granter
  {
  }

  /** The documented formats meet the condition. */
  lemma DocumentedFormatAgrees(c: Codecs)
    requires forall bs :: c.decodeGrantKey(bs) == DecodeGrantKey(bs)
    requires forall bs :: c.parseAllowanceKey(bs) == ParseAllowanceKey(bs)
    ensures Agrees(c, KeyFormat(GrantKeyBytes, AllowanceKeyBytes))
  {
    hide TakeAddress;
    forall k | GrantKeyFits(k)
      ensures GRANT_PREFIX <= GrantKeyBytes(k) && DecodeGrantKey(GrantKeyBytes(k)[1..]) == Some(k)
    {
      var tail := WithLength(k.grantee) + k.msgType;
      TakesAddress(k.granter, tail);
      TakesAddress(k.grantee, k.msgType);
      assert GrantKeyBytes(k)[1..] == WithLength(k.granter) + tail;
    }
    forall k | AllowanceKeyFits(k)
      ensures ALLOWANCE_PREFIX <= AllowanceKeyBytes(k) && |AllowanceKeyBytes(k)| >= MIN_ALLOWANCE_KEY
      ensures ParseAllowanceKey(AllowanceKeyBytes(k)) == Some(k)
    {
      var tail := WithLength(k.granter) + [];
      TakesAddress(k.grantee, tail);
      TakesAddress(k.granter, []);
      assert AllowanceKeyBytes(k)[1..] == WithLength(k.grantee) + tail;
    }
  }

  lemma KeysInjective(c: Codecs, f: KeyFormat)
    requires Agrees(c, f)
    ensures InjectiveOn(GrantKeyFits, f.grantKey) && InjectiveOn(AllowanceKeyFits, f.allowanceKey)
  {
    forall j, k | GrantKeyFits(j) && GrantKeyFits(k) && f.grantKey(j) == f.grantKey(k) ensures j == k {
      assert c.decodeGrantKey(f.grantKey(j)[1..]) == Some(j);
    }
    forall j, k | AllowanceKeyFits(j) && AllowanceKeyFits(k) && f.allowanceKey(j) == f.allowanceKey(k) ensures j == k {
      assert c.parseAllowanceKey(f.allowanceKey(j)) == Some(j);
    }
  }

  // ---------------------------------------------------------------- refinement of the chain

  /** The replica holds exactly the chain's grants and allowances. */
  ghost predicate Replicates(c: Codecs, f: KeyFormat, chain: Chain, grants: map<GrantKey, Grant>,
                             allowances: map<AllowanceKey, Allowance>) {
    && Mirrors(chain.authz, grants, GrantKeyFits, f.grantKey, c.decodeGrant)
    && Mirrors(chain.feegrant, allowances, AllowanceKeyFits, f.allowanceKey, c.decodeAllowance)
  }

  /** The replica agrees with the chain wherever the chain's value decodes, and holds
      nothing under a key the chain has not. */
  ghost predicate Follows(c: Codecs, f: KeyFormat, chain: Chain, grants: map<GrantKey, Grant>,
                          allowances: map<AllowanceKey, Allowance>) {
    && Tracks(chain.authz, grants, GrantKeyFits, f.grantKey, c.decodeGrant)
    && Tracks(chain.feegrant, allowances, AllowanceKeyFits, f.allowanceKey, c.decodeAllowance)
  }

  /** Every grant and allowance on the chain decodes. */
  ghost predicate ValuesDecode(c: Codecs, f: KeyFormat, chain: Chain) {
    && Decodable(chain.authz, GrantKeyFits, f.grantKey, c.decodeGrant)
    && Decodable(chain.feegrant, AllowanceKeyFits, f.allowanceKey, c.decodeAllowance)
  }

  /** A change under a key that the chain can write, or to some other record. Its value is
      arbitrary. */
  ghost predicate WellKeyed(f: KeyFormat, pair: StoreKVPair) {
    match pair.store
    case AuthzStore => GRANT_PREFIX <= pair.key ==> exists k :: GrantKeyFits(k) && f.grantKey(k) == pair.key
    case FeeGrantStore =>
      ALLOWANCE_PREFIX <= pair.key ==> exists k :: AllowanceKeyFits(k) && f.allowanceKey(k) == pair.key
    case OtherStore => true
  }

  /** A change whose value, if it writes one, decodes. */
  ghost predicate WritesDecodable(c: Codecs, pair: StoreKVPair) {
    match pair.store
    case AuthzStore => GRANT_PREFIX <= pair.key && !pair.delete ==> c.decodeGrant(pair.value).Some?
    case FeeGrantStore => ALLOWANCE_PREFIX <= pair.key && !pair.delete ==> c.decodeAllowance(pair.value).Some?
    case OtherStore => true
  }

  lemma GrantCorresponds(c: Codecs, f: KeyFormat, pair: StoreKVPair)
    requires Agrees(c, f) && WellKeyed(f, pair)
    ensures Corresponds(RawOp(AuthzStore, pair), GrantOp(c, pair), GrantKeyFits, f.grantKey, c.decodeGrant)
  {
    if pair.store.AuthzStore? && GRANT_PREFIX <= pair.key {
      var k :| GrantKeyFits(k) && f.grantKey(k) == pair.key;
      assert ParseGrantKey(c, pair.key) == k;
    }
  }

  lemma AllowanceCorresponds(c: Codecs, f: KeyFormat, pair: StoreKVPair)
    requires Agrees(c, f) && WellKeyed(f, pair)
    ensures Corresponds(RawOp(FeeGrantStore, pair), AllowanceOp(c, pair),
              AllowanceKeyFits, f.allowanceKey, c.decodeAllowance)
  {
    if pair.store.FeeGrantStore? && ALLOWANCE_PREFIX <= pair.key {
      var k :| AllowanceKeyFits(k) && f.allowanceKey(k) == pair.key;
      assert c.parseAllowanceKey(pair.key) == Some(k);
    }
  }

  /** One commit, whatever its values, keeps the replica following the chain. */
  lemma CommitFollows(c: Codecs, f: KeyFormat, chain: Chain, grants: map<GrantKey, Grant>,
                      allowances: map<AllowanceKey, Allowance>, pairs: seq<StoreKVPair>)
    requires Agrees(c, f) && Follows(c, f, chain, grants, allowances)
    requires forall i :: 0 <= i < |pairs| ==> WellKeyed(f, pairs[i])
    ensures Follows(c, f, Commit(chain, pairs),
              ApplyOps(grants, GrantOps(c, pairs)), ApplyOps(allowances, AllowanceOps(c, pairs)))
  {
    hide Agrees, WellKeyed, Tracks, Corresponds, RawOp, GrantOp, AllowanceOp, InjectiveOn, ApplyOps;
    KeysInjective(c, f);
    forall i | 0 <= i < |pairs|
      ensures Corresponds(RawOps(AuthzStore, pairs)[i], GrantOps(c, pairs)[i], GrantKeyFits, f.grantKey, c.decodeGrant)
      ensures Corresponds(RawOps(FeeGrantStore, pairs)[i], AllowanceOps(c, pairs)[i],
                AllowanceKeyFits, f.allowanceKey, c.decodeAllowance)
    {
      GrantCorresponds(c, f, pairs[i]);
      AllowanceCorresponds(c, f, pairs[i]);
    }
    TrackRun(chain.authz, grants, GrantKeyFits, f.grantKey, c.decodeGrant,
             RawOps(AuthzStore, pairs), GrantOps(c, pairs));
    TrackRun(chain.feegrant, allowances, AllowanceKeyFits, f.allowanceKey, c.decodeAllowance,
             RawOps(FeeGrantStore, pairs), AllowanceOps(c, pairs));
  }

  function CommitAll(chain: Chain, blocks: seq<seq<StoreKVPair>>): (r: Chain)
    decreases |blocks|
  {
    if blocks == [] then chain else CommitAll(Commit(chain, blocks[0]), blocks[1..])
  }

  function IndexGrants(c: Codecs, grants: map<GrantKey, Grant>, blocks: seq<seq<StoreKVPair>>)
    : (r: map<GrantKey, Grant>)
    decreases |blocks|
  {
    if blocks == [] then grants else IndexGrants(c, ApplyOps(grants, GrantOps(c, blocks[0])), blocks[1..])
  }

  function IndexAllowances(c: Codecs, allowances: map<AllowanceKey, Allowance>, blocks: seq<seq<StoreKVPair>>)
    : (r: map<AllowanceKey, Allowance>)
    decreases |blocks|
  {
    if blocks == [] then allowances
    else IndexAllowances(c, ApplyOps(allowances, AllowanceOps(c, blocks[0])), blocks[1..])
  }

  ghost predicate AllWellKeyed(f: KeyFormat, blocks: seq<seq<StoreKVPair>>) {
    forall b, i :: 0 <= b < |blocks| && 0 <= i < |blocks[b]| ==> WellKeyed(f, blocks[b][i])
  }

  ghost predicate AllDecodable(c: Codecs, blocks: seq<seq<StoreKVPair>>) {
    forall b, i :: 0 <= b < |blocks| && 0 <= i < |blocks[b]| ==> WritesDecodable(c, blocks[b][i])
  }

  /** Over any run of commits with arbitrary values the replica follows the chain. */
  lemma {:induction false} ReplicaFollowsChain(c: Codecs, f: KeyFormat, chain: Chain, grants: map<GrantKey, Grant>,
                                              allowances: map<AllowanceKey, Allowance>, blocks: seq<seq<StoreKVPair>>)
    requires Agrees(c, f) && Follows(c, f, chain, grants, allowances) && AllWellKeyed(f, blocks)
    ensures Follows(c, f, CommitAll(chain, blocks),
              IndexGrants(c, grants, blocks), IndexAllowances(c, allowances, blocks))
    decreases |blocks|
  {
    hide Agrees, WellKeyed, Follows, Commit, ApplyOps;
    if blocks != [] {
      CommitFollows(c, f, chain, grants, allowances, blocks[0]);
      var later := blocks[1..];
      assert forall b, i :: 0 <= b < |later| && 0 <= i < |later[b]| ==> later[b][i] == blocks[b + 1][i];
      ReplicaFollowsChain(c, f, Commit(chain, blocks[0]), ApplyOps(grants, GrantOps(c, blocks[0])),
                          ApplyOps(allowances, AllowanceOps(c, blocks[0])), blocks[1..]);
    }
  }

  lemma ReplicatesIff(c: Codecs, f: KeyFormat, chain: Chain, grants: map<GrantKey, Grant>,
                      allowances: map<AllowanceKey, Allowance>)
    ensures Replicates(c, f, chain, grants, allowances) <==>
            Follows(c, f, chain, grants, allowances) && ValuesDecode(c, f, chain)
  {
    hide Mirrors, Tracks, Decodable;
    MirrorsIff(chain.authz, grants, GrantKeyFits, f.grantKey, c.decodeGrant);
    MirrorsIff(chain.feegrant, allowances, AllowanceKeyFits, f.allowanceKey, c.decodeAllowance);
  }

  /** Exactly when the replica equals the chain: after any run of commits, whatever values
      were written on the way, it does if and only if every value still stored decodes. A
      value that does not decode thus sets the replica back until it is overwritten or
      deleted, and no longer. */
  lemma ReplicatesIffDecodable(c: Codecs, f: KeyFormat, chain: Chain, grants: map<GrantKey, Grant>,
                               allowances: map<AllowanceKey, Allowance>, blocks: seq<seq<StoreKVPair>>)
    requires Agrees(c, f) && Follows(c, f, chain, grants, allowances) && AllWellKeyed(f, blocks)
    ensures Replicates(c, f, CommitAll(chain, blocks),
              IndexGrants(c, grants, blocks), IndexAllowances(c, allowances, blocks))
            <==> ValuesDecode(c, f, CommitAll(chain, blocks))
  {
    hide Agrees, Follows, Replicates, ValuesDecode, AllWellKeyed, CommitAll;
    ReplicaFollowsChain(c, f, chain, grants, allowances, blocks);
    ReplicatesIff(c, f, CommitAll(chain, blocks),
                  IndexGrants(c, grants, blocks), IndexAllowances(c, allowances, blocks));
  }

  lemma CommitDecodes(c: Codecs, f: KeyFormat, chain: Chain, pairs: seq<StoreKVPair>)
    requires Agrees(c, f) && ValuesDecode(c, f, chain)
    requires forall i :: 0 <= i < |pairs| ==> WritesDecodable(c, pairs[i])
    ensures ValuesDecode(c, f, Commit(chain, pairs))
  {
    hide Decodable, ApplyOps;
    DecodableRun(chain.authz, GrantKeyFits, f.grantKey, c.decodeGrant, RawOps(AuthzStore, pairs));
    DecodableRun(chain.feegrant, AllowanceKeyFits, f.allowanceKey, c.decodeAllowance, RawOps(FeeGrantStore, pairs));
  }

  lemma {:induction false} RunDecodes(c: Codecs, f: KeyFormat, chain: Chain, blocks: seq<seq<StoreKVPair>>)
    requires Agrees(c, f) && ValuesDecode(c, f, chain) && AllDecodable(c, blocks)
    ensures ValuesDecode(c, f, CommitAll(chain, blocks))
    decreases |blocks|
  {
    hide Agrees, ValuesDecode, WritesDecodable, Commit;
    if blocks != [] {
      CommitDecodes(c, f, chain, blocks[0]);
      var later := blocks[1..];
      assert forall b, i :: 0 <= b < |later| && 0 <= i < |later[b]| ==> later[b][i] == blocks[b + 1][i];
      RunDecodes(c, f, Commit(chain, blocks[0]), blocks[1..]);
    }
  }

  /** Replica refinement: as long as the chain writes values that decode, the replica is the
      decoded form of the chain's stores. */
  lemma ReplicaRefinesChain(c: Codecs, f: KeyFormat, chain: Chain, grants: map<GrantKey, Grant>,
                            allowances: map<AllowanceKey, Allowance>, blocks: seq<seq<StoreKVPair>>)
    requires Agrees(c, f) && Replicates(c, f, chain, grants, allowances)
    requires AllWellKeyed(f, blocks) && AllDecodable(c, blocks)
    ensures Replicates(c, f, CommitAll(chain, blocks),
              IndexGrants(c, grants, blocks), IndexAllowances(c, allowances, blocks))
  {
    hide Agrees, Follows, Replicates, ValuesDecode, AllWellKeyed, AllDecodable, CommitAll;
    ReplicatesIff(c, f, chain, grants, allowances);
    RunDecodes(c, f, chain, blocks);
    ReplicatesIffDecodable(c, f, chain, grants, allowances, blocks);
  }

  // ---------------------------------------------------------------- what is held under a key

  /** All changes of a run of commits, oldest first. */
  function Flatten(blocks: seq<seq<StoreKVPair>>): (pairs: seq<StoreKVPair>) {
    if blocks == [] then [] else blocks[0] + Flatten(blocks[1..])
  }

  lemma {:induction false} IndexedAtOnce(c: Codecs, grants: map<GrantKey, Grant>,
                                        allowances: map<AllowanceKey, Allowance>, blocks: seq<seq<StoreKVPair>>)
    ensures IndexGrants(c, grants, blocks) == ApplyOps(grants, GrantOps(c, Flatten(blocks)))
    ensures IndexAllowances(c, allowances, blocks) == ApplyOps(allowances, AllowanceOps(c, Flatten(blocks)))
    decreases |blocks|
  {
    hide GrantOp, AllowanceOp;
    if blocks != [] {
      var first, rest := blocks[0], Flatten(blocks[1..]);
      IndexedAtOnce(c, ApplyOps(grants, GrantOps(c, first)), ApplyOps(allowances, AllowanceOps(c, first)), blocks[1..]);
      assert GrantOps(c, first + rest) == GrantOps(c, first) + GrantOps(c, rest);
      assert AllowanceOps(c, first + rest) == AllowanceOps(c, first) + AllowanceOps(c, rest);
      ApplyOpsConcat(grants, GrantOps(c, first), GrantOps(c, rest));
      ApplyOpsConcat(allowances, AllowanceOps(c, first), AllowanceOps(c, rest));
    }
  }

  /** What a map holds under a key, given the last operation on it. */
  ghost predicate HeldAsLeft<K, V>(before: map<K, V>, after: map<K, V>, last: Op<K, V>, k: K) {
    match last
    case Put(_, v) => k in after && after[k] == v
    case Delete(_) => k !in after
    case Skip => (k in after <==> k in before) && (k in before ==> after[k] == before[k])
  }

  /** After any run of commits, malformed ones included, the replica holds under each key
      what the last change to it left: the value of the last write that decodes unless a
      delete came after it, and what was there before if there was neither. A write that
      does not decode leaves no trace. */
  lemma HeldUnderKey(c: Codecs, grants: map<GrantKey, Grant>, allowances: map<AllowanceKey, Allowance>,
                     blocks: seq<seq<StoreKVPair>>, k: GrantKey, a: AllowanceKey)
    ensures HeldAsLeft(grants, IndexGrants(c, grants, blocks), LastOp(GrantOps(c, Flatten(blocks)), k), k)
    ensures HeldAsLeft(allowances, IndexAllowances(c, allowances, blocks),
              LastOp(AllowanceOps(c, Flatten(blocks)), a), a)
  {
    hide GrantOp, AllowanceOp, ApplyOps;
    IndexedAtOnce(c, grants, allowances, blocks);
    LastOpDecides(grants, GrantOps(c, Flatten(blocks)), k);
    LastOpDecides(allowances, AllowanceOps(c, Flatten(blocks)), a);
  }

  /** A write of a grant in a commit of its own. */
  function Write(f: KeyFormat, k: GrantKey, value: ByteString): (block: seq<StoreKVPair>) {
    [StoreKVPair(AuthzStore, false, f.grantKey(k), value)]
  }

  lemma WriteIndexed(c: Codecs, f: KeyFormat, grants: map<GrantKey, Grant>, k: GrantKey, value: ByteString)
    requires Agrees(c, f) && GrantKeyFits(k)
    ensures ApplyOps(grants, GrantOps(c, Write(f, k, value))) ==
            match c.decodeGrant(value)
            case None => grants
            case Some(g) => grants[k := g]
  {
    hide ApplyOps;
    var op := GrantOp(c, Write(f, k, value)[0]);
    assert GrantOps(c, Write(f, k, value)) == [op];
    ApplyOne(grants, op);
    assert ParseGrantKey(c, f.grantKey(k)) == k;
  }

  lemma WriteCommitted(f: KeyFormat, chain: Chain, k: GrantKey, value: ByteString)
    ensures Commit(chain, Write(f, k, value)) == chain.(authz := chain.authz[f.grantKey(k) := value])
  {
    var block := Write(f, k, value);
    assert RawOps(AuthzStore, block) == [Put(f.grantKey(k), value)] && RawOps(FeeGrantStore, block) == [Skip];
    ApplyOne(chain.authz, Put(f.grantKey(k), value));
    ApplyOne(chain.feegrant, Skip);
  }

  /** Such a run, for every key and all values: a grant is written, then a value that does
      not decode. The replica still holds the grant and differs from the chain. */
  lemma StaleAfterBadWrite(c: Codecs, f: KeyFormat, k: GrantKey, first: ByteString, bad: ByteString)
    requires Agrees(c, f) && GrantKeyFits(k) && c.decodeGrant(first).Some? && c.decodeGrant(bad) == None
    ensures var end := CommitAll(Chain(map[], map[]), [Write(f, k, first), Write(f, k, bad)]);
            var grants := IndexGrants(c, map[], [Write(f, k, first), Write(f, k, bad)]);
            && end == Chain(map[f.grantKey(k) := bad], map[])
            && grants == map[k := c.decodeGrant(first).value]
            && !Replicates(c, f, end, grants, map[])
  {
    hide Agrees, ApplyOps, Commit, Write, GrantOp;
    var start, g := Chain(map[], map[]), c.decodeGrant(first).value;
    var b1, b2 := Write(f, k, first), Write(f, k, bad);
    WriteIndexed(c, f, map[], k, first);
    WriteIndexed(c, f, map[k := g], k, bad);
    WriteCommitted(f, start, k, first);
    WriteCommitted(f, Commit(start, b1), k, bad);
    assert [b1, b2] == [b1] + [b2] && [b2] == [b2] + [];
    RunFirst(c, start, map[], b1, [b2]);
    RunFirst(c, Commit(start, b1), map[k := g], b2, []);
    var grants := IndexGrants(c, map[], [b1, b2]);
    assert k in grants;
  }

  /** One more grant under the key, and the two are equal again. */
  lemma HealedByWrite(c: Codecs, f: KeyFormat, k: GrantKey, held: Grant, bad: ByteString, last: ByteString)
    requires Agrees(c, f) && GrantKeyFits(k) && c.decodeGrant(last).Some?
    ensures var end := CommitAll(Chain(map[f.grantKey(k) := bad], map[]), [Write(f, k, last)]);
            Replicates(c, f, end, IndexGrants(c, map[k := held], [Write(f, k, last)]), map[])
  {
    hide Agrees, ApplyOps, Commit, Write, GrantOp;
    var start, g := Chain(map[f.grantKey(k) := bad], map[]), c.decodeGrant(last).value;
    var b := Write(f, k, last);
    WriteIndexed(c, f, map[k := held], k, last);
    WriteCommitted(f, start, k, last);
    assert [b] == [b] + [];
    RunFirst(c, start, map[k := held], b, []);
    var end, grants := CommitAll(start, [b]), IndexGrants(c, map[k := held], [b]);
    assert grants == map[k := g];
    assert end == Chain(map[f.grantKey(k) := last], map[]);
    KeysInjective(c, f);
  }

  /** The first commit of a run. */
  lemma RunFirst(c: Codecs, chain: Chain, grants: map<GrantKey, Grant>, b: seq<StoreKVPair>,
                 rest: seq<seq<StoreKVPair>>)
    ensures CommitAll(chain, [b] + rest) == CommitAll(Commit(chain, b), rest)
    ensures IndexGrants(c, grants, [b] + rest) == IndexGrants(c, ApplyOps(grants, GrantOps(c, b)), rest)
  {
    hide ApplyOps, Commit;
    assert ([b] + rest)[1..] == rest;
  }

  /** Both sides start out empty. */
  lemma EmptyReplicates(c: Codecs, f: KeyFormat)
    ensures Replicates(c, f, Chain(map[], map[]), map[], map[])
  {
  }
}
