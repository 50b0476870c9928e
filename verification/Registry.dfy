/** The DKIM key registry: its stores, its messages and what each message does to the
    stores. RSA parsing, canonicalisation, base64 and the Poseidon hash are functions the
    registry is given; only that they are functions matters, unless a lemma says more. */
module Registry {
  import opened Options
  import opened Words
  import opened Messages
  import opened Parameters
  import opened Ordering

  datatype RsaKey = RsaKey(modulus: nat, exponent: int)

  datatype Crypto = Crypto(
    decodeBase64: ByteString -> Option<ByteString>,
    parsePublicKey: ByteString -> Option<RsaKey>,
    parsePrivateKey: ByteString -> Option<RsaKey>,
    canonicalKey: RsaKey -> ByteString,
    poseidonHash: ByteString -> Option<ByteString>)

  datatype DkimError =
    | InvalidSigner
    | InvalidKeyType
    | InvalidVersion
    | InvalidPubKey
    | PubKeyTooLarge
    | KeyTooSmall
    | InvalidatedKey
    | PoseidonFailed
    | ParsingPrivKey
    | InvalidParams
    | KeyEncoding
    | NotFound

  datatype Result<+T> = Ok(value: T) | Err(error: DkimError)

  /** Records are stored under their domain and selector. */
  datatype Key = Key(domain: ByteString, selector: ByteString)

  datatype State = State(
    dkimPubKeys: map<Key, DkimPubKey>,
    revokedKeys: map<ByteString, bool>,
    params: Option<Params>)

  datatype Msg =
    | AddDkimPubKeys(authority: ByteString, dkimPubkeys: seq<DkimPubKey>)
    | RemoveDkimPubKey(authority: ByteString, domain: ByteString, selector: ByteString)
    | RevokeDkimPubKey(signer: ByteString, domain: ByteString, privKey: ByteString)
    | UpdateParams(authority: ByteString, params: Params)

  // ---------------------------------------------------------------- keys in the store

  /** The byte string a record is stored under; the store iterates in its order. */
  function StoreKey(k: Key): (bs: ByteString) {
    k.domain + [0] + k.selector
  }

  /** A domain is encoded up to a delimiter and must not contain it. */
  predicate Encodable(domain: ByteString) {
    0 !in domain
  }

  function KeyOf(record: DkimPubKey): (k: Key) {
    Key(record.domain, record.selector)
  }

  /** How many bytes come before the first delimiter. */
  function DelimiterAt(bs: ByteString): (n: nat) {
    if bs == [] || bs[0] == 0 then 0 else 1 + DelimiterAt(bs[1..])
  }

  lemma {:induction false} DelimiterAfterDomain(d: ByteString, s: ByteString)
    requires Encodable(d)
    ensures DelimiterAt(d + [0] + s) == |d|
  {
    if d != [] {
      assert (d + [0] + s)[1..] == d[1..] + [0] + s;
      DelimiterAfterDomain(d[1..], s);
    }
  }

  lemma SplitAtDelimiter(d: ByteString, s: ByteString, d': ByteString, s': ByteString)
    requires Encodable(d) && Encodable(d')
    requires d + [0] + s == d' + [0] + s'
    ensures d == d' && s == s'
  {
    var x, x' := d + [0] + s, d' + [0] + s';
    DelimiterAfterDomain(d, s);
    DelimiterAfterDomain(d', s');
    assert d == x[..|d|] == x'[..|d|] == d';
    assert s == x[|d| + 1..] == x'[|d| + 1..] == s';
  }

  ghost predicate EncodableKeys(ks: set<Key>) {
    forall k :: k in ks ==> Encodable(k.domain)
  }

  lemma StoreKeysDistinct(ks: set<Key>)
    requires EncodableKeys(ks)
    ensures Distinct(ks, StoreKey)
  {
    forall x, y | x in ks && y in ks && StoreKey(x) == StoreKey(y)
      ensures x == y
    {
      SplitAtDelimiter(x.domain, x.selector, y.domain, y.selector);
    }
  }

  /** The records of one domain: those whose stored key starts with the encoded domain. */
  function InDomain(st: State, domain: ByteString): (ks: set<Key>) {
    set k | k in st.dkimPubKeys && domain + [0] <= StoreKey(k)
  }

  /** With encodable domains a prefix picks out one domain and nothing else. */
  lemma PrefixIsDomain(st: State, domain: ByteString)
    requires EncodableKeys(st.dkimPubKeys.Keys) && Encodable(domain)
    ensures InDomain(st, domain) == set k | k in st.dkimPubKeys && k.domain == domain
  {
    forall k | k in st.dkimPubKeys
      ensures domain + [0] <= StoreKey(k) <==> k.domain == domain
    {
      if domain + [0] <= StoreKey(k) {
        var tail := StoreKey(k)[|domain| + 1..];
        assert StoreKey(k) == domain + [0] + tail;
        SplitAtDelimiter(domain, tail, k.domain, k.selector);
      }
    }
  }

  // ---------------------------------------------------------------- validation

  function DecodeWithLimit(c: Crypto, text: ByteString, limit: Uint64): (r: Result<ByteString>) {
    match c.decodeBase64(text)
    case None => Err(InvalidPubKey)
    case Some(bz) => if |bz| > limit then Err(PubKeyTooLarge) else Ok(bz)
  }

  /** The RSA key a record carries, whatever its size. */
  function KeyIn(c: Crypto, text: ByteString): (k: Option<RsaKey>) {
    match c.decodeBase64(text)
    case None => None
    case Some(bz) => c.parsePublicKey(bz)
  }

  /** The errors that are about a key. */
  predicate IsComplaint(e: DkimError) {
    || e.InvalidKeyType? || e.InvalidVersion? || e.InvalidPubKey?
    || e.PubKeyTooLarge? || e.KeyTooSmall? || e.InvalidatedKey?
  }

  /** One turn of the validation loop; `revoked` is absent on the genesis path, and only
      the message path enforces the 1024-bit floor. */
  function ValidateKey(c: Crypto, key: DkimPubKey, limit: Uint64, revoked: Option<set<ByteString>>,
                       enforceMinKeySize: bool): (err: Option<DkimError>)
    ensures err.Some? ==> IsComplaint(err.value)
  {
    if key.keyType != 0 then Some(InvalidKeyType)
    else if key.version != 0 then Some(InvalidVersion)
    else
      match DecodeWithLimit(c, key.pubKey, limit)
      case Err(e) => Some(e)
      case Ok(bz) =>
        match c.parsePublicKey(bz)
        case None => Some(InvalidPubKey)
        case Some(rsa) =>
          if enforceMinKeySize && BitLength(rsa.modulus) < DEFAULT_MIN_RSA_KEY_BITS then Some(KeyTooSmall)
          else if revoked.Some? && c.canonicalKey(rsa) in revoked.value then Some(InvalidatedKey)
          else None
  }

  /** The first complaint about a batch, if any. */
  function ValidateKeys(c: Crypto, keys: seq<DkimPubKey>, limit: Uint64, revoked: Option<set<ByteString>>,
                        enforceMinKeySize: bool): (err: Option<DkimError>)
    ensures err.Some? ==> IsComplaint(err.value)
  {
    if keys == [] then None
    else
      match ValidateKey(c, keys[0], limit, revoked, enforceMinKeySize)
      case Some(e) => Some(e)
      case None => ValidateKeys(c, keys[1..], limit, revoked, enforceMinKeySize)
  }

  lemma {:induction false} BatchValidIffEach(c: Crypto, keys: seq<DkimPubKey>, limit: Uint64,
                                            revoked: Option<set<ByteString>>, enforceMinKeySize: bool)
    ensures ValidateKeys(c, keys, limit, revoked, enforceMinKeySize) == None <==>
            forall i :: 0 <= i < |keys| ==> ValidateKey(c, keys[i], limit, revoked, enforceMinKeySize) == None
  {
    if keys != [] {
      BatchValidIffEach(c, keys[1..], limit, revoked, enforceMinKeySize);
      assert forall i :: 0 <= i < |keys| - 1 ==> keys[1..][i] == keys[i + 1];
      assert forall i :: 1 <= i < |keys| ==> keys[i] == keys[1..][i - 1];
    }
  }

  // ---------------------------------------------------------------- messages

  function GetParams(st: State): (p: Params) {
    match st.params
    case None => DefaultParams()
    case Some(p) => p
  }

  function SetParams(st: State, p: Params): (r: Result<State>)
    ensures r.Ok? ==> r.value.params.Some? && ValidParams(r.value.params.value)
  {
    var p' := WithDefaultSize(p);
    if ValidParams(p') then Ok(st.(params := Some(p'))) else Err(InvalidParams)
  }

  /** The records with their hashes filled in, unless one cannot be hashed. */
  function WithHashes(c: Crypto, keys: seq<DkimPubKey>): (r: Result<seq<DkimPubKey>>)
    ensures r.Ok? ==> |r.value| == |keys|
    ensures r.Err? ==> r.error == PoseidonFailed
  {
    if keys == [] then Ok([])
    else
      match c.poseidonHash(keys[0].pubKey)
      case None => Err(PoseidonFailed)
      case Some(h) =>
        match WithHashes(c, keys[1..])
        case Err(e) => Err(e)
        case Ok(rest) => Ok([keys[0].(poseidonHash := h)] + rest)
  }

  /** Stores records one after another; a domain with a delimiter in it is refused. */
  function SaveAll(m: map<Key, DkimPubKey>, keys: seq<DkimPubKey>): (r: Result<map<Key, DkimPubKey>>)
    ensures r.Err? ==> r.error == KeyEncoding
    ensures r.Ok? ==> r.value == SavedPart(m, keys)
    decreases |keys|
  {
    if keys == [] then Ok(m)
    else if !Encodable(keys[0].domain) then Err(KeyEncoding)
    else SaveAll(m[KeyOf(keys[0]) := keys[0]], keys[1..])
  }

  /** What is in the store when the loop ends or gives up: the records before the first
      one that is refused. */
  function SavedPart(m: map<Key, DkimPubKey>, keys: seq<DkimPubKey>): (r: map<Key, DkimPubKey>)
    decreases |keys|
  {
    if keys == [] || !Encodable(keys[0].domain) then m
    else SavedPart(m[KeyOf(keys[0]) := keys[0]], keys[1..])
  }

  function HandleAdd(c: Crypto, authority: ByteString, st: State, msg: Msg): (r: Result<State>)
    requires msg.AddDkimPubKeys?
  {
    if authority != msg.authority then Err(InvalidSigner)
    else
      var limit := GetParams(st).maxPubkeySizeBytes;
      match ValidateKeys(c, msg.dkimPubkeys, limit, Some(st.revokedKeys.Keys), true)
      case Some(e) => Err(e)
      case None =>
        match WithHashes(c, msg.dkimPubkeys)
        case Err(e) => Err(e)
        case Ok(keys) =>
          match SaveAll(st.dkimPubKeys, keys)
          case Err(e) => Err(e)
          case Ok(m) => Ok(st.(dkimPubKeys := m))
  }

  function HandleRemove(authority: ByteString, st: State, msg: Msg): (r: Result<State>)
    requires msg.RemoveDkimPubKey?
  {
    if authority != msg.authority then Err(InvalidSigner)
    else if !Encodable(msg.domain) then Err(KeyEncoding)
    else Ok(st.(dkimPubKeys := st.dkimPubKeys - {Key(msg.domain, msg.selector)}))
  }

  /** The first record of the range that no longer decodes and parses, if any. */
  function FirstUnreadable(c: Crypto, st: State, ks: seq<Key>, limit: Uint64): (err: Option<DkimError>)
    requires forall k :: k in ks ==> k in st.dkimPubKeys
    ensures err.Some? ==> IsComplaint(err.value)
  {
    if ks == [] then None
    else
      match DecodeWithLimit(c, st.dkimPubKeys[ks[0]].pubKey, limit)
      case Err(e) => Some(e)
      case Ok(bz) =>
        if c.parsePublicKey(bz).None? then Some(InvalidPubKey)
        else FirstUnreadable(c, st, ks[1..], limit)
  }

  /** How many records come before the first that no longer decodes and parses. */
  function ReadableRun(c: Crypto, st: State, ks: seq<Key>, limit: Uint64): (n: nat)
    requires forall k :: k in ks ==> k in st.dkimPubKeys
    ensures n <= |ks| && (n == |ks| <==> FirstUnreadable(c, st, ks, limit) == None)
  {
    if ks == [] then 0
    else
      match DecodeWithLimit(c, st.dkimPubKeys[ks[0]].pubKey, limit)
      case Err(_) => 0
      case Ok(bz) => if c.parsePublicKey(bz).None? then 0 else 1 + ReadableRun(c, st, ks[1..], limit)
  }

  /** One record of a range: both what is reported and how far one gets depend on it
      first. */
  lemma ReadsFirst(c: Crypto, st: State, ks: seq<Key>, limit: Uint64)
    requires ks != [] && forall k :: k in ks ==> k in st.dkimPubKeys
    ensures match DecodeWithLimit(c, st.dkimPubKeys[ks[0]].pubKey, limit)
            case Err(e) => FirstUnreadable(c, st, ks, limit) == Some(e) && ReadableRun(c, st, ks, limit) == 0
            case Ok(bz) =>
              if c.parsePublicKey(bz).None? then
                FirstUnreadable(c, st, ks, limit) == Some(InvalidPubKey) && ReadableRun(c, st, ks, limit) == 0
              else
                && FirstUnreadable(c, st, ks, limit) == FirstUnreadable(c, st, ks[1..], limit)
                && ReadableRun(c, st, ks, limit) == 1 + ReadableRun(c, st, ks[1..], limit)
  {
  }

  /** The records of a domain that carry the key `rsa`. */
  function Holders(c: Crypto, st: State, domain: ByteString, rsa: RsaKey): (ks: set<Key>) {
    set k | k in st.dkimPubKeys && k.domain == domain && KeyIn(c, st.dkimPubKeys[k].pubKey) == Some(rsa)
  }

  /** Revocation as a whole: every holder in the domain goes, and the canonical form of
      the key is marked if there was one. */
  function Revoked(c: Crypto, st: State, domain: ByteString, rsa: RsaKey): (r: State) {
    var gone := Holders(c, st, domain, rsa);
    State(st.dkimPubKeys - gone,
          if gone == {} then st.revokedKeys else st.revokedKeys[c.canonicalKey(rsa) := true],
          st.params)
  }

  function HandleRevoke(c: Crypto, st: State, msg: Msg): (r: Result<State>)
    requires msg.RevokeDkimPubKey? && EncodableKeys(st.dkimPubKeys.Keys)
  {
    match c.parsePrivateKey(msg.privKey)
    case None => Err(ParsingPrivKey)
    case Some(rsa) =>
      if !Encodable(msg.domain) then Err(KeyEncoding)
      else
        var range := InDomain(st, msg.domain);
        StoreKeysDistinct(range);
        match FirstUnreadable(c, st, Sorted(range, StoreKey), GetParams(st).maxPubkeySizeBytes)
        case Some(e) => Err(e)
        case None => Ok(Revoked(c, st, msg.domain, rsa))
  }

  function HandleUpdateParams(authority: ByteString, st: State, msg: Msg): (r: Result<State>)
    requires msg.UpdateParams?
  {
    if authority != msg.authority then Err(InvalidSigner)
    else if !ValidParams(WithDefaultSize(msg.params)) then Err(InvalidParams)
    else SetParams(st, WithDefaultSize(msg.params))
  }

  function Handle(c: Crypto, authority: ByteString, st: State, msg: Msg): (r: Result<State>)
    requires EncodableKeys(st.dkimPubKeys.Keys)
  {
    match msg
    case AddDkimPubKeys(_, _) => HandleAdd(c, authority, st, msg)
    case RemoveDkimPubKey(_, _, _) => HandleRemove(authority, st, msg)
    case RevokeDkimPubKey(_, _, _) => HandleRevoke(c, st, msg)
    case UpdateParams(_, _) => HandleUpdateParams(authority, st, msg)
  }

  lemma {:induction false} SaveAllEncodable(m: map<Key, DkimPubKey>, keys: seq<DkimPubKey>)
    requires EncodableKeys(m.Keys) && SaveAll(m, keys).Ok?
    ensures EncodableKeys(SaveAll(m, keys).value.Keys)
    decreases |keys|
  {
    if keys != [] {
      SaveAllEncodable(m[KeyOf(keys[0]) := keys[0]], keys[1..]);
    }
  }

  lemma HandleEncodable(c: Crypto, authority: ByteString, st: State, msg: Msg)
    requires EncodableKeys(st.dkimPubKeys.Keys) && Handle(c, authority, st, msg).Ok?
    ensures EncodableKeys(Handle(c, authority, st, msg).value.dkimPubKeys.Keys)
  {
    if msg.AddDkimPubKeys? {
      SaveAllEncodable(st.dkimPubKeys, WithHashes(c, msg.dkimPubkeys).value);
    }
  }

  /** A transaction whose message fails is rolled back as a whole. */
  function Deliver(c: Crypto, authority: ByteString, st: State, msg: Msg): (r: State)
    requires EncodableKeys(st.dkimPubKeys.Keys)
    ensures EncodableKeys(r.dkimPubKeys.Keys)
  {
    match Handle(c, authority, st, msg)
    case Err(_) => st
    case Ok(st') =>
      HandleEncodable(c, authority, st, msg);
      st'
  }

  /** The state after a run of messages, oldest first. */
  function Run(c: Crypto, authority: ByteString, st: State, msgs: seq<Msg>): (r: State)
    requires EncodableKeys(st.dkimPubKeys.Keys)
    ensures EncodableKeys(r.dkimPubKeys.Keys)
    decreases |msgs|
  {
    if msgs == [] then st
    else Run(c, authority, Deliver(c, authority, st, msgs[0]), msgs[1..])
  }
}
