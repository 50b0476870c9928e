/** The Authenticate query: which requests it accepts, and what acceptance means. */
module Authenticate {
  import opened Options
  import opened Words
  import opened Messages
  import opened Parameters
  import opened Ordering
  import opened Registry
  import opened RegistryLaws
  import opened Genesis
  import opened DkimQuery
  import opened PageWalk
  import opened FieldText

  datatype AuthRequest = AuthRequest(
    txBytes: ByteString,
    emailHash: ByteString,
    proof: ByteString,
    publicInputs: seq<ByteString>,
    allowedEmailHosts: seq<ByteString>)

  /** Decimal parsing, the subject policy and the proof verifier. */
  datatype Outside = Outside(
    parseInt: ByteString -> Option<int>,
    subjectAllowed: ByteString -> bool,
    verify: (ByteString, Uint64, seq<ByteString>) -> Option<bool>)

  datatype AuthError =
    | NoParams
    | ProofTooLarge
    | NotEnoughPublicInputs
    | EmailHashMismatch
    | InvalidPublicInput
    | TxBytesMismatch
    | QueryFailed(error: DkimError)
    | NoDkimPubKey
    | EmailHostMismatch
    | InvalidEmailSubject
    | VerificationFailed

  datatype AuthResult = Verified(verified: bool) | Rejected(error: AuthError)

  // ---------------------------------------------------------------- pieces

  function Abs(x: int): (n: nat) {
    if x < 0 then -x else x
  }

  function ParseAll(o: Outside, inputs: seq<ByteString>): (r: Option<seq<int>>)
    ensures r.Some? ==> |r.value| == |inputs|
  {
    if inputs == [] then Some([])
    else
      match o.parseInt(inputs[0])
      case None => None
      case Some(x) =>
        match ParseAll(o, inputs[1..])
        case None => None
        case Some(xs) => Some([x] + xs)
  }

  /** The text in a range of public inputs, if all of them are numbers. */
  function InputText(o: Outside, inputs: seq<ByteString>, range: IndexRange): (r: Option<ByteString>)
    requires range.start <= range.end <= |inputs|
  {
    match ParseAll(o, inputs[range.start..range.end])
    case None => None
    case Some(xs) => Some(TextOf(xs))
  }

  /** The bytes a DKIM hash is looked up by; zero has none. */
  function HashBytes(h: int): (bs: ByteString)
    ensures bs == [] <==> h == 0
  {
    BigEndian(Abs(h))
  }

  function KeyRequest(domain: ByteString, h: int): (r: Request) {
    Request(domain, [], HashBytes(h), None)
  }

  /** IsSubset: a set built from one list, membership of the other checked in a loop. */
  method IsSubset<T(==)>(a: seq<T>, b: seq<T>) returns (subset: bool)
    ensures subset <==> forall x :: x in a ==> x in b
  {
    var members: set<T> := {};
    for i := 0 to |b|
      invariant forall x :: x in members <==> x in b[..i]
    {
      members := members + {b[i]};
      assert b[..i + 1] == b[..i] + [b[i]];
    }
    assert b[..|b|] == b;
    for i := 0 to |a|
      invariant forall x :: x in a[..i] ==> x in b
    {
      if a[i] !in members {
        assert a[i] in a;
        return false;
      }
      assert a[..i + 1] == a[..i] + [a[i]];
    }
    assert a[..|a|] == a;
    subset := true;
  }

  method ParseInputs(o: Outside, inputs: seq<ByteString>) returns (r: Option<seq<int>>)
    ensures r == ParseAll(o, inputs)
  {
    var xs: seq<int> := [];
    for i := 0 to |inputs|
      invariant match (ParseAll(o, inputs), ParseAll(o, inputs[i..]))
                case (Some(all), Some(rest)) => all == xs + rest
                case (None, None) => true
                case _ => false
    {
      assert inputs[i..][1..] == inputs[i + 1..];
      var x := o.parseInt(inputs[i]);
      if x == None {
        return None;
      }
      xs := xs + [x.value];
    }
    assert inputs[|inputs|..] == [] && xs + [] == xs;
    r := Some(xs);
  }

  method TextInRange(o: Outside, inputs: seq<ByteString>, range: IndexRange) returns (r: Option<ByteString>)
    requires range.start <= range.end <= |inputs|
    ensures r == InputText(o, inputs, range)
  {
    var xs := ParseInputs(o, inputs[range.start..range.end]);
    if xs == None {
      return None;
    }
    var text := TextFromElements(xs.value);
    r := Some(text);
  }

  // ---------------------------------------------------------------- acceptance

  /** Parameters that were stored went through validation. */
  ghost predicate ParamsStored(st: State) {
    EncodableKeys(st.dkimPubKeys.Keys) && (st.params.Some? ==> ValidParams(st.params.value))
  }

  /** Enough inputs for every index the parameters name. */
  ghost predicate Indexed(st: State, req: AuthRequest) {
    st.params.Some? && st.params.value.publicInputIndices.minLength <= |req.publicInputs|
  }

  /** The claims a request makes and how each was checked, as one condition. */
  ghost predicate Accepted(st: State, o: Outside, req: AuthRequest, verified: bool) {
    && ParamsStored(st)
    && |req.proof| <= MAX_DKIM_PROOF_SIZE_BYTES
    && Indexed(st, req)
    && var p := st.params.value;
    && var ix := p.publicInputIndices;
    && req.emailHash == req.publicInputs[ix.emailHashIndex]
    && InputText(o, req.publicInputs, ix.txBytesRange) == Some(req.txBytes)
    && InputText(o, req.publicInputs, ix.dkimDomainRange).Some?
    && o.parseInt(req.publicInputs[ix.dkimHashIndex]).Some?
    && KeyFound(st, InputText(o, req.publicInputs, ix.dkimDomainRange).value,
                o.parseInt(req.publicInputs[ix.dkimHashIndex]).value)
    && InputText(o, req.publicInputs, ix.emailHostRange).Some?
    && InputText(o, req.publicInputs, ix.emailHostRange).value != []
    && InputText(o, req.publicInputs, ix.emailHostRange).value in req.allowedEmailHosts
    && InputText(o, req.publicInputs, ix.emailSubjectRange).Some?
    && o.subjectAllowed(InputText(o, req.publicInputs, ix.emailSubjectRange).value)
    && o.verify(req.proof, p.vkeyIdentifier, req.publicInputs) == Some(verified)
  }

  /** The key lookup answers with at least one record. */
  ghost predicate KeyFound(st: State, domain: ByteString, h: int)
    requires EncodableKeys(st.dkimPubKeys.Keys)
  {
    Answer(st, KeyRequest(domain, h)).Ok? && Answer(st, KeyRequest(domain, h)).value.dkimPubKeys != []
  }

  /** What each rejection says about the request. */
  ghost predicate Justified(st: State, o: Outside, req: AuthRequest, e: AuthError)
    requires ParamsStored(st)
  {
    if e.NoParams? then st.params == None
    else if e.ProofTooLarge? then |req.proof| > MAX_DKIM_PROOF_SIZE_BYTES
    else if e.NotEnoughPublicInputs? then st.params.Some? && !Indexed(st, req)
    else
      && Indexed(st, req)
      && var p := st.params.value;
      && var ix := p.publicInputIndices;
      && var inputs := req.publicInputs;
      && var domain := InputText(o, inputs, ix.dkimDomainRange);
      && var hash := o.parseInt(inputs[ix.dkimHashIndex]);
      && var host := InputText(o, inputs, ix.emailHostRange);
      && var subject := InputText(o, inputs, ix.emailSubjectRange);
      && match e
         case EmailHashMismatch => req.emailHash != inputs[ix.emailHashIndex]
         case InvalidPublicInput =>
           || InputText(o, inputs, ix.txBytesRange) == None || domain == None || hash == None
           || host == None || subject == None
         case TxBytesMismatch => InputText(o, inputs, ix.txBytesRange) != Some(req.txBytes)
         case QueryFailed(q) => domain.Some? && hash.Some? && Answer(st, KeyRequest(domain.value, hash.value)) == Err(q)
         case NoDkimPubKey => domain.Some? && hash.Some? && NoMatch(st, domain.value, hash.value)
         case EmailHostMismatch => host.Some? && (host.value == [] || host.value !in req.allowedEmailHosts)
         case InvalidEmailSubject => subject.Some? && !o.subjectAllowed(subject.value)
         case _ => o.verify(req.proof, p.vkeyIdentifier, inputs) == None
  }

  const CHECKS := 15

  /** The checks in the order in which they are made. */
  ghost predicate Holds(st: State, o: Outside, req: AuthRequest, i: nat)
    requires ParamsStored(st)
  {
    match i
    case 0 => st.params.Some?
    case 1 => |req.proof| <= MAX_DKIM_PROOF_SIZE_BYTES
    case 2 => Indexed(st, req)
    case _ => Indexed(st, req) && InputHolds(st, o, req, i)
  }

  ghost predicate InputHolds(st: State, o: Outside, req: AuthRequest, i: nat)
    requires ParamsStored(st) && Indexed(st, req)
  {
    var p := st.params.value;
    var ix, inputs := p.publicInputIndices, req.publicInputs;
    var tx, domain := InputText(o, inputs, ix.txBytesRange), InputText(o, inputs, ix.dkimDomainRange);
    var hash := o.parseInt(inputs[ix.dkimHashIndex]);
    var host, subject := InputText(o, inputs, ix.emailHostRange), InputText(o, inputs, ix.emailSubjectRange);
    match i
    case 3 => req.emailHash == inputs[ix.emailHashIndex]
    case 4 => tx.Some?
    case 5 => tx == Some(req.txBytes)
    case 6 => domain.Some?
    case 7 => hash.Some?
    case 8 => domain.Some? && hash.Some? && Answer(st, KeyRequest(domain.value, hash.value)).Ok?
    case 9 => domain.Some? && hash.Some? && KeyFound(st, domain.value, hash.value)
    case 10 => host.Some?
    case 11 => host.Some? && host.value != [] && host.value in req.allowedEmailHosts
    case 12 => subject.Some?
    case 13 => subject.Some? && o.subjectAllowed(subject.value)
    case _ => o.verify(req.proof, p.vkeyIdentifier, inputs).Some?
  }

  /** The error that goes with each check. */
  predicate Reports(i: nat, e: AuthError) {
    match i
    case 0 => e.NoParams?
    case 1 => e.ProofTooLarge?
    case 2 => e.NotEnoughPublicInputs?
    case 3 => e.EmailHashMismatch?
    case 5 => e.TxBytesMismatch?
    case 8 => e.QueryFailed?
    case 9 => e.NoDkimPubKey?
    case 11 => e.EmailHostMismatch?
    case 13 => e.InvalidEmailSubject?
    case 14 => e.VerificationFailed?
    case _ => e.InvalidPublicInput?
  }

  ghost predicate Passed(st: State, o: Outside, req: AuthRequest, n: nat)
    requires ParamsStored(st)
  {
    n == 0 || (Passed(st, o, req, n - 1) && Holds(st, o, req, n - 1))
  }

  /** The first check that fails. */
  ghost predicate FailsAt(st: State, o: Outside, req: AuthRequest, i: nat)
    requires ParamsStored(st)
  {
    Passed(st, o, req, i) && !Holds(st, o, req, i)
  }

  /** A request is accepted with some verdict exactly if it passes all checks. */
  lemma AcceptedIffAllHold(st: State, o: Outside, req: AuthRequest)
    requires ParamsStored(st)
    ensures (exists verified :: Accepted(st, o, req, verified)) <==> Passed(st, o, req, CHECKS)
  {
    hide InputText, Answer, ParamsStored, Passed;
    PassedUnfolds(st, o, req);
    if Passed(st, o, req, CHECKS) {
      var p := st.params.value;
      assert Accepted(st, o, req, o.verify(req.proof, p.vkeyIdentifier, req.publicInputs).value);
    }
  }

  lemma PassedUnfolds(st: State, o: Outside, req: AuthRequest)
    requires ParamsStored(st)
    ensures Passed(st, o, req, CHECKS) <==>
            && Holds(st, o, req, 0) && Holds(st, o, req, 1) && Holds(st, o, req, 2) && Holds(st, o, req, 3)
            && Holds(st, o, req, 4) && Holds(st, o, req, 5) && Holds(st, o, req, 6) && Holds(st, o, req, 7)
            && Holds(st, o, req, 8) && Holds(st, o, req, 9) && Holds(st, o, req, 10) && Holds(st, o, req, 11)
            && Holds(st, o, req, 12) && Holds(st, o, req, 13) && Holds(st, o, req, 14)
  {
    hide Holds;
    PassedIff(st, o, req, CHECKS);
  }

  lemma {:induction false} PassedIff(st: State, o: Outside, req: AuthRequest, n: nat)
    requires ParamsStored(st)
    ensures Passed(st, o, req, n) <==> forall j :: 0 <= j < n ==> Holds(st, o, req, j)
  {
    hide Holds;
    if n > 0 {
      PassedIff(st, o, req, n - 1);
    }
  }

  lemma Pass(st: State, o: Outside, req: AuthRequest, i: nat)
    requires ParamsStored(st) && Passed(st, o, req, i) && Holds(st, o, req, i)
    ensures Passed(st, o, req, i + 1)
  {
  }

  lemma PassNone(st: State, o: Outside, req: AuthRequest)
    requires ParamsStored(st)
    ensures Passed(st, o, req, 0)
  {
  }

  /** No stored record passes the filter for this domain and hash. */
  ghost predicate NoMatch(st: State, domain: ByteString, h: int) {
    forall k :: k in st.dkimPubKeys && (domain == [] || k.domain == domain) ==>
      h != 0 && st.dkimPubKeys[k].poseidonHash != HashBytes(h)
  }

  /** An empty answer means that nothing matches. */
  lemma EmptyAnswerMeansNoMatch(st: State, domain: ByteString, h: int)
    requires EncodableKeys(st.dkimPubKeys.Keys)
    requires Answer(st, KeyRequest(domain, h)).Ok? && Answer(st, KeyRequest(domain, h)).value.dkimPubKeys == []
    ensures NoMatch(st, domain, h)
  {
    hide Filter, Entries, Matches, BigEndian;
    var req := KeyRequest(domain, h);
    var ms := AllMatching(st, req);
    assert Answer(st, req).value.dkimPubKeys == Values(st.dkimPubKeys, Clip(ms, 0, MAX_PAGE));
    AllMatchingExact(st, req);
  }

  /** Authenticate. No index or slice is out of range for any request, it succeeds exactly
      if every check holds, and a rejection gives a true reason: that of the first check
      that fails. */
  method Check(st: State, o: Outside, req: AuthRequest) returns (r: AuthResult)
    requires ParamsStored(st)
    ensures r.Verified? ==> Accepted(st, o, req, r.verified)
    ensures r.Rejected? ==> forall b :: !Accepted(st, o, req, b)
    ensures r.Rejected? ==> Justified(st, o, req, r.error)
    ensures r.Rejected? ==> exists i :: 0 <= i < CHECKS && FailsAt(st, o, req, i) && Reports(i, r.error)
  {
    hide Answer, InputText, NoMatch, Passed;
    PassNone(st, o, req);
    if st.params == None {
      assert FailsAt(st, o, req, 0);
      return Rejected(NoParams);
    }
    Pass(st, o, req, 0);
    var p := st.params.value;
    var ix := p.publicInputIndices;
    if |req.proof| > MAX_DKIM_PROOF_SIZE_BYTES {
      assert FailsAt(st, o, req, 1);
      return Rejected(ProofTooLarge);
    }
    Pass(st, o, req, 1);
    if |req.publicInputs| < ix.minLength {
      assert FailsAt(st, o, req, 2);
      return Rejected(NotEnoughPublicInputs);
    }
    Pass(st, o, req, 2);
    if req.emailHash != req.publicInputs[ix.emailHashIndex] {
      assert FailsAt(st, o, req, 3);
      return Rejected(EmailHashMismatch);
    }
    Pass(st, o, req, 3);
    var tx := TextInRange(o, req.publicInputs, ix.txBytesRange);
    if tx == None {
      assert FailsAt(st, o, req, 4);
      return Rejected(InvalidPublicInput);
    }
    Pass(st, o, req, 4);
    if req.txBytes != tx.value {
      assert FailsAt(st, o, req, 5);
      return Rejected(TxBytesMismatch);
    }
    Pass(st, o, req, 5);
    var domain := TextInRange(o, req.publicInputs, ix.dkimDomainRange);
    if domain == None {
      assert FailsAt(st, o, req, 6);
      return Rejected(InvalidPublicInput);
    }
    Pass(st, o, req, 6);
    var hash := o.parseInt(req.publicInputs[ix.dkimHashIndex]);
    if hash == None {
      assert FailsAt(st, o, req, 7);
      return Rejected(InvalidPublicInput);
    }
    Pass(st, o, req, 7);
    var found := DkimPubKeys(st, KeyRequest(domain.value, hash.value));
    if found.Err? {
      assert FailsAt(st, o, req, 8);
      return Rejected(QueryFailed(found.error));
    }
    Pass(st, o, req, 8);
    if |found.value.dkimPubKeys| == 0 {
      EmptyAnswerMeansNoMatch(st, domain.value, hash.value);
      assert FailsAt(st, o, req, 9);
      return Rejected(NoDkimPubKey);
    }
    Pass(st, o, req, 9);
    var host := TextInRange(o, req.publicInputs, ix.emailHostRange);
    if host == None {
      assert FailsAt(st, o, req, 10);
      return Rejected(InvalidPublicInput);
    }
    Pass(st, o, req, 10);
    if host.value == [] {
      assert FailsAt(st, o, req, 11);
      return Rejected(EmailHostMismatch);
    }
    if |req.allowedEmailHosts| == 0 {
      assert FailsAt(st, o, req, 11);
      return Rejected(EmailHostMismatch);
    }
    var allowed := IsSubset([host.value], req.allowedEmailHosts);
    assert host.value in [host.value];
    if !allowed {
      assert FailsAt(st, o, req, 11);
      return Rejected(EmailHostMismatch);
    }
    Pass(st, o, req, 11);
    var subject := TextInRange(o, req.publicInputs, ix.emailSubjectRange);
    if subject == None {
      assert FailsAt(st, o, req, 12);
      return Rejected(InvalidPublicInput);
    }
    Pass(st, o, req, 12);
    if !o.subjectAllowed(subject.value) {
      assert FailsAt(st, o, req, 13);
      return Rejected(InvalidEmailSubject);
    }
    Pass(st, o, req, 13);
    var verified := o.verify(req.proof, p.vkeyIdentifier, req.publicInputs);
    if verified == None {
      assert FailsAt(st, o, req, 14);
      return Rejected(VerificationFailed);
    }
    r := Verified(verified.value);
  }

  // ---------------------------------------------------------------- what acceptance vouches for

  /** A stored record has this domain and this hash. */
  ghost predicate Vouched(st: State, domain: ByteString, hash: ByteString) {
    exists k :: k in st.dkimPubKeys && k.domain == domain && st.dkimPubKeys[k].poseidonHash == hash
  }

  lemma FoundMatches(st: State, domain: ByteString, h: int)
    requires EncodableKeys(st.dkimPubKeys.Keys) && KeyFound(st, domain, h)
    ensures Encodable(domain)
    ensures exists k ::
              && k in st.dkimPubKeys && (domain == [] || k.domain == domain)
              && (h == 0 || st.dkimPubKeys[k].poseidonHash == HashBytes(h))
  {
    hide Filter, Entries, Matches, BigEndian;
    var req := KeyRequest(domain, h);
    var ms := AllMatching(st, req);
    assert Answer(st, req).Ok? && Answer(st, req).value.dkimPubKeys == Values(st.dkimPubKeys, Clip(ms, 0, MAX_PAGE));
    AllMatchingExact(st, req);
    assert ms != [];
    assert ms[0] in ms;
  }

  /** When the lookup answers with a record, whatever is stored: one matches, and if there
      are more than a page of them the first behind the page has a page key. */
  lemma KeyFoundIff(st: State, domain: ByteString, h: int)
    requires EncodableKeys(st.dkimPubKeys.Keys)
    ensures KeyFound(st, domain, h) <==>
            && Encodable(domain)
            && var ms := AllMatching(st, KeyRequest(domain, h));
            && ms != [] && (|ms| <= MAX_PAGE || PageKey(ms[MAX_PAGE]).Some?)
  {
    hide Filter, Entries, Matches, BigEndian, PageKey;
    var req := KeyRequest(domain, h);
    var ms := AllMatching(st, req);
    if Encodable(domain) {
      assert PageOf(st, req, ms) == Answer(st, req);
      assert |Clip(ms, 0, MAX_PAGE)| == Min(MAX_PAGE, |ms|);
    }
  }

  /** A hash is looked up by the digits of its absolute value in base 256, most significant
      first and without a zero in front. */
  lemma HashBytesValue(h: int)
    ensures PlaceValue(HashBytes(h)) == if h < 0 then -h else h
    ensures h != 0 ==> HashBytes(h) != [] && HashBytes(h)[0] != 0
  {
    hide PlaceValue, BigEndian;
    BigEndianValue(Abs(h));
  }

  /** A proof of more than 4096 bytes is refused before anything is looked at. */
  lemma LongProofRefused(st: State, o: Outside, req: AuthRequest)
    requires ParamsStored(st) && st.params.Some? && |req.proof| > 4096
    ensures FailsAt(st, o, req, 1) && !exists verified :: Accepted(st, o, req, verified)
  {
    hide InputText, Answer;
    PassNone(st, o, req);
    Pass(st, o, req, 0);
  }

  /** Two hashes are looked up by the same bytes only if they are the same up to sign. */
  lemma HashBytesInjective(h: int, h': int)
    requires HashBytes(h) == HashBytes(h')
    ensures Abs(h) == Abs(h')
  {
    BigEndianInjective(Abs(h), Abs(h'));
  }

  /** Soundness: an accepted request with a domain and a non-zero hash is backed by a
      stored record with that domain and hash, and names an allowed, non-empty host. */
  lemma AcceptedIsVouched(st: State, o: Outside, req: AuthRequest, verified: bool)
    ensures Accepted(st, o, req, verified) ==>
            var ix := st.params.value.publicInputIndices;
            var domain := InputText(o, req.publicInputs, ix.dkimDomainRange).value;
            var h := o.parseInt(req.publicInputs[ix.dkimHashIndex]).value;
            var host := InputText(o, req.publicInputs, ix.emailHostRange).value;
            && (domain != [] && h != 0 ==> Vouched(st, domain, HashBytes(h)))
            && host != [] && host in req.allowedEmailHosts
  {
    hide Answer, InputText, HashBytes;
    if Accepted(st, o, req, verified) {
      var ix := st.params.value.publicInputIndices;
      var domain := InputText(o, req.publicInputs, ix.dkimDomainRange).value;
      var h := o.parseInt(req.publicInputs[ix.dkimHashIndex]).value;
      FoundMatches(st, domain, h);
    }
  }

  /** The domain and the hash that a request names. */
  ghost predicate Names(st: State, o: Outside, req: AuthRequest, domain: ByteString, h: int) {
    && ParamsStored(st) && Indexed(st, req)
    && var ix := st.params.value.publicInputIndices;
    && InputText(o, req.publicInputs, ix.dkimDomainRange) == Some(domain)
    && o.parseInt(req.publicInputs[ix.dkimHashIndex]) == Some(h)
  }

  /** What it takes to put a request together: decimals that the parser reads back, a text
      that can serve as transaction, host and subject, a proof and a verification key for
      `count` inputs, and a public key to register. */
  datatype Setting = Setting(
    show: int -> ByteString,
    text: ByteString,
    proof: ByteString,
    vkey: Uint64,
    count: nat,
    key: ByteString)

  function Shown(show: int -> ByteString, xs: seq<int>): (inputs: seq<ByteString>)
    ensures |inputs| == |xs| && forall i :: 0 <= i < |xs| ==> inputs[i] == show(xs[i])
  {
    seq(|xs|, i requires 0 <= i < |xs| => show(xs[i]))
  }

  /** How many elements hold a text. */
  function Fields(text: ByteString): (n: nat)
    ensures n > 0 && |text| <= CHUNK * n
  {
    |text| / CHUNK + 1
  }

  /** All numbers are elements of the field, or the hash asked for. */
  ghost predicate InField(xs: seq<int>, h: int) {
    forall i :: 0 <= i < |xs| ==> xs[i] == h || 0 <= xs[i] < FIELD_ORDER
  }

  /** Parser, policy, verifier and hash function do their part in this setting: the parser
      inverts the decimals, the policy takes the text, the verifier answers, yes or no, on
      any `count` field elements, and the key hashes to the hash asked for, if one is. */
  ghost predicate Workable(c: Crypto, o: Outside, w: Setting, domain: ByteString, h: int) {
    && (forall n :: o.parseInt(w.show(n)) == Some(n))
    && w.text != [] && Exact(w.text) && o.subjectAllowed(w.text)
    && |w.proof| <= MAX_DKIM_PROOF_SIZE_BYTES && w.vkey != 0
    && Fields(domain) + 1 + Fields(w.text) <= w.count < TWO63
    && (forall xs :: |xs| == w.count && InField(xs, h) ==> o.verify(w.proof, w.vkey, Shown(w.show, xs)).Some?)
    && KeyIn(c, w.key).Some? && c.poseidonHash(w.key).Some?
    && c.poseidonHash(w.key).value != []
    && (h != 0 ==> c.poseidonHash(w.key).value == HashBytes(h))
  }

  /** What acceptance says about a domain and a hash, over all sound registries and all
      requests that name the two: a record with both is stored, exactly if the domain is
      not empty and the hash is not zero. Otherwise a filter of the lookup is switched off
      and a record of another domain or hash will do. (No request is accepted for a domain
      that cannot be encoded.) */
  lemma AcceptedVouchesIff(c: Crypto, o: Outside, w: Setting, domain: ByteString, h: int)
    requires Workable(c, o, w, domain, h)
    ensures (forall st: State, req: AuthRequest, verified: bool ::
               Invariant(c, st) && Accepted(st, o, req, verified) && Names(st, o, req, domain, h) ==>
                 Vouched(st, domain, HashBytes(h)))
            <==> (Encodable(domain) ==> domain != [] && h != 0)
  {
    hide Workable, Invariant, Answer, InputText, HashBytes, Vouched, Indexed, ValidParams;
    if Encodable(domain) ==> domain != [] && h != 0 {
      forall st: State, req: AuthRequest, verified: bool
        | Invariant(c, st) && Accepted(st, o, req, verified) && Names(st, o, req, domain, h)
        ensures Vouched(st, domain, HashBytes(h))
      {
        FoundMatches(st, domain, h);
        AcceptedIsVouched(st, o, req, verified);
      }
    } else {
      var st, req, verified := OtherRecordAccepted(c, o, w, domain, h);
    }
  }

  /** A store with one record that the lookup finds although it is not the one named. */
  lemma OtherRecordFound(k: Key, record: DkimPubKey, params: Option<Params>, domain: ByteString, h: int)
    requires Encodable(domain) && Encodable(k.domain) && (domain == [] || k.domain == domain)
    requires h == 0 || record.poseidonHash == HashBytes(h)
    ensures var st := State(map[k := record], map[], params);
            EncodableKeys(st.dkimPubKeys.Keys) && KeyFound(st, domain, h)
  {
    hide Filter, Entries, Matches, BigEndian;
    var st := State(map[k := record], map[], params);
    var req := KeyRequest(domain, h);
    var ms := AllMatching(st, req);
    AllMatchingExact(st, req);
    AscendingUnique(ms, [k], StoreKey);
    assert Clip(ms, 0, MAX_PAGE) == ms;
  }

  lemma {:induction false} ParsesShown(o: Outside, show: int -> ByteString, xs: seq<int>)
    requires forall n :: o.parseInt(show(n)) == Some(n)
    ensures ParseAll(o, Shown(show, xs)) == Some(xs)
  {
    if xs != [] {
      ParsesShown(o, show, xs[1..]);
      assert Shown(show, xs)[1..] == Shown(show, xs[1..]);
      assert xs == [xs[0]] + xs[1..];
    }
  }

  /** A packed text is read back from the range it was put in. */
  lemma ReadsText(o: Outside, show: int -> ByteString, xs: seq<int>, range: IndexRange, text: ByteString)
    requires range.start <= range.end <= |xs| && |text| <= CHUNK * (range.end - range.start) && Exact(text)
    requires xs[range.start..range.end] == Pack(text, range.end - range.start)
    requires forall n :: o.parseInt(show(n)) == Some(n)
    ensures InputText(o, Shown(show, xs), range) == Some(text)
  {
    hide ParseAll, TextOf, Pack, Exact;
    var piece := xs[range.start..range.end];
    assert Shown(show, xs)[range.start..range.end] == Shown(show, piece);
    ParsesShown(o, show, piece);
    TextRoundTripIff(text, range.end - range.start);
  }

  /** The numbers in a range hold a text, as a prover packs it. */
  ghost predicate PackedAt(xs: seq<int>, range: IndexRange, text: ByteString) {
    && range.start <= range.end <= |xs| && |text| <= CHUNK * (range.end - range.start) && Exact(text)
    && xs[range.start..range.end] == Pack(text, range.end - range.start)
  }

  /** Which honest requests are accepted: with the domain, the transaction, the host and the
      subject packed into the ranges that the parameters name for them and the hash at its
      index, a request is accepted with a verdict if and only if the proof has at most 4096
      bytes, it repeats the email hash and the transaction, the lookup for domain and hash
      finds a record, the host is not empty and is allowed, the policy takes the subject,
      and the verifier gives that verdict on the stored key identifier. */
  lemma HonestRequestIff(st: State, o: Outside, show: int -> ByteString, xs: seq<int>, req: AuthRequest,
                         domain: ByteString, h: int, tx: ByteString, host: ByteString, subject: ByteString,
                         verified: bool)
    requires ParamsStored(st) && st.params.Some? && (forall n :: o.parseInt(show(n)) == Some(n))
    requires req.publicInputs == Shown(show, xs)
    requires var ix := st.params.value.publicInputIndices;
             && ix.minLength <= |xs| && xs[ix.dkimHashIndex] == h
             && PackedAt(xs, ix.dkimDomainRange, domain) && PackedAt(xs, ix.txBytesRange, tx)
             && PackedAt(xs, ix.emailHostRange, host) && PackedAt(xs, ix.emailSubjectRange, subject)
    ensures Accepted(st, o, req, verified) <==>
            && |req.proof| <= 4096
            && req.emailHash == show(xs[st.params.value.publicInputIndices.emailHashIndex])
            && req.txBytes == tx
            && KeyFound(st, domain, h)
            && host != [] && host in req.allowedEmailHosts
            && o.subjectAllowed(subject)
            && o.verify(req.proof, st.params.value.vkeyIdentifier, req.publicInputs) == Some(verified)
  {
    hide InputText, KeyFound, Exact, Pack;
    var ix := st.params.value.publicInputIndices;
    ReadsText(o, show, xs, ix.dkimDomainRange, domain);
    ReadsText(o, show, xs, ix.txBytesRange, tx);
    ReadsText(o, show, xs, ix.emailHostRange, host);
    ReadsText(o, show, xs, ix.emailSubjectRange, subject);
  }

  lemma {:induction false} PackInField(text: ByteString, fields: nat, h: int)
    requires |text| <= CHUNK * fields
    ensures |Pack(text, fields)| == fields && InField(Pack(text, fields), h)
    decreases fields
  {
    hide NumberOf;
    if fields > 0 {
      var n := if |text| <= CHUNK then |text| else CHUNK;
      ChunkFits(text[..n]);
      assert |text| <= CHUNK ==> text[..n] == text;
      PackInField(if |text| <= CHUNK then [] else text[CHUNK..], fields - 1, h);
    }
  }

  /** Parameters for `count` inputs that hold the domain in the first `n`, then the hash,
      then one text for everything else. */
  function PlainParams(vkey: Uint64, n: nat, count: nat): (p: Params)
    requires vkey != 0 && 0 < n && n + 1 < count < TWO63
    ensures ValidParams(p)
  {
    var tail := IndexRange(n + 1, count);
    Params(vkey, DEFAULT_MAX_PUBKEY_SIZE_BYTES, PublicInputIndices(count, 0, IndexRange(0, n), n, tail, tail, tail))
  }

  /** A sound registry with one record: the key of the setting, under the domain asked for
      or, if none is, under some other. */
  function OneRecord(c: Crypto, w: Setting, domain: ByteString, p: Params): (st: State)
    requires c.poseidonHash(w.key).Some?
  {
    var k := Key(if domain == [] then [1] else domain, [1]);
    State(map[k := DkimPubKey(k.domain, w.key, c.poseidonHash(w.key).value, k.selector, 0, 0)], map[], Some(p))
  }

  /** The inputs of the request: the domain, the hash and the text. */
  function PlainInputs(w: Setting, domain: ByteString, h: int): (xs: seq<int>)
    requires Fields(domain) + 1 + Fields(w.text) <= w.count
  {
    var m := Fields(w.text);
    Pack(domain, w.count - 1 - m) + ([h] + Pack(w.text, m))
  }

  lemma PlainInputsRead(o: Outside, w: Setting, domain: ByteString, h: int)
    requires Fields(domain) + 1 + Fields(w.text) <= w.count < TWO63
    requires Encodable(domain) && Exact(w.text) && forall n :: o.parseInt(w.show(n)) == Some(n)
    ensures var xs, n := PlainInputs(w, domain, h), w.count - 1 - Fields(w.text);
            && |xs| == w.count && InField(xs, h)
            && InputText(o, Shown(w.show, xs), IndexRange(0, n)) == Some(domain)
            && xs[n] == h
            && InputText(o, Shown(w.show, xs), IndexRange(n + 1, w.count)) == Some(w.text)
  {
    hide Pack, Fields, Exact, InputText, Shown;
    var m := Fields(w.text);
    var n := w.count - 1 - m;
    var xs := PlainInputs(w, domain, h);
    PackInField(domain, n, h);
    PackInField(w.text, m, h);
    NulFreeIsExact(domain);
    assert xs[0..n] == Pack(domain, n);
    assert xs[n + 1..w.count] == Pack(w.text, m);
    ReadsText(o, w.show, xs, IndexRange(0, n), domain);
    ReadsText(o, w.show, xs, IndexRange(n + 1, w.count), w.text);
  }

  /** In every workable setting: a sound registry and an accepted request, backed only by a
      record of another domain or another hash than the request names. */
  lemma OtherRecordAccepted(c: Crypto, o: Outside, w: Setting, domain: ByteString, h: int)
    returns (st: State, req: AuthRequest, verified: bool)
    requires Workable(c, o, w, domain, h) && Encodable(domain) && (domain == [] || h == 0)
    ensures Invariant(c, st) && Accepted(st, o, req, verified) && Names(st, o, req, domain, h)
    ensures !Vouched(st, domain, HashBytes(h))
  {
    hide InputText, KeyFound, ValidParams, PlainInputs, Fields, Exact;
    var n := w.count - 1 - Fields(w.text);
    var p := PlainParams(w.vkey, n, w.count);
    st := OneRecord(c, w, domain, p);
    var xs := PlainInputs(w, domain, h);
    PlainInputsRead(o, w, domain, h);
    var inputs := Shown(w.show, xs);
    req := AuthRequest(w.text, inputs[0], w.proof, inputs, [w.text]);
    verified := o.verify(w.proof, w.vkey, inputs).value;
    var k := Key(if domain == [] then [1] else domain, [1]);
    OtherRecordFound(k, st.dkimPubKeys[k], Some(p), domain, h);
  }

  /** Across the whole registry: after a Revoke removed a key from a domain, whatever
      messages follow, an accepted request for that domain is backed by a registered,
      correctly hashed record that carries a different key. */
  lemma RevokedKeyNeverBacks(c: Crypto, authority: ByteString, st: State, revoke: Msg, later: seq<Msg>,
                             o: Outside, req: AuthRequest, verified: bool)
    requires Invariant(c, st) && EncodableKeys(st.dkimPubKeys.Keys)
    requires revoke.RevokeDkimPubKey? && HandleRevoke(c, st, revoke).Ok?
    requires Holders(c, st, revoke.domain, c.parsePrivateKey(revoke.privKey).value) != {}
    ensures var end := Run(c, authority, st, [revoke] + later);
            Accepted(end, o, req, verified) ==>
            var ix := end.params.value.publicInputIndices;
            var domain := InputText(o, req.publicInputs, ix.dkimDomainRange).value;
            var h := o.parseInt(req.publicInputs[ix.dkimHashIndex]).value;
            domain == revoke.domain && domain != [] && h != 0 ==>
              exists k ::
                && k in end.dkimPubKeys && k.domain == domain
                && c.poseidonHash(end.dkimPubKeys[k].pubKey) == Some(HashBytes(h))
                && KeyIn(c, end.dkimPubKeys[k].pubKey) != Some(c.parsePrivateKey(revoke.privKey).value)
  {
    hide Run, Answer, InputText, HashBytes, HandleRevoke, Holders;
    var end := Run(c, authority, st, [revoke] + later);
    NoResurrection(c, authority, st, revoke, later);
    InvariantRun(c, authority, st, [revoke] + later);
    AcceptedIsVouched(end, o, req, verified);
  }
}
