/** What pages of the DkimPubKeys query add up to. */
module PageWalk {
  import opened Options
  import opened Words
  import opened Messages
  import opened Ordering
  import opened Registry
  import opened Genesis
  import opened DkimQuery
  import opened Pagination

  /** Every stored record has a page key: no delimiter in its names, and they fit. */
  ghost predicate Pageable(st: State) {
    && EncodableKeys(st.dkimPubKeys.Keys)
    && forall k :: k in st.dkimPubKeys ==> PageKey(k).Some?
  }

  /** A listing request: no single record is asked for. */
  ghost predicate Listing(req: Request) {
    (req.domain == [] || req.selector == []) && Encodable(req.domain)
  }

  ghost predicate IsAt(k: Key, domain: ByteString, selector: ByteString) {
    k.domain == domain && k.selector == selector
  }

  /** A request with a domain and a selector: it succeeds if and only if a record is stored
      under the two, and the answer is then that one record, without pagination, whatever
      hash and page the request carries. */
  lemma DirectLookup(st: State, req: Request)
    requires EncodableKeys(st.dkimPubKeys.Keys) && req.domain != [] && req.selector != [] && Encodable(req.domain)
    ensures Answer(st, req).Ok? <==> exists k :: k in st.dkimPubKeys && IsAt(k, req.domain, req.selector)
    ensures forall k :: k in st.dkimPubKeys && IsAt(k, req.domain, req.selector) ==>
              Answer(st, req) == Ok(Response([st.dkimPubKeys[k]], None))
    ensures Answer(st, req).Err? ==> Answer(st, req).error == NotFound
  {
    forall k | k in st.dkimPubKeys && IsAt(k, req.domain, req.selector)
      ensures Answer(st, req) == Ok(Response([st.dkimPubKeys[k]], None))
    {
      assert k == Key(req.domain, req.selector);
    }
    if Answer(st, req).Ok? {
      assert IsAt(Key(req.domain, req.selector), req.domain, req.selector);
    }
  }

  /** No query goes through for a domain that cannot be encoded. */
  lemma UnencodableDomainFails(st: State, req: Request)
    requires EncodableKeys(st.dkimPubKeys.Keys) && !Encodable(req.domain)
    ensures Answer(st, req) == Err(KeyEncoding)
  {
  }

  /** All records a listing is about, in store order. */
  function AllMatching(st: State, req: Request): (ms: seq<Key>)
    requires EncodableKeys(st.dkimPubKeys.Keys)
    ensures forall k :: k in ms ==> k in st.dkimPubKeys
  {
    Matching(st, req, Entries(st, req.domain))
  }

  /** They are exactly the stored records of the domain with the hash, each once, in the
      order of their store keys. */
  lemma AllMatchingExact(st: State, req: Request)
    requires EncodableKeys(st.dkimPubKeys.Keys) && Listing(req)
    ensures Ascending(AllMatching(st, req), StoreKey)
    ensures forall k :: k in AllMatching(st, req) <==>
              && k in st.dkimPubKeys
              && (req.domain == [] || k.domain == req.domain)
              && (req.poseidonHash == [] || st.dkimPubKeys[k].poseidonHash == req.poseidonHash)
  {
    hide Ascending;
    var entries := Entries(st, req.domain);
    var p := Matches(st, req.poseidonHash);
    FilterAscending(entries, p, StoreKey);
    if req.domain != [] {
      PrefixIsDomain(st, req.domain);
    }
    forall k ensures k in AllMatching(st, req) <==> k in entries && p(k) {
      FilterMembers(entries, p, k);
    }
    var range := if req.domain == [] then st.dkimPubKeys.Keys else InDomain(st, req.domain);
    StoreKeysDistinct(range);
    assert entries == Sorted(range, StoreKey);
  }

  lemma ClipAt<T>(xs: seq<T>, from: nat, to: nat)
    requires from <= to
    ensures Clip(xs, from, to) != [] ==> from + |Clip(xs, from, to)| <= |xs|
    ensures forall i :: 0 <= i < |Clip(xs, from, to)| ==> Clip(xs, from, to)[i] == xs[from + i]
  {
  }

  /** Offset pages are slices: the page is matching[offset..offset + limit], the total
      counts all matching records whatever the offset and limit, and a next key is given
      exactly if records are left behind the page; it then names the first of them. */
  lemma OffsetPageIsSlice(st: State, req: Request)
    requires Pageable(st) && Listing(req) && !UsesKey(req)
    ensures Answer(st, req).Ok? && Answer(st, req).value.pagination.Some?
    ensures var ms, asked := AllMatching(st, req), req.pagination;
            var offset := if asked.Some? then asked.value.offset else 0;
            var limit := if asked.Some? && 0 < asked.value.limit < 100 then asked.value.limit else 100;
            var Response(keys, page) := Answer(st, req).value;
            && (forall i :: 0 <= i < |keys| ==> offset + i < |ms| && keys[i] == st.dkimPubKeys[ms[offset + i]])
            && (|keys| == if |ms| <= offset then 0 else if |ms| < offset + limit then |ms| - offset else limit)
            && page.value.total == |ms|
            && (page.value.nextKey.Some? <==> offset + limit < |ms|)
            && (offset + limit < |ms| ==> page.value.nextKey == PageKey(ms[offset + limit]))
  {
    hide Filter, Entries, Matches;
    var ms, offset, limit := AllMatching(st, req), PageOffset(req), PageLimit(req);
    if offset + limit < |ms| {
      assert ms[offset + limit] in ms;
    }
    ClipAt(ms, offset, offset + limit);
  }

  // ---------------------------------------------------------------- following next keys

  /** The request for the page that starts at `key`. */
  function AtKey(req: Request, key: ByteString): (r: Request) {
    var countTotal := req.pagination.Some? && req.pagination.value.countTotal;
    req.(pagination := Some(PageRequest(key, 0, PageLimit(req), countTotal)))
  }

  lemma EntriesPageable(st: State, domain: ByteString)
    requires Pageable(st)
    ensures var entries := Entries(st, domain);
            forall i :: 0 <= i < |entries| ==> PageKey(entries[i]).Some?
  {
    hide Entries, PageKey;
    var entries := Entries(st, domain);
    assert forall i :: 0 <= i < |entries| ==> entries[i] in entries;
  }

  /** The matching records at or behind a page key. */
  function Remaining(st: State, req: Request, key: ByteString): (ms: seq<Key>)
    requires Pageable(st)
    ensures forall k :: k in ms ==> k in st.dkimPubKeys
  {
    EntriesPageable(st, req.domain);
    FastForwardSucceeds(Entries(st, req.domain), key);
    Matching(st, req, FastForward(Entries(st, req.domain), key).value)
  }

  /** They are the matching records whose page key is not below it, in store order. */
  lemma RemainingExact(st: State, req: Request, key: ByteString)
    requires Pageable(st)
    ensures Ascending(Remaining(st, req, key), StoreKey)
    ensures forall k :: k in Remaining(st, req, key) <==>
              k in AllMatching(st, req) && PageKey(k).Some? && !LexLess(PageKey(k).value, key)
  {
    hide Entries, Ascending, PageKey, LexLess, Matches, Filter, FastForward;
    var entries, p := Entries(st, req.domain), Matches(st, req.poseidonHash);
    EntriesPageable(st, req.domain);
    FastForwardSucceeds(entries, key);
    var rest := FastForward(entries, key).value;
    SoughtExact(entries, key);
    SuffixAscending(entries, |entries| - |rest|);
    FilterAscending(rest, p, StoreKey);
    forall k ensures k in Remaining(st, req, key) <==> k in rest && p(k) {
      FilterMembers(rest, p, k);
    }
    forall k ensures k in AllMatching(st, req) <==> k in entries && p(k) {
      FilterMembers(entries, p, k);
    }
  }

  lemma SuffixAscending(ks: seq<Key>, n: nat)
    requires n <= |ks| && Ascending(ks, StoreKey)
    ensures Ascending(ks[n..], StoreKey)
  {
  }

  /** A seek leaves exactly the records whose page key is not below the key. */
  lemma {:induction false} SoughtExact(ks: seq<Key>, key: ByteString)
    requires Ascending(ks, StoreKey) && forall i :: 0 <= i < |ks| ==> PageKey(ks[i]).Some?
    ensures FastForward(ks, key).Some?
    ensures forall k :: k in FastForward(ks, key).value <==>
              k in ks && PageKey(k).Some? && !LexLess(PageKey(k).value, key)
  {
    hide PageKey, LexLess, StoreKey;
    if ks != [] {
      SoughtExact(ks[1..], key);
      assert ks == [ks[0]] + ks[1..];
      if !LexLess(PageKey(ks[0]).value, key) {
        forall i | 0 < i < |ks| ensures !LexLess(PageKey(ks[i]).value, key) {
          PageKeysOrderAsStore(ks[0], ks[i]);
          if LexLess(PageKey(ks[i]).value, key) {
            LexTransitive(PageKey(ks[0]).value, PageKey(ks[i]).value, key);
          }
        }
      }
    }
  }

  lemma {:induction false} FastForwardSucceeds(ks: seq<Key>, key: ByteString)
    requires forall i :: 0 <= i < |ks| ==> PageKey(ks[i]).Some?
    ensures FastForward(ks, key).Some?
  {
    hide PageKey, LexLess;
    if ks != [] {
      FastForwardSucceeds(ks[1..], key);
    }
  }

  /** The seek gets as far as record `i`: those before it have page keys below `key`. */
  ghost predicate Reaches(ks: seq<Key>, key: ByteString, i: nat)
    requires i <= |ks|
  {
    forall j :: 0 <= j < i ==> PageKey(ks[j]).Some? && LexLess(PageKey(ks[j]).value, key)
  }

  lemma ReachesOnward(ks: seq<Key>, key: ByteString, i: nat)
    requires i < |ks|
    ensures Reaches(ks, key, i + 1) <==>
            PageKey(ks[0]).Some? && LexLess(PageKey(ks[0]).value, key) && Reaches(ks[1..], key, i)
  {
    hide PageKey, LexLess;
    var tail := ks[1..];
    if Reaches(ks, key, i + 1) {
      assert forall j :: 0 <= j < i ==> tail[j] == ks[j + 1];
    }
    if PageKey(ks[0]).Some? && LexLess(PageKey(ks[0]).value, key) && Reaches(tail, key, i) {
      forall j | 0 <= j < i + 1 ensures PageKey(ks[j]).Some? && LexLess(PageKey(ks[j]).value, key) {
        assert j > 0 ==> ks[j] == tail[j - 1];
      }
    }
  }

  /** Every record that the seek gets to has a page key. */
  ghost predicate SeekableTo(ks: seq<Key>, key: ByteString) {
    forall i :: 0 <= i < |ks| && Reaches(ks, key, i) ==> PageKey(ks[i]).Some?
  }

  lemma SeekableOnward(ks: seq<Key>, key: ByteString)
    requires ks != []
    ensures SeekableTo(ks, key) <==>
            && PageKey(ks[0]).Some?
            && (LexLess(PageKey(ks[0]).value, key) ==> SeekableTo(ks[1..], key))
  {
    hide PageKey, LexLess, Reaches;
    var tail := ks[1..];
    assert Reaches(ks, key, 0) by {
      ReachesNone(ks, key);
    }
    forall i | 0 <= i < |tail|
      ensures Reaches(ks, key, i + 1) <==>
              PageKey(ks[0]).Some? && LexLess(PageKey(ks[0]).value, key) && Reaches(tail, key, i)
      ensures tail[i] == ks[i + 1]
    {
      ReachesOnward(ks, key, i);
    }
    if PageKey(ks[0]).Some? && (LexLess(PageKey(ks[0]).value, key) ==> SeekableTo(tail, key)) {
      forall i | 0 <= i < |ks| && Reaches(ks, key, i) ensures PageKey(ks[i]).Some? {
        if i > 0 {
          ReachesOnward(ks, key, i - 1);
          assert ks[i] == tail[i - 1];
        }
      }
    }
  }

  lemma ReachesNone(ks: seq<Key>, key: ByteString)
    ensures Reaches(ks, key, 0)
  {
  }

  /** A seek succeeds exactly if every record it gets to has a page key. */
  lemma {:induction false} SeekSucceedsIff(ks: seq<Key>, key: ByteString)
    ensures FastForward(ks, key).Some? <==> SeekableTo(ks, key)
  {
    hide PageKey, LexLess, Reaches;
    if ks != [] {
      SeekableOnward(ks, key);
      SeekSucceedsIff(ks[1..], key);
    }
  }

  /** When a listing succeeds, whatever is stored: the seek to its key, if it has one, finds
      page keys all the way, and so does the first record behind the page, if there is one. */
  lemma ListingSucceedsIff(st: State, req: Request)
    requires EncodableKeys(st.dkimPubKeys.Keys) && Listing(req)
    ensures Answer(st, req).Ok? <==>
            && (UsesKey(req) ==> SeekableTo(Entries(st, req.domain), req.pagination.value.key))
            && Visited(st, req).Some?
            && var ms, end := Matching(st, req, Visited(st, req).value), PageOffset(req) + PageLimit(req);
               end < |ms| ==> PageKey(ms[end]).Some?
  {
    hide Entries, PageKey, Filter, Matches, SeekableTo, FastForward;
    if UsesKey(req) {
      SeekSucceedsIff(Entries(st, req.domain), req.pagination.value.key);
    }
  }

  /** Seeking the page key of a record stops right at that record. */
  lemma {:induction false} SeekFindsRecord(ks: seq<Key>, j: nat)
    requires forall i :: 0 <= i < |ks| ==> PageKey(ks[i]).Some?
    requires Ascending(ks, StoreKey) && j < |ks|
    ensures PageKey(ks[j]).Some? && FastForward(ks, PageKey(ks[j]).value) == Some(ks[j..])
  {
    hide PageKey, LexLess, StoreKey, Ascending;
    if j == 0 {
      LexIrreflexive(PageKey(ks[0]).value);
      assert ks[0..] == ks;
    } else {
      var tail := ks[1..];
      AscendingParts(ks, StoreKey, j);
      PageKeysOrderAsStore(ks[0], ks[j]);
      assert tail[j - 1] == ks[j] && tail[j - 1..] == ks[j..];
      SeekFindsRecord(tail, j - 1);
    }
  }

  /** The matches from a match on are a suffix of the matches. */
  lemma {:induction false} MatchesFromMatch(ks: seq<Key>, p: Key -> bool, i: nat) returns (j: nat)
    requires i < |Filter(ks, p)|
    ensures j < |ks| && ks[j] == Filter(ks, p)[i] && Filter(ks[j..], p) == Filter(ks, p)[i..]
    decreases |ks|
  {
    var head := if p(ks[0]) then 1 else 0;
    if i < head {
      j := 0;
      assert ks[0..] == ks;
    } else {
      var t := MatchesFromMatch(ks[1..], p, i - head);
      j := t + 1;
      assert ks[1..][t..] == ks[j..];
    }
  }

  /** Following the next key of a page leaves exactly the records behind the page. */
  lemma NextKeyResumes(st: State, req: Request, n: nat, i: nat)
    requires Pageable(st) && n <= |Entries(st, req.domain)|
    requires i < |Matching(st, req, Entries(st, req.domain)[n..])|
    ensures var ms := Matching(st, req, Entries(st, req.domain)[n..]);
            PageKey(ms[i]).Some? && Remaining(st, req, PageKey(ms[i]).value) == ms[i..]
  {
    hide Filter, Entries, FastForward, Matches, PageKey;
    var entries := Entries(st, req.domain);
    var j := MatchesFromMatch(entries[n..], Matches(st, req.poseidonHash), i);
    assert entries[n..][j] == entries[n + j] && entries[n + j..] == entries[n..][j..];
    EntriesPageable(st, req.domain);
    SeekFindsRecord(entries, n + j);
  }

  lemma SeekIsSuffix(st: State, req: Request, key: ByteString) returns (n: nat)
    requires Pageable(st)
    ensures n <= |Entries(st, req.domain)|
    ensures FastForward(Entries(st, req.domain), key) == Some(Entries(st, req.domain)[n..])
  {
    hide Entries;
    var entries := Entries(st, req.domain);
    EntriesPageable(st, req.domain);
    FastForwardSucceeds(entries, key);
    n := |entries| - |FastForward(entries, key).value|;
  }

  /** The first `limit` of the given records, with a next key exactly if there are more. */
  ghost predicate IsFirstPage(st: State, ms: seq<Key>, limit: nat, countTotal: bool, answer: Response)
    requires forall k :: k in ms ==> k in st.dkimPubKeys
  {
    && |answer.dkimPubKeys| == Min(|ms|, limit)
    && (forall i :: 0 <= i < |answer.dkimPubKeys| ==> answer.dkimPubKeys[i] == st.dkimPubKeys[ms[i]])
    && answer.pagination.Some?
    && answer.pagination.value.total == (if countTotal then |ms| else Min(|ms|, limit + 1))
    && answer.pagination.value.nextKey == (if limit < |ms| then PageKey(ms[limit]) else None)
    && (limit < |ms| ==> PageKey(ms[limit]).Some?)
  }

  /** What a request with a page key gets: the first records from the key on, 100 of them
      unless it asks for fewer, whatever its offset says. */
  lemma KeyedPage(st: State, req: Request)
    requires Pageable(st) && Listing(req) && UsesKey(req)
    ensures Answer(st, req).Ok?
    ensures var asked := req.pagination.value;
            var limit := if 0 < asked.limit < 100 then asked.limit else 100;
            IsFirstPage(st, Remaining(st, req, asked.key), limit, asked.countTotal, Answer(st, req).value)
  {
    hide Filter, Entries, FastForward, Matches, PageKey, Pageable, Remaining, Answer;
    KeyedPageOf(st, req);
    ClipAt(Remaining(st, req, req.pagination.value.key), 0, PageLimit(req));
  }

  lemma KeyedPageOf(st: State, req: Request)
    requires Pageable(st) && Listing(req) && UsesKey(req)
    ensures var ms, limit := Remaining(st, req, req.pagination.value.key), PageLimit(req);
            && Answer(st, req) == PageOf(st, req, ms)
            && (limit < |ms| ==> PageKey(ms[limit]).Some?)
  {
    hide Filter, Entries, FastForward, Matches, PageOf;
    var ms, limit := Remaining(st, req, req.pagination.value.key), PageLimit(req);
    var n := SeekIsSuffix(st, req, req.pagination.value.key);
    if limit < |ms| {
      NextKeyResumes(st, req, n, limit);
    }
  }

  /** One page by key: the first `limit` remaining records, and the rest behind its key. */
  lemma KeyPage(st: State, req: Request, key: ByteString)
    requires Pageable(st) && Listing(req) && key != []
    ensures Answer(st, AtKey(req, key)).Ok? && Answer(st, AtKey(req, key)).value.pagination.Some?
    ensures var ms, limit := Remaining(st, req, key), PageLimit(req);
            var Response(keys, page) := Answer(st, AtKey(req, key)).value;
            && keys == Values(st.dkimPubKeys, Clip(ms, 0, limit))
            && page.value.total == (if AtKey(req, key).pagination.value.countTotal then |ms| else Min(|ms|, limit + 1))
            && (page.value.nextKey.Some? <==> limit < |ms|)
            && (limit < |ms| ==>
                  page.value.nextKey.value != [] && Remaining(st, req, page.value.nextKey.value) == ms[limit..])
  {
    hide Filter, Entries, FastForward;
    var ms, limit := Remaining(st, req, key), PageLimit(req);
    var n := SeekIsSuffix(st, req, key);
    if limit < |ms| {
      NextKeyResumes(st, req, n, limit);
    }
  }

  /** All records a client sees that asks for the page at `key` and follows next keys. */
  function WalkFrom(st: State, req: Request, key: ByteString): (keys: seq<DkimPubKey>)
    requires Pageable(st) && Listing(req) && key != []
    decreases |Remaining(st, req, key)|
  {
    KeyPage(st, req, key);
    var Response(keys, page) := Answer(st, AtKey(req, key)).value;
    if page.value.nextKey == None then keys
    else keys + WalkFrom(st, req, page.value.nextKey.value)
  }

  /** The same from the start: the first request carries no key. */
  function Walk(st: State, req: Request): (keys: seq<DkimPubKey>)
    requires Pageable(st) && Listing(req) && !UsesKey(req) && PageOffset(req) == 0
  {
    OffsetPageIsSlice(st, req);
    var Response(keys, page) := Answer(st, req).value;
    if page.value.nextKey == None then keys
    else keys + WalkFrom(st, req, page.value.nextKey.value)
  }

  lemma ValuesConcat(m: map<Key, DkimPubKey>, xs: seq<Key>, i: nat)
    requires i <= |xs| && forall k :: k in xs ==> k in m
    ensures Values(m, xs) == Values(m, xs[..i]) + Values(m, xs[i..])
  {
  }

  lemma {:induction false} WalkFromIsRemaining(st: State, req: Request, key: ByteString)
    requires Pageable(st) && Listing(req) && key != []
    ensures WalkFrom(st, req, key) == Values(st.dkimPubKeys, Remaining(st, req, key))
    decreases |Remaining(st, req, key)|
  {
    hide Remaining, Answer;
    KeyPage(st, req, key);
    var ms, limit := Remaining(st, req, key), PageLimit(req);
    var Response(keys, page) := Answer(st, AtKey(req, key)).value;
    if limit < |ms| {
      WalkFromIsRemaining(st, req, page.value.nextKey.value);
      assert Clip(ms, 0, limit) == ms[..limit];
      ValuesConcat(st.dkimPubKeys, ms, limit);
    } else {
      assert Clip(ms, 0, limit) == ms;
    }
  }

  /** The page walk: for every store, filter and limit, following next keys ends, and the
      pages put together are the matching records in store order, each exactly once. */
  lemma WalkIsComplete(st: State, req: Request)
    requires Pageable(st) && Listing(req) && !UsesKey(req) && PageOffset(req) == 0
    ensures Walk(st, req) == Values(st.dkimPubKeys, AllMatching(st, req))
  {
    hide Remaining, Filter, Entries, Matches, WalkFrom;
    OffsetPageIsSlice(st, req);
    var ms, limit := AllMatching(st, req), PageLimit(req);
    var Response(keys, page) := Answer(st, req).value;
    assert keys == Values(st.dkimPubKeys, Clip(ms, 0, limit));
    if limit < |ms| {
      assert Entries(st, req.domain) == Entries(st, req.domain)[0..];
      NextKeyResumes(st, req, 0, limit);
      WalkFromIsRemaining(st, req, page.value.nextKey.value);
      assert Clip(ms, 0, limit) == ms[..limit];
      ValuesConcat(st.dkimPubKeys, ms, limit);
    } else {
      assert Clip(ms, 0, limit) == ms;
    }
  }
}
