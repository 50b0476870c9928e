/** The DkimPubKeys query: filter, offset pages and key pages over the record iterator. */
module DkimQuery {
  import opened Options
  import opened Words
  import opened Messages
  import opened Ordering
  import opened Registry
  import opened Genesis
  import opened Pagination

  datatype PageResponse = PageResponse(nextKey: Option<ByteString>, total: nat)

  datatype Request = Request(
    domain: ByteString,
    selector: ByteString,
    poseidonHash: ByteString,
    pagination: Option<PageRequest>)

  datatype Response = Response(dkimPubKeys: seq<DkimPubKey>, pagination: Option<PageResponse>)

  const MAX_PAGE := 100
  const KEY_BUFFER := 1024

  // ---------------------------------------------------------------- page keys

  /** A page key: domain and selector, each closed by the delimiter. Names that contain
      the delimiter or overflow the fixed buffer have none. */
  function PageKey(k: Key): (bs: Option<ByteString>)
    ensures bs.Some? ==> bs.value == StoreKey(k) + [0]
  {
    if 0 in k.domain || 0 in k.selector || |k.domain| + |k.selector| + 2 > KEY_BUFFER then None
    else Some(StoreKey(k) + [0])
  }

  /** Which records have a page key. */
  lemma PageKeyIff(k: Key)
    ensures PageKey(k).Some? <==>
            && (forall i :: 0 <= i < |k.domain| ==> k.domain[i] != 0)
            && (forall i :: 0 <= i < |k.selector| ==> k.selector[i] != 0)
            && |k.domain + [0] + k.selector + [0]| <= 1024
  {
  }

  lemma {:induction false} DelimiterKeepsOrder(x: ByteString, y: ByteString)
    requires LexLess(x, y)
    ensures LexLess(x + [0], y + [0])
    decreases |x|
  {
    if x == [] {
      assert (x + [0])[1..] == [] && (y + [0])[1..] == y[1..] + [0];
    } else {
      assert (x + [0])[1..] == x[1..] + [0] && (y + [0])[1..] == y[1..] + [0];
      if x[0] == y[0] {
        DelimiterKeepsOrder(x[1..], y[1..]);
      }
    }
  }

  /** Page keys order records exactly as the store iterates over them. */
  lemma PageKeysOrderAsStore(j: Key, k: Key)
    requires PageKey(j).Some? && PageKey(k).Some?
    ensures LexLess(PageKey(j).value, PageKey(k).value) <==> LexLess(StoreKey(j), StoreKey(k))
  {
    var x, y := StoreKey(j), StoreKey(k);
    LexTotal(x, y);
    if LexLess(x, y) {
      DelimiterKeepsOrder(x, y);
    } else if LexLess(y, x) {
      DelimiterKeepsOrder(y, x);
      LexAsymmetric(y + [0], x + [0]);
    } else {
      LexIrreflexive(x + [0]);
    }
  }

  // ---------------------------------------------------------------- what a query answers

  function Matches(st: State, hash: ByteString): (p: Key -> bool) {
    k => k in st.dkimPubKeys && (hash == [] || st.dkimPubKeys[k].poseidonHash == hash)
  }

  /** The records the iterator visits, in its order. */
  function Entries(st: State, domain: ByteString): (ks: seq<Key>)
    requires EncodableKeys(st.dkimPubKeys.Keys)
    ensures Ascending(ks, StoreKey)
    ensures forall k :: k in ks ==> k in st.dkimPubKeys
  {
    var range := if domain == [] then st.dkimPubKeys.Keys else InDomain(st, domain);
    StoreKeysDistinct(range);
    Sorted(range, StoreKey)
  }

  /** Skips to the first record whose page key is not below `key`. */
  function FastForward(ks: seq<Key>, key: ByteString): (r: Option<seq<Key>>)
    ensures r.Some? ==> |r.value| <= |ks| && r.value == ks[|ks| - |r.value|..]
  {
    if ks == [] then Some([])
    else
      match PageKey(ks[0])
      case None => None
      case Some(at) => if !LexLess(at, key) then Some(ks) else FastForward(ks[1..], key)
  }

  /** xs[from..to], clipped to the sequence. */
  function Clip<T>(xs: seq<T>, from: nat, to: nat): (ys: seq<T>)
    requires from <= to
    ensures |ys| == Min(to, |xs|) - Min(from, |xs|)
  {
    xs[Min(from, |xs|)..Min(to, |xs|)]
  }

  function PageLimit(req: Request): (limit: nat)
    ensures 1 <= limit <= MAX_PAGE
  {
    if req.pagination.Some? && 0 < req.pagination.value.limit < MAX_PAGE then req.pagination.value.limit else MAX_PAGE
  }

  predicate UsesKey(req: Request) {
    req.pagination.Some? && req.pagination.value.key != []
  }

  function PageOffset(req: Request): (offset: nat) {
    if req.pagination.Some? && !UsesKey(req) then req.pagination.value.offset else 0
  }

  /** Whether the loop may stop counting once it knows there is a next page. */
  predicate StopsEarly(req: Request) {
    UsesKey(req) && !req.pagination.value.countTotal
  }

  /** A page cut out of the matching records. */
  function PageOf(st: State, req: Request, matching: seq<Key>): (r: Result<Response>)
    requires forall k :: k in matching ==> k in st.dkimPubKeys
  {
    var offset, limit := PageOffset(req), PageLimit(req);
    var keys := Values(st.dkimPubKeys, Clip(matching, offset, offset + limit));
    var total := if StopsEarly(req) then Min(|matching|, offset + limit + 1) else |matching|;
    if offset + limit < |matching| then
      match PageKey(matching[offset + limit])
      case None => Err(KeyEncoding)
      case Some(next) => Ok(Response(keys, Some(PageResponse(Some(next), total))))
    else
      Ok(Response(keys, Some(PageResponse(None, total))))
  }

  function Visited(st: State, req: Request): (ks: Option<seq<Key>>)
    requires EncodableKeys(st.dkimPubKeys.Keys)
    ensures ks.Some? ==> forall k :: k in ks.value ==> k in st.dkimPubKeys
  {
    var entries := Entries(st, req.domain);
    if UsesKey(req) then FastForward(entries, req.pagination.value.key) else Some(entries)
  }

  function Matching(st: State, req: Request, ks: seq<Key>): (ms: seq<Key>)
    ensures forall k :: k in ms ==> k in st.dkimPubKeys
  {
    AllMatchesStored(st, ks, req.poseidonHash);
    Filter(ks, Matches(st, req.poseidonHash))
  }

  function Answer(st: State, req: Request): (r: Result<Response>)
    requires EncodableKeys(st.dkimPubKeys.Keys)
  {
    if req.domain != [] && req.selector != [] then
      var k := Key(req.domain, req.selector);
      if !Encodable(req.domain) then Err(KeyEncoding)
      else if k in st.dkimPubKeys then Ok(Response([st.dkimPubKeys[k]], None))
      else Err(NotFound)
    else if !Encodable(req.domain) then Err(KeyEncoding)
    else
      match Visited(st, req)
      case None => Err(KeyEncoding)
      case Some(ks) => PageOf(st, req, Matching(st, req, ks))
  }

  // ---------------------------------------------------------------- the loops

  method Seek(ks: seq<Key>, key: ByteString) returns (at: nat, ok: bool)
    ensures ok <==> FastForward(ks, key).Some?
    ensures ok ==> at <= |ks| && ks[at..] == FastForward(ks, key).value
  {
    at := 0;
    while at < |ks|
      invariant at <= |ks| && FastForward(ks, key) == FastForward(ks[at..], key)
    {
      var encoded := PageKey(ks[at]);
      if encoded == None {
        return at, false;
      }
      if !LexLess(encoded.value, key) {
        return at, true;
      }
      assert ks[at..][1..] == ks[at + 1..];
      at := at + 1;
    }
    ok := true;
  }

  /** What the collecting loop has done after visiting some matching records. */
  ghost predicate Collected(st: State, done: seq<Key>, offset: nat, limit: nat, results: seq<DkimPubKey>,
                            total: nat, lastKey: Option<Key>)
    requires forall k :: k in done ==> k in st.dkimPubKeys
  {
    && total == |done|
    && results == Values(st.dkimPubKeys, Clip(done, offset, offset + limit))
    && lastKey == if offset + limit < |done| then Some(done[offset + limit]) else None
  }

  lemma {:induction false} ValuesSnoc(m: map<Key, DkimPubKey>, ks: seq<Key>, k: Key)
    requires k in m && forall x :: x in ks ==> x in m
    ensures Values(m, ks + [k]) == Values(m, ks) + [m[k]]
  {
  }

  /** One more matching record. */
  lemma CollectedSnoc(st: State, done: seq<Key>, k: Key, offset: nat, limit: nat, results: seq<DkimPubKey>,
                      total: nat, lastKey: Option<Key>)
    requires k in st.dkimPubKeys && forall x :: x in done ==> x in st.dkimPubKeys
    requires Collected(st, done, offset, limit, results, total, lastKey)
    ensures Collected(st, done + [k], offset, limit,
              if offset <= |done| < offset + limit then results + [st.dkimPubKeys[k]] else results,
              total + 1,
              if |done| == offset + limit then Some(k) else lastKey)
  {
    var done' := done + [k];
    var old', new' := Clip(done, offset, offset + limit), Clip(done', offset, offset + limit);
    if offset <= |done| < offset + limit {
      assert new' == old' + [k];
      ValuesSnoc(st.dkimPubKeys, old', k);
    } else {
      assert new' == old';
    }
  }

  lemma CollectedCounts(st: State, done: seq<Key>, offset: nat, limit: nat, results: seq<DkimPubKey>,
                        total: nat, lastKey: Option<Key>)
    requires forall x :: x in done ==> x in st.dkimPubKeys
    requires Collected(st, done, offset, limit, results, total, lastKey)
    ensures total == |done| && |results| == Min(offset + limit, total) - Min(offset, total)
    ensures lastKey == None <==> total <= offset + limit
  {
  }

  /** Stopping right behind a full page loses nothing of the page. */
  lemma CollectedEarly(st: State, done: seq<Key>, all: seq<Key>, limit: nat, results: seq<DkimPubKey>,
                       total: nat, lastKey: Option<Key>)
    requires done <= all && |done| == limit + 1 && forall x :: x in all ==> x in st.dkimPubKeys
    requires Collected(st, done, 0, limit, results, total, lastKey)
    ensures Collected(st, all, 0, limit, results, |all|, lastKey)
  {
    assert Clip(done, 0, limit) == Clip(all, 0, limit);
  }

  /** The collecting loop with its counters; it stops once the next page is known if
      nobody asked for the total. */
  method Collect(st: State, ks: seq<Key>, hash: ByteString, offset: nat, limit: nat, stopEarly: bool)
    returns (results: seq<DkimPubKey>, total: nat, lastKey: Option<Key>)
    requires forall k :: k in ks ==> k in st.dkimPubKeys
    requires limit > 0 && (stopEarly ==> offset == 0)
    ensures forall k :: k in Filter(ks, Matches(st, hash)) ==> k in st.dkimPubKeys
    ensures var ms := Filter(ks, Matches(st, hash));
            && Collected(st, ms, offset, limit, results, |ms|, lastKey)
            && total == if stopEarly then Min(|ms|, limit + 1) else |ms|
  {
    hide Collected, Filter;
    var p := Matches(st, hash);
    results, total, lastKey := [], 0, None;
    var skipped, collected := 0, 0;
    ghost var done: seq<Key> := [];
    AllMatchesStored(st, ks, hash);
    CollectedNone(st, offset, limit, p);
    var i := 0;
    while i < |ks|
      invariant i <= |ks| && done == Filter(ks[..i], p)
      invariant forall k :: k in done ==> k in st.dkimPubKeys
      invariant Collected(st, done, offset, limit, results, total, lastKey)
      invariant skipped == Min(offset, total) && collected == |results|
      invariant stopEarly ==> total <= limit
    {
      var k := ks[i];
      assert ks[..i + 1] == ks[..i] + [k] && k in ks;
      FilterSnoc(ks[..i], k, p);
      CollectedCounts(st, done, offset, limit, results, total, lastKey);
      i := i + 1;
      if !p(k) {
        continue;
      }
      CollectedSnoc(st, done, k, offset, limit, results, total, lastKey);
      done := done + [k];
      total := total + 1;
      if skipped < offset {
        skipped := skipped + 1;
        continue;
      }
      if collected >= limit {
        if lastKey == None {
          lastKey := Some(k);
        }
        if stopEarly {
          PrefixOfMatches(ks, i, p);
          CollectedEarly(st, done, Filter(ks, p), limit, results, total, lastKey);
          return;
        }
        continue;
      }
      results := results + [st.dkimPubKeys[k]];
      collected := collected + 1;
    }
    assert ks[..|ks|] == ks;
    CollectedCounts(st, done, offset, limit, results, total, lastKey);
  }

  lemma AllMatchesStored(st: State, ks: seq<Key>, hash: ByteString)
    ensures forall k :: k in Filter(ks, Matches(st, hash)) ==> k in st.dkimPubKeys
  {
    forall k | k in Filter(ks, Matches(st, hash)) ensures k in st.dkimPubKeys {
      FilterMembers(ks, Matches(st, hash), k);
    }
  }

  lemma CollectedNone(st: State, offset: nat, limit: nat, p: Key -> bool)
    ensures Filter([], p) == [] && Collected(st, [], offset, limit, [], 0, None)
  {
  }

  lemma PrefixOfMatches(ks: seq<Key>, i: nat, p: Key -> bool)
    requires i <= |ks|
    ensures Filter(ks[..i], p) <= Filter(ks, p)
  {
    assert ks == ks[..i] + ks[i..];
    FilterConcat(ks[..i], ks[i..], p);
  }

  /** DkimPubKeys. */
  method DkimPubKeys(st: State, req: Request) returns (r: Result<Response>)
    requires EncodableKeys(st.dkimPubKeys.Keys)
    ensures r == Answer(st, req)
  {
    hide Filter, Sorted, FastForward, Entries;
    if req.domain != [] && req.selector != [] {
      var k := Key(req.domain, req.selector);
      if !Encodable(req.domain) {
        return Err(KeyEncoding);
      }
      if k !in st.dkimPubKeys {
        return Err(NotFound);
      }
      return Ok(Response([st.dkimPubKeys[k]], None));
    }
    if !Encodable(req.domain) {
      return Err(KeyEncoding);
    }
    var ks := Entries(st, req.domain);
    if UsesKey(req) {
      var at, ok := Seek(ks, req.pagination.value.key);
      if !ok {
        return Err(KeyEncoding);
      }
      ks := ks[at..];
    }
    var results, total, lastKey := Collect(st, ks, req.poseidonHash, PageOffset(req), PageLimit(req), StopsEarly(req));
    var nextKey: Option<ByteString> := None;
    if lastKey.Some? {
      nextKey := PageKey(lastKey.value);
      if nextKey == None {
        return Err(KeyEncoding);
      }
    }
    r := Ok(Response(results, Some(PageResponse(nextKey, total))));
  }
}
