/** The GranteeGrants query: two iterations over the grantee index, one over the index of
    the grantee and one over the whole index from a raw key on. */
module GranteeGrants {
  import opened Options
  import opened Words
  import opened Ordering
  import opened Indexer
  import opened Pagination

  datatype GrantAuthorization = GrantAuthorization(
    granter: ByteString, grantee: ByteString, authorization: ByteString, expiration: ByteString)

  datatype GrantsPage = GrantsPage(grants: seq<GrantAuthorization>, nextKey: Option<ByteString>, total: nat)

  /** Address texts, stored index keys and the resume keys handed to clients. */
  datatype Formats = Formats(
    addressToText: Address -> Option<ByteString>,
    storedKey: GrantIndexKey -> ByteString,
    resumeKey: GrantIndexKey -> Option<ByteString>)

  const DEFAULT_LIMIT := 100

  function LimitOf(page: Option<PageRequest>): (n: nat)
    ensures n > 0
  {
    if page.Some? && page.value.limit > 0 then page.value.limit else DEFAULT_LIMIT
  }

  predicate CountsTotal(page: Option<PageRequest>) {
    page.Some? && page.value.countTotal
  }

  // ---------------------------------------------------------------- what the paths range over

  /** The index entries of one grantee. */
  function OfGrantee(grantee: Address): (p: GrantIndexKey -> bool) {
    (i: GrantIndexKey) => i.grantee == grantee
  }

  /** The whole index in store order. */
  function AllEntries(f: Formats, index: set<GrantIndexKey>): (es: seq<GrantIndexKey>)
    requires Distinct(index, f.storedKey)
    ensures Ascending(es, f.storedKey) && forall e :: e in es <==> e in index
  {
    Sorted(index, f.storedKey)
  }

  /** The grantee's part of it, which a prefix iteration visits. */
  function GranteeEntries(f: Formats, index: set<GrantIndexKey>, grantee: Address): (es: seq<GrantIndexKey>)
    requires Distinct(index, f.storedKey)
    ensures forall e :: e in es <==> e in index && e.grantee == grantee
    ensures Ascending(es, f.storedKey)
  {
    Sorted((set e | e in index && e.grantee == grantee), f.storedKey)
  }

  // ---------------------------------------------------------------- stored index keys

  /** The documented form of an index entry behind the index's own prefix: the grantee and
      then the triple, addresses behind their lengths. */
  function IndexKeyBytes(e: GrantIndexKey): (bs: ByteString) {
    if AddressFits(e.grantee) && GrantKeyFits(e.key) then
      WithLength(e.grantee) + (WithLength(e.key.granter) + (WithLength(e.key.grantee) + e.key.msgType))
    else []
  }

  ghost predicate EntriesFit(index: set<GrantIndexKey>) {
    forall e :: e in index ==> AddressFits(e.grantee) && GrantKeyFits(e.key)
  }

  /** The stored keys of fitting entries differ. */
  lemma IndexKeysDistinct(index: set<GrantIndexKey>)
    requires EntriesFit(index)
    ensures Distinct(index, IndexKeyBytes)
  {
    hide TakeAddress, WithLength;
    forall x, y | x in index && y in index && IndexKeyBytes(x) == IndexKeyBytes(y) ensures x == y {
      ReadsIndexKey(x);
      ReadsIndexKey(y);
    }
  }

  lemma ReadsIndexKey(e: GrantIndexKey)
    requires AddressFits(e.grantee) && GrantKeyFits(e.key)
    ensures TakeAddress(IndexKeyBytes(e)).Some?
    ensures var (grantee, triple) := TakeAddress(IndexKeyBytes(e)).value;
            grantee == e.grantee && DecodeGrantKey(triple) == Some(e.key)
  {
    hide TakeAddress, WithLength;
    var tail := WithLength(e.key.grantee) + e.key.msgType;
    TakesAddress(e.grantee, WithLength(e.key.granter) + tail);
    TakesAddress(e.key.granter, tail);
    TakesAddress(e.key.grantee, e.key.msgType);
  }

  /** The prefix range of a grantee visits exactly the entries of that grantee. */
  lemma PrefixIsGrantee(index: set<GrantIndexKey>, grantee: Address)
    requires EntriesFit(index) && AddressFits(grantee)
    ensures (set e | e in index && WithLength(grantee) <= IndexKeyBytes(e))
         == (set e | e in index && e.grantee == grantee)
  {
    hide TakeAddress, WithLength;
    forall e | e in index ensures WithLength(grantee) <= IndexKeyBytes(e) <==> e.grantee == grantee {
      var bs := IndexKeyBytes(e);
      if WithLength(grantee) <= bs {
        var rest := bs[|WithLength(grantee)|..];
        assert bs == WithLength(grantee) + rest;
        TakesAddress(grantee, rest);
        ReadsIndexKey(e);
      }
    }
  }

  lemma IndexKeyLayout(e: GrantIndexKey)
    requires AddressFits(e.grantee) && GrantKeyFits(e.key)
    ensures IndexKeyBytes(e) == [|e.grantee|] + e.grantee + [|e.key.granter|] + e.key.granter
                                + [|e.key.grantee|] + e.key.grantee + e.key.msgType
  {
  }

  // ---------------------------------------------------------------- ranges

  function NotBelow(f: Formats, start: ByteString): (p: GrantIndexKey -> bool) {
    (e: GrantIndexKey) => !LexLess(f.storedKey(e), start)
  }

  /** The part of the index at or behind a raw key. */
  function EntriesFrom(f: Formats, index: set<GrantIndexKey>, start: ByteString): (es: seq<GrantIndexKey>)
    requires Distinct(index, f.storedKey)
  {
    Filter(AllEntries(f, index), NotBelow(f, start))
  }

  lemma EntriesFromMembers(f: Formats, index: set<GrantIndexKey>, start: ByteString)
    requires Distinct(index, f.storedKey)
    ensures forall e :: e in EntriesFrom(f, index, start) <==> e in index && !LexLess(f.storedKey(e), start)
    ensures Ascending(EntriesFrom(f, index, start), f.storedKey)
  {
    var all := AllEntries(f, index);
    FilterAscending(all, NotBelow(f, start), f.storedKey);
    forall e ensures e in EntriesFrom(f, index, start) <==> e in index && !LexLess(f.storedKey(e), start) {
      FilterMembers(all, NotBelow(f, start), e);
    }
  }

  // ---------------------------------------------------------------- one grant

  function Render(f: Formats, granteeText: ByteString, k: GrantKey, grant: Grant): (r: Option<GrantAuthorization>) {
    if grant.authorization == None then None
    else
      match f.addressToText(k.granter)
      case None => None
      case Some(granter) => Some(GrantAuthorization(granter, granteeText, grant.authorization.value, grant.expiration))
  }

  /** Every entry points at a grant in the primary map. */
  predicate Stored(m: map<GrantKey, Grant>, es: seq<GrantIndexKey>) {
    forall i :: 0 <= i < |es| ==> es[i].key in m
  }

  /** All grants behind a run of index entries, unless one cannot be rendered. */
  function RenderAll(f: Formats, granteeText: ByteString, m: map<GrantKey, Grant>, es: seq<GrantIndexKey>)
    : (r: Option<seq<GrantAuthorization>>)
    requires Stored(m, es)
    ensures r.Some? ==> |r.value| == |es|
  {
    if es == [] then Some([])
    else
      var n := |es| - 1;
      match RenderAll(f, granteeText, m, es[..n])
      case None => None
      case Some(gs) =>
        match Render(f, granteeText, es[n].key, m[es[n].key])
        case None => None
        case Some(g) => Some(gs + [g])
  }

  /** What a rendered page says about each grant: its granter, the grantee as asked for,
      and the authorization and expiration stored in the primary map. It exists exactly
      if every granter has a text and every grant an authorization. */
  lemma {:induction false} RenderedGrants(f: Formats, granteeText: ByteString, m: map<GrantKey, Grant>,
                                         es: seq<GrantIndexKey>)
    requires Stored(m, es)
    ensures RenderAll(f, granteeText, m, es).Some? <==>
            forall i :: 0 <= i < |es| ==> m[es[i].key].authorization.Some? && f.addressToText(es[i].key.granter).Some?
    ensures RenderAll(f, granteeText, m, es).Some? ==>
              forall i :: 0 <= i < |es| ==>
                var g := RenderAll(f, granteeText, m, es).value[i];
                && Some(g.granter) == f.addressToText(es[i].key.granter)
                && g.grantee == granteeText
                && Some(g.authorization) == m[es[i].key].authorization
                && g.expiration == m[es[i].key].expiration
    decreases |es|
  {
    if es != [] {
      var n := |es| - 1;
      RenderedGrants(f, granteeText, m, es[..n]);
      assert forall i :: 0 <= i < n ==> es[..n][i] == es[i];
      assert es[n] in es;
    }
  }

  lemma {:induction false} RenderFails(f: Formats, granteeText: ByteString, m: map<GrantKey, Grant>,
                                      es: seq<GrantIndexKey>, n: nat)
    requires n <= |es| && Stored(m, es)
    requires RenderAll(f, granteeText, m, es[..n]) == None
    ensures RenderAll(f, granteeText, m, es) == None
    decreases |es|
  {
    if n == |es| {
      assert es[..n] == es;
    } else {
      assert es[..|es| - 1][..n] == es[..n];
      RenderFails(f, granteeText, m, es[..|es| - 1], n);
    }
  }

  lemma RenderSnoc(f: Formats, granteeText: ByteString, m: map<GrantKey, Grant>, es: seq<GrantIndexKey>,
                   e: GrantIndexKey)
    requires e.key in m && Stored(m, es)
    ensures RenderAll(f, granteeText, m, es + [e]) ==
            match RenderAll(f, granteeText, m, es)
            case None => None
            case Some(gs) =>
              match Render(f, granteeText, e.key, m[e.key])
              case None => None
              case Some(g) => Some(gs + [g])
  {
    assert (es + [e])[..|es|] == es;
  }

  // ---------------------------------------------------------------- answers

  /** Where a loop that stops at `limit` matches stops: right behind the last of them. */
  function StopAt<T>(es: seq<T>, p: T -> bool, limit: nat): (n: nat)
    ensures n <= |es|
  {
    if limit == 0 || es == [] then 0
    else 1 + StopAt(es[1..], p, if p(es[0]) then limit - 1 else limit)
  }

  lemma {:induction false} StopAtTakesLimit<T>(es: seq<T>, p: T -> bool, limit: nat)
    ensures Filter(es[..StopAt(es, p, limit)], p) == Filter(es, p)[..Min(limit, |Filter(es, p)|)]
    ensures StopAt(es, p, limit) < |es| ==> limit <= |Filter(es, p)|
    decreases |es|
  {
    var n := StopAt(es, p, limit);
    if limit == 0 || es == [] {
      assert es[..n] == [];
    } else {
      var mine := p(es[0]);
      var head := if mine then [es[0]] else [];
      var rest := if mine then limit - 1 else limit;
      var tail := Filter(es[1..], p);
      StopAtTakesLimit(es[1..], p, rest);
      assert es[..n][1..] == es[1..][..n - 1] && es[..n][0] == es[0];
      assert Filter(es[..n], p) == head + tail[..Min(rest, |tail|)];
      assert Filter(es, p) == head + tail;
      if mine {
        assert (head + tail)[..Min(limit, 1 + |tail|)] == head + tail[..Min(rest, |tail|)];
      } else {
        assert head + tail == tail;
      }
    }
  }

  /** The entry in front of the stop is the last one taken. */
  lemma {:induction false} StopAtLast<T>(es: seq<T>, p: T -> bool, limit: nat)
    requires 0 < limit <= |Filter(es, p)|
    ensures var n := StopAt(es, p, limit);
            0 < n && es[n - 1] == Filter(es, p)[limit - 1]
    decreases |es|
  {
    var rest := if p(es[0]) then limit - 1 else limit;
    if rest > 0 {
      StopAtLast(es[1..], p, rest);
    }
  }

  /** A page out of the entries a path visits: the first `limit` of them for the grantee,
      a resume key for the entry behind the last one taken, and the count on request. */
  function PageFrom(f: Formats, granteeText: ByteString, m: map<GrantKey, Grant>, grantee: Address,
                    visited: seq<GrantIndexKey>, limit: nat, countTotal: bool): (r: Option<GrantsPage>)
    requires Stored(m, visited)
  {
    var p := OfGrantee(grantee);
    var stop := StopAt(visited, p, limit);
    MembersStored(visited, p, m);
    var mine := Filter(visited, p);
    match RenderAll(f, granteeText, m, mine[..Min(limit, |mine|)])
    case None => None
    case Some(grants) =>
      var total := if countTotal then |mine| else 0;
      if stop == |visited| then Some(GrantsPage(grants, None, total))
      else
        match f.resumeKey(visited[stop])
        case None => None
        case Some(next) => Some(GrantsPage(grants, Some(next), total))
  }

  lemma MembersStored(es: seq<GrantIndexKey>, p: GrantIndexKey -> bool, m: map<GrantKey, Grant>)
    requires Stored(m, es)
    ensures Stored(m, Filter(es, p))
  {
    var mine := Filter(es, p);
    forall i | 0 <= i < |mine| ensures mine[i].key in m {
      FilterMembers(es, p, mine[i]);
    }
  }

  /** The loop both paths share: it advances over the visited entries until it has
      `limit` grants and looks each grant up in the primary map. No lookup fails. */
  method TakeGrants(f: Formats, granteeText: ByteString, m: map<GrantKey, Grant>, grantee: Address,
                    visited: seq<GrantIndexKey>, limit: nat) returns (i: nat, grants: Option<seq<GrantAuthorization>>)
    requires Stored(m, visited)
    ensures Stored(m, Filter(visited, OfGrantee(grantee)))
    ensures var mine := Filter(visited, OfGrantee(grantee));
            grants == RenderAll(f, granteeText, m, mine[..Min(limit, |mine|)])
    ensures grants.Some? ==> i == StopAt(visited, OfGrantee(grantee), limit)
  {
    hide RenderAll, Render, Filter;
    var p := OfGrantee(grantee);
    ghost var mine := Filter(visited, p);
    MembersStored(visited, p, m);
    StopAtTakesLimit(visited, p, limit);
    ghost var stop := StopAt(visited, p, limit);
    var collected: seq<GrantAuthorization> := [];
    var count := 0;
    i := 0;
    ghost var taken: seq<GrantIndexKey> := [];
    StartsEmpty(f, granteeText, m, p);
    while i < |visited| && count < limit
      invariant i <= stop <= |visited| && count <= limit
      invariant stop - i == StopAt(visited[i..], p, limit - count)
      invariant taken == Filter(visited[..i], p) && |taken| == count
      invariant Stored(m, taken)
      invariant RenderAll(f, granteeText, m, taken) == Some(collected)
      decreases |visited| - i
    {
      var e := visited[i];
      assert e in visited && visited[..i + 1] == visited[..i] + [e];
      assert visited[i..][0] == e && visited[i..][1..] == visited[i + 1..];
      FilterSnoc(visited[..i], e, p);
      i := i + 1;
      if e.grantee != grantee {
        continue;
      }
      RenderSnoc(f, granteeText, m, taken, e);
      taken := taken + [e];
      var g := Render(f, granteeText, e.key, m[e.key]);
      if g == None {
        TakenIsPrefix(visited, p, i, limit);
        RenderFails(f, granteeText, m, mine[..Min(limit, |mine|)], |taken|);
        return i, None;
      }
      collected := collected + [g.value];
      count := count + 1;
    }
    grants := Some(collected);
  }

  /** A page: the grants, the resume key and, if asked for, the count of the rest. */
  method CollectPage(f: Formats, granteeText: ByteString, m: map<GrantKey, Grant>, grantee: Address,
                     visited: seq<GrantIndexKey>, limit: nat, countTotal: bool) returns (r: Option<GrantsPage>)
    requires Stored(m, visited)
    ensures r == PageFrom(f, granteeText, m, grantee, visited, limit, countTotal)
  {
    hide RenderAll, Filter, StopAt;
    var i, grants := TakeGrants(f, granteeText, m, grantee, visited, limit);
    if grants == None {
      return None;
    }
    var nextKey: Option<ByteString> := None;
    if i < |visited| {
      nextKey := f.resumeKey(visited[i]);
      if nextKey == None {
        return None;
      }
    }
    var total := 0;
    if countTotal {
      StopAtTakesLimit(visited, OfGrantee(grantee), limit);
      CountRest(visited, i, OfGrantee(grantee));
      total := CountMore(visited, i, grantee, |grants.value|);
    }
    r := Some(GrantsPage(grants.value, nextKey, total));
  }

  lemma StartsEmpty(f: Formats, granteeText: ByteString, m: map<GrantKey, Grant>, p: GrantIndexKey -> bool)
    ensures Filter([], p) == [] && RenderAll(f, granteeText, m, []) == Some([])
  {
  }

  lemma TakenIsPrefix(visited: seq<GrantIndexKey>, p: GrantIndexKey -> bool, i: nat, limit: nat)
    requires i <= |visited| && |Filter(visited[..i], p)| <= limit
    ensures var taken, mine := Filter(visited[..i], p), Filter(visited, p);
            |taken| <= Min(limit, |mine|) && mine[..Min(limit, |mine|)][..|taken|] == taken
  {
    assert visited == visited[..i] + visited[i..];
    FilterConcat(visited[..i], visited[i..], p);
  }

  lemma CountRest(visited: seq<GrantIndexKey>, i: nat, p: GrantIndexKey -> bool)
    requires i <= |visited|
    ensures |Filter(visited, p)| == |Filter(visited[..i], p)| + |Filter(visited[i..], p)|
  {
    assert visited == visited[..i] + visited[i..];
    FilterConcat(visited[..i], visited[i..], p);
  }

  /** The counting loop behind the page. */
  method CountMore(visited: seq<GrantIndexKey>, from: nat, grantee: Address, start: nat) returns (total: nat)
    requires from <= |visited|
    ensures total == start + |Filter(visited[from..], OfGrantee(grantee))|
  {
    total := start;
    for i := from to |visited|
      invariant total + |Filter(visited[i..], OfGrantee(grantee))|
             == start + |Filter(visited[from..], OfGrantee(grantee))|
    {
      assert visited[i..][0] == visited[i] && visited[i..][1..] == visited[i + 1..];
      if visited[i].grantee == grantee {
        total := total + 1;
      }
    }
  }

  // ---------------------------------------------------------------- the two paths

  /** The replica's authz map: the primary grants and the index over them. */
  ghost predicate Indexed(m: map<GrantKey, Grant>, index: set<GrantIndexKey>) {
    forall e :: e in index <==> e.key in m && e == IndexGrant(e.key)
  }

  /** The index invariant of the indexed map says just that. */
  lemma IndexedMapIsIndexed(authorizations: IndexedMap<GrantKey, Grant, GrantIndexKey>)
    requires authorizations.Valid() && authorizations.indexKey == IndexGrant
    ensures Indexed(authorizations.primary, authorizations.index)
  {
  }

  function StandardVisited(f: Formats, index: set<GrantIndexKey>, grantee: Address, page: Option<PageRequest>)
    : (es: seq<GrantIndexKey>)
    requires Distinct(index, f.storedKey)
  {
    var es := GranteeEntries(f, index, grantee);
    es[Min(OffsetOf(page), |es|)..]
  }

  /** GranteeGrants without a page key: the grantee's part of the index, `offset` skipped. */
  method StandardPage(f: Formats, authorizations: IndexedMap<GrantKey, Grant, GrantIndexKey>, granteeText: ByteString,
                      grantee: Address, page: Option<PageRequest>) returns (r: Option<GrantsPage>)
    requires Distinct(authorizations.index, f.storedKey)
    requires authorizations.Valid() && authorizations.indexKey == IndexGrant
    ensures var visited := StandardVisited(f, authorizations.index, grantee, page);
            && Stored(authorizations.primary, visited)
            && r == PageFrom(f, granteeText, authorizations.primary, grantee, visited, LimitOf(page), CountsTotal(page))
  {
    hide PageFrom, GranteeEntries, Ascending, IndexGrant;
    IndexedMapIsIndexed(authorizations);
    var es := GranteeEntries(f, authorizations.index, grantee);
    var at := 0;
    if page.Some? {
      while at < page.value.offset && at < |es|
        invariant at <= Min(page.value.offset, |es|)
      {
        at := at + 1;
      }
    }
    var visited := es[at..];
    assert forall e :: e in visited ==> e in es;
    r := CollectPage(f, granteeText, authorizations.primary, grantee, visited, LimitOf(page), CountsTotal(page));
  }

  /** GranteeGrants with a page key: the whole index from the key on, other grantees
      passed over. */
  method RawPage(f: Formats, authorizations: IndexedMap<GrantKey, Grant, GrantIndexKey>, granteeText: ByteString,
                 grantee: Address, page: PageRequest) returns (r: Option<GrantsPage>)
    requires Distinct(authorizations.index, f.storedKey)
    requires authorizations.Valid() && authorizations.indexKey == IndexGrant
    ensures var visited := EntriesFrom(f, authorizations.index, page.key);
            && Stored(authorizations.primary, visited)
            && r == PageFrom(f, granteeText, authorizations.primary, grantee, visited,
                             LimitOf(Some(page)), page.countTotal)
  {
    hide PageFrom, EntriesFrom;
    IndexedMapIsIndexed(authorizations);
    EntriesFromMembers(f, authorizations.index, page.key);
    var visited := EntriesFrom(f, authorizations.index, page.key);
    r := CollectPage(f, granteeText, authorizations.primary, grantee, visited, LimitOf(Some(page)), page.countTotal);
  }

  // ---------------------------------------------------------------- what the pages are

  lemma {:induction false} FilterAll<T>(xs: seq<T>, p: T -> bool)
    requires forall x :: x in xs ==> p(x)
    ensures Filter(xs, p) == xs
  {
    if xs != [] {
      assert xs[0] in xs;
      FilterAll(xs[1..], p);
    }
  }

  lemma {:induction false} StopAtWhenAllMatch<T>(xs: seq<T>, p: T -> bool, limit: nat)
    requires forall x :: x in xs ==> p(x)
    ensures StopAt(xs, p, limit) == Min(limit, |xs|)
  {
    if limit > 0 && xs != [] {
      assert xs[0] in xs;
      StopAtWhenAllMatch(xs[1..], p, limit - 1);
    }
  }

  /** A page that is the slice [from, from + limit) of the entries: their grants in order, a
      next key exactly if entries are left behind, naming the first of them, and a total,
      when asked for, that leaves out what was skipped. */
  ghost predicate IsSlice(f: Formats, granteeText: ByteString, m: map<GrantKey, Grant>, es: seq<GrantIndexKey>,
                          from: nat, limit: nat, countTotal: bool, page: GrantsPage)
    requires from <= |es| && Stored(m, es)
  {
    var to := Min(from + limit, |es|);
    && RenderAll(f, granteeText, m, es[from..to]) == Some(page.grants)
    && (page.nextKey.Some? <==> to < |es|)
    && (to < |es| ==> page.nextKey == f.resumeKey(es[to]))
    && page.total == if countTotal then |es| - from else 0
  }

  /** A page over entries that all belong to the grantee. */
  lemma PageOfOwnEntries(f: Formats, granteeText: ByteString, m: map<GrantKey, Grant>, grantee: Address,
                         es: seq<GrantIndexKey>, from: nat, limit: nat, countTotal: bool)
    requires Stored(m, es) && from <= |es| && forall e :: e in es ==> e.grantee == grantee
    ensures Stored(m, es[from..])
    ensures var r := PageFrom(f, granteeText, m, grantee, es[from..], limit, countTotal);
            r.Some? ==> IsSlice(f, granteeText, m, es, from, limit, countTotal, r.value)
  {
    hide RenderAll, Filter, StopAt;
    var p, visited := OfGrantee(grantee), es[from..];
    FilterAll(visited, p);
    StopAtWhenAllMatch(visited, p, limit);
    assert visited[..Min(limit, |visited|)] == es[from..Min(from + limit, |es|)];
  }

  function OffsetOf(page: Option<PageRequest>): (n: nat) {
    if page.Some? then page.value.offset else 0
  }

  /** The standard page is the slice [offset, offset + limit) of the grantee's entries in
      index order. */
  lemma StandardPageIsSlice(f: Formats, m: map<GrantKey, Grant>, index: set<GrantIndexKey>, granteeText: ByteString,
                            grantee: Address, page: Option<PageRequest>)
    requires Distinct(index, f.storedKey) && Indexed(m, index)
    ensures Stored(m, GranteeEntries(f, index, grantee)) && Stored(m, StandardVisited(f, index, grantee, page))
    ensures var es, limit, countTotal := GranteeEntries(f, index, grantee), LimitOf(page), CountsTotal(page);
            var visited := StandardVisited(f, index, grantee, page);
            var r := PageFrom(f, granteeText, m, grantee, visited, limit, countTotal);
            r.Some? ==> IsSlice(f, granteeText, m, es, Min(OffsetOf(page), |es|), limit, countTotal, r.value)
  {
    hide IsSlice, GranteeEntries, PageFrom, Ascending, LimitOf, CountsTotal, IndexGrant;
    var es := GranteeEntries(f, index, grantee);
    assert Stored(m, es) by {
      assert forall i :: 0 <= i < |es| ==> es[i] in es;
    }
    PageOfOwnEntries(f, granteeText, m, grantee, es, Min(OffsetOf(page), |es|), LimitOf(page), CountsTotal(page));
  }

  /** The grantee's entries at or behind a raw key. */
  lemma RawMineExact(f: Formats, index: set<GrantIndexKey>, grantee: Address, start: ByteString)
    requires Distinct(index, f.storedKey)
    ensures var mine := Filter(EntriesFrom(f, index, start), OfGrantee(grantee));
            && Ascending(mine, f.storedKey)
            && forall e :: e in mine <==> e in index && e.grantee == grantee && !LexLess(f.storedKey(e), start)
  {
    hide EntriesFrom;
    var es := EntriesFrom(f, index, start);
    EntriesFromMembers(f, index, start);
    FilterAscending(es, OfGrantee(grantee), f.storedKey);
    forall e ensures e in Filter(es, OfGrantee(grantee)) <==> e in es && e.grantee == grantee {
      FilterMembers(es, OfGrantee(grantee), e);
    }
  }

  /** The first index entry behind `last`, whoever its grantee is. */
  ghost predicate IsNext(f: Formats, index: set<GrantIndexKey>, last: GrantIndexKey, e: GrantIndexKey) {
    && e in index && LexLess(f.storedKey(last), f.storedKey(e))
    && forall x :: x in index && LexLess(f.storedKey(last), f.storedKey(x)) ==> !LexLess(f.storedKey(x), f.storedKey(e))
  }

  /** Where the raw path stops: at the end unless it has taken `limit` entries and the index
      goes on behind the last of them. */
  lemma RawStop(f: Formats, index: set<GrantIndexKey>, grantee: Address, start: ByteString, limit: nat)
    requires Distinct(index, f.storedKey) && limit > 0
    ensures var es := EntriesFrom(f, index, start);
            var mine := Filter(es, OfGrantee(grantee));
            var stop := StopAt(es, OfGrantee(grantee), limit);
            && (stop < |es| <==>
                  |mine| >= limit && exists e :: e in index && LexLess(f.storedKey(mine[limit - 1]), f.storedKey(e)))
            && (stop < |es| ==> IsNext(f, index, mine[limit - 1], es[stop]))
  {
    hide EntriesFrom, Filter, StopAt, LexLess;
    EntriesFromMembers(f, index, start);
    var es := EntriesFrom(f, index, start);
    var p := OfGrantee(grantee);
    var mine := Filter(es, p);
    var stop := StopAt(es, p, limit);
    StopAtTakesLimit(es, p, limit);
    if |mine| >= limit {
      StopAtLast(es, p, limit);
      var last := es[stop - 1];
      assert last in es;
      forall x | x in index && LexLess(f.storedKey(last), f.storedKey(x))
        ensures stop < |es| && !LexLess(f.storedKey(x), f.storedKey(es[stop]))
      {
        BehindIsLater(f, es, start, last, x, index);
        var j :| 0 <= j < |es| && es[j] == x;
        LaterIndex(es, f.storedKey, stop - 1, j);
        if j == stop {
          LexIrreflexive(f.storedKey(x));
        } else {
          LexAsymmetric(f.storedKey(es[stop]), f.storedKey(x));
        }
      }
      if stop < |es| {
        assert es[stop] in es;
      }
    }
  }

  lemma BehindIsLater(f: Formats, es: seq<GrantIndexKey>, start: ByteString, last: GrantIndexKey, x: GrantIndexKey,
                      index: set<GrantIndexKey>)
    requires forall e :: e in es <==> e in index && !LexLess(f.storedKey(e), start)
    requires last in es && x in index && LexLess(f.storedKey(last), f.storedKey(x))
    ensures x in es
  {
    if LexLess(f.storedKey(x), start) {
      LexTransitive(f.storedKey(last), f.storedKey(x), start);
    }
  }

  lemma LaterIndex<T>(es: seq<T>, enc: T -> ByteString, i: nat, j: nat)
    requires Ascending(es, enc) && i < |es| && j < |es| && LexLess(enc(es[i]), enc(es[j]))
    ensures i < j
  {
    LexIrreflexive(enc(es[i]));
    if j < i {
      LexAsymmetric(enc(es[j]), enc(es[i]));
    }
  }

  /** The raw page holds the first `limit` of the grantee's entries at or behind the key. A
      next key is given if and only if there are so many of them and the index, with all
      its grantees, goes on behind the last one taken; it then names the entry right
      behind. So without a next key nothing of the grantee is left, but with one there
      need not be anything. */
  lemma RawPageIsPrefix(f: Formats, m: map<GrantKey, Grant>, index: set<GrantIndexKey>, granteeText: ByteString,
                        grantee: Address, page: PageRequest)
    requires Distinct(index, f.storedKey) && Indexed(m, index)
    ensures Stored(m, EntriesFrom(f, index, page.key))
    ensures var limit := LimitOf(Some(page));
            var mine := Filter(EntriesFrom(f, index, page.key), OfGrantee(grantee));
            var r := PageFrom(f, granteeText, m, grantee, EntriesFrom(f, index, page.key), limit, page.countTotal);
            && Stored(m, mine)
            && (r.Some? ==>
                  && RenderAll(f, granteeText, m, mine[..Min(limit, |mine|)]) == Some(r.value.grants)
                  && (r.value.nextKey.Some? <==>
                        && |mine| >= limit
                        && exists e :: e in index && LexLess(f.storedKey(mine[limit - 1]), f.storedKey(e)))
                  && (r.value.nextKey.Some? ==>
                        exists e :: IsNext(f, index, mine[limit - 1], e) && r.value.nextKey == f.resumeKey(e))
                  && (r.value.nextKey == None ==> |mine| <= limit && |r.value.grants| == |mine|)
                  && r.value.total == if page.countTotal then |mine| else 0)
  {
    hide RenderAll, EntriesFrom, Filter, StopAt, LexLess, IsNext, LimitOf;
    EntriesFromMembers(f, index, page.key);
    var es := EntriesFrom(f, index, page.key);
    assert Stored(m, es) by {
      assert forall i :: 0 <= i < |es| ==> es[i] in es;
    }
    var p := OfGrantee(grantee);
    MembersStored(es, p, m);
    var limit := LimitOf(Some(page));
    RawStop(f, index, grantee, page.key, limit);
    StopAtTakesLimit(es, p, limit);
    if StopAt(es, p, limit) == |es| {
      assert es[..|es|] == es;
    }
  }

  /** From a raw key at or before the grantee's first entry, the raw path sees all of the
      grantee's entries. */
  lemma RawSeesAll(f: Formats, index: set<GrantIndexKey>, grantee: Address, start: ByteString)
    requires Distinct(index, f.storedKey)
    requires forall e :: e in index && e.grantee == grantee ==> !LexLess(f.storedKey(e), start)
    ensures Filter(EntriesFrom(f, index, start), OfGrantee(grantee)) == GranteeEntries(f, index, grantee)
  {
    hide EntriesFrom, GranteeEntries, Filter, Ascending, LexLess;
    RawMineExact(f, index, grantee, start);
    var mine := Filter(EntriesFrom(f, index, start), OfGrantee(grantee));
    AscendingUnique(mine, GranteeEntries(f, index, grantee), f.storedKey);
  }

  /** When a page fails: a grant cannot be rendered, or the entry behind the page has no
      resume key. */
  lemma PageFailsIff(f: Formats, granteeText: ByteString, m: map<GrantKey, Grant>, grantee: Address,
                     visited: seq<GrantIndexKey>, limit: nat, countTotal: bool)
    requires Stored(m, visited)
    ensures Stored(m, Filter(visited, OfGrantee(grantee)))
    ensures var mine, stop := Filter(visited, OfGrantee(grantee)), StopAt(visited, OfGrantee(grantee), limit);
            PageFrom(f, granteeText, m, grantee, visited, limit, countTotal) == None <==>
            || RenderAll(f, granteeText, m, mine[..Min(limit, |mine|)]) == None
            || (stop < |visited| && f.resumeKey(visited[stop]) == None)
  {
    hide RenderAll, Filter, StopAt;
    MembersStored(visited, OfGrantee(grantee), m);
  }

  /** Of two first entries behind another there is only one. */
  lemma NextUnique(f: Formats, index: set<GrantIndexKey>, last: GrantIndexKey, e: GrantIndexKey, e': GrantIndexKey)
    requires Distinct(index, f.storedKey) && IsNext(f, index, last, e) && IsNext(f, index, last, e')
    ensures e == e'
  {
    LexTotal(f.storedKey(e), f.storedKey(e'));
  }

  // ---------------------------------------------------------------- pages of the primary map

  function KeysOf(es: seq<GrantIndexKey>): (ks: seq<GrantKey>)
    ensures |ks| == |es| && forall i :: 0 <= i < |es| ==> ks[i] == es[i].key
  {
    seq(|es|, i requires 0 <= i < |es| => es[i].key)
  }

  ghost predicate NoRepeats(ks: seq<GrantKey>) {
    forall i, j :: 0 <= i < j < |ks| ==> ks[i] != ks[j]
  }

  /** The answer shows the grant that the primary map holds under the key. */
  ghost predicate Shows(f: Formats, granteeText: ByteString, m: map<GrantKey, Grant>, k: GrantKey,
                        g: GrantAuthorization) {
    && k in m && Some(g.granter) == f.addressToText(k.granter) && g.grantee == granteeText
    && Some(g.authorization) == m[k].authorization && g.expiration == m[k].expiration
  }

  lemma IndexedKeysDiffer(f: Formats, m: map<GrantKey, Grant>, index: set<GrantIndexKey>, es: seq<GrantIndexKey>)
    requires Indexed(m, index) && Ascending(es, f.storedKey) && forall e :: e in es ==> e in index
    ensures NoRepeats(KeysOf(es))
  {
    hide LexLess;
    forall i, j | 0 <= i < j < |es| ensures es[i].key != es[j].key {
      AscendingDistinct(es, f.storedKey, i, j);
      assert es[i] in es && es[j] in es;
    }
  }

  /** The entries of a grantee stand for exactly the grants of the primary map that name
      the grantee, each once. */
  lemma GranteeKeysExact(f: Formats, m: map<GrantKey, Grant>, index: set<GrantIndexKey>, grantee: Address)
    requires Distinct(index, f.storedKey) && Indexed(m, index)
    ensures var ks := KeysOf(GranteeEntries(f, index, grantee));
            NoRepeats(ks) && forall k :: k in ks <==> k in m && k.grantee == grantee
  {
    var es := GranteeEntries(f, index, grantee);
    var ks := KeysOf(es);
    hide GranteeEntries;
    IndexedKeysDiffer(f, m, index, es);
    forall k ensures k in ks <==> k in m && k.grantee == grantee {
      if k in m && k.grantee == grantee {
        assert GrantIndexKey(grantee, k) in es;
        var i :| 0 <= i < |es| && es[i] == GrantIndexKey(grantee, k);
        assert ks[i] == k;
      }
      if k in ks {
        var i :| 0 <= i < |ks| && ks[i] == k;
        assert es[i] in es;
      }
    }
  }

  /** A page of grants: those under the keys from `from` on, at most `limit`, a next key
      exactly if there are more, and on request the count without what was skipped. */
  ghost predicate Serves(f: Formats, granteeText: ByteString, m: map<GrantKey, Grant>, ks: seq<GrantKey>,
                         from: nat, limit: nat, countTotal: bool, page: GrantsPage)
    requires from <= |ks|
  {
    && |page.grants| == Min(limit, |ks| - from)
    && (forall i :: 0 <= i < |page.grants| ==> Shows(f, granteeText, m, ks[from + i], page.grants[i]))
    && (page.nextKey.Some? <==> from + limit < |ks|)
    && page.total == if countTotal then |ks| - from else 0
  }

  lemma SliceServes(f: Formats, granteeText: ByteString, m: map<GrantKey, Grant>, es: seq<GrantIndexKey>,
                    from: nat, limit: nat, countTotal: bool, page: GrantsPage)
    requires from <= |es| && Stored(m, es) && IsSlice(f, granteeText, m, es, from, limit, countTotal, page)
    ensures Serves(f, granteeText, m, KeysOf(es), from, limit, countTotal, page)
  {
    hide RenderAll;
    var piece := es[from..Min(from + limit, |es|)];
    RenderedGrants(f, granteeText, m, piece);
    assert forall i :: 0 <= i < |piece| ==> piece[i] == es[from + i];
  }

  /** What the standard path answers, on the primary map: the grants that name the grantee,
      each once, in index order; of these the page shows the ones from the offset on, as
      many as the limit says or 100. */
  lemma StandardPageServes(f: Formats, m: map<GrantKey, Grant>, index: set<GrantIndexKey>, granteeText: ByteString,
                           grantee: Address, page: Option<PageRequest>)
    requires Distinct(index, f.storedKey) && Indexed(m, index)
    ensures Stored(m, StandardVisited(f, index, grantee, page))
    ensures var ks := KeysOf(GranteeEntries(f, index, grantee));
            NoRepeats(ks) && forall k :: k in ks <==> k in m && k.grantee == grantee
    ensures var ks, visited := KeysOf(GranteeEntries(f, index, grantee)), StandardVisited(f, index, grantee, page);
            var r := PageFrom(f, granteeText, m, grantee, visited, LimitOf(page), CountsTotal(page));
            var from := Min(if page.Some? then page.value.offset else 0, |ks|);
            var limit := if page.Some? && page.value.limit > 0 then page.value.limit else 100;
            var countTotal := page.Some? && page.value.countTotal;
            r.Some? ==> Serves(f, granteeText, m, ks, from, limit, countTotal, r.value)
  {
    hide GranteeEntries, PageFrom, IsSlice, Serves, Distinct, Indexed, NoRepeats, KeysOf, Stored;
    GranteeKeysExact(f, m, index, grantee);
    StandardPageIsSlice(f, m, index, granteeText, grantee, page);
    var es, visited := GranteeEntries(f, index, grantee), StandardVisited(f, index, grantee, page);
    var r := PageFrom(f, granteeText, m, grantee, visited, LimitOf(page), CountsTotal(page));
    if r.Some? {
      SliceServes(f, granteeText, m, es, Min(OffsetOf(page), |es|), LimitOf(page), CountsTotal(page), r.value);
    }
  }

  /** What the raw path answers, on the primary map: of the grants that name the grantee,
      those whose index entry is not below the key, each once, in index order, as many as
      the limit says or 100. */
  lemma RawPageServes(f: Formats, m: map<GrantKey, Grant>, index: set<GrantIndexKey>, granteeText: ByteString,
                      grantee: Address, page: PageRequest)
    requires Distinct(index, f.storedKey) && Indexed(m, index)
    ensures Stored(m, EntriesFrom(f, index, page.key))
    ensures var ks := KeysOf(Filter(EntriesFrom(f, index, page.key), OfGrantee(grantee)));
            && NoRepeats(ks)
            && forall k :: k in ks <==>
                 k in m && k.grantee == grantee && !LexLess(f.storedKey(GrantIndexKey(grantee, k)), page.key)
    ensures var visited := EntriesFrom(f, index, page.key);
            var ks := KeysOf(Filter(visited, OfGrantee(grantee)));
            var r := PageFrom(f, granteeText, m, grantee, visited, LimitOf(Some(page)), page.countTotal);
            var limit := if page.limit > 0 then page.limit else 100;
            r.Some? ==>
              && |r.value.grants| == Min(limit, |ks|)
              && (forall i :: 0 <= i < |r.value.grants| ==> Shows(f, granteeText, m, ks[i], r.value.grants[i]))
              && r.value.total == if page.countTotal then |ks| else 0
  {
    hide EntriesFrom, PageFrom, RenderAll, Distinct, Filter, LexLess;
    RawKeysExact(f, m, index, grantee, page.key);
    RawPageIsPrefix(f, m, index, granteeText, grantee, page);
    var mine := Filter(EntriesFrom(f, index, page.key), OfGrantee(grantee));
    var piece := mine[..Min(LimitOf(Some(page)), |mine|)];
    assert Stored(m, piece);
    RenderedGrants(f, granteeText, m, piece);
  }

  lemma RawKeysExact(f: Formats, m: map<GrantKey, Grant>, index: set<GrantIndexKey>, grantee: Address,
                     start: ByteString)
    requires Distinct(index, f.storedKey) && Indexed(m, index)
    ensures var ks := KeysOf(Filter(EntriesFrom(f, index, start), OfGrantee(grantee)));
            && NoRepeats(ks)
            && forall k :: k in ks <==>
                 k in m && k.grantee == grantee && !LexLess(f.storedKey(GrantIndexKey(grantee, k)), start)
  {
    hide EntriesFrom, Filter, LexLess, Distinct, Ascending;
    RawMineExact(f, index, grantee, start);
    var es := Filter(EntriesFrom(f, index, start), OfGrantee(grantee));
    var ks := KeysOf(es);
    IndexedKeysDiffer(f, m, index, es);
    forall k
      ensures k in ks <==> k in m && k.grantee == grantee && !LexLess(f.storedKey(GrantIndexKey(grantee, k)), start)
    {
      if k in m && k.grantee == grantee && !LexLess(f.storedKey(GrantIndexKey(grantee, k)), start) {
        assert GrantIndexKey(grantee, k) in es;
        var i :| 0 <= i < |es| && es[i] == GrantIndexKey(grantee, k);
        assert ks[i] == k;
      }
      if k in ks {
        var i :| 0 <= i < |ks| && ks[i] == k;
        assert es[i] in es;
      }
    }
  }

  /** Exactly when the raw path fails: one of the grants it would give cannot be rendered,
      or it stops at an entry, of whatever grantee, that has no resume key. */
  lemma RawFailsIff(f: Formats, m: map<GrantKey, Grant>, index: set<GrantIndexKey>, granteeText: ByteString,
                    grantee: Address, page: PageRequest)
    requires Distinct(index, f.storedKey) && Indexed(m, index)
    ensures Stored(m, EntriesFrom(f, index, page.key))
    ensures Stored(m, Filter(EntriesFrom(f, index, page.key), OfGrantee(grantee)))
    ensures var visited, limit := EntriesFrom(f, index, page.key), LimitOf(Some(page));
            var mine := Filter(visited, OfGrantee(grantee));
            PageFrom(f, granteeText, m, grantee, visited, limit, page.countTotal) == None <==>
            || RenderAll(f, granteeText, m, mine[..Min(limit, |mine|)]) == None
            || (limit <= |mine| && exists e :: IsNext(f, index, mine[limit - 1], e) && f.resumeKey(e) == None)
  {
    hide RenderAll, EntriesFrom, PageFrom, Filter, StopAt, LexLess, LimitOf, Distinct;
    RawStored(f, m, index, page.key);
    var visited, limit := EntriesFrom(f, index, page.key), LimitOf(Some(page));
    PageFailsIff(f, granteeText, m, grantee, visited, limit, page.countTotal);
    RawStop(f, index, grantee, page.key, limit);
    var mine, stop := Filter(visited, OfGrantee(grantee)), StopAt(visited, OfGrantee(grantee), limit);
    if limit <= |mine| {
      var last := mine[limit - 1];
      forall e | IsNext(f, index, last, e) ensures stop < |visited| && e == visited[stop] {
        NextUnique(f, index, last, e, visited[stop]);
      }
    }
  }

  lemma RawStored(f: Formats, m: map<GrantKey, Grant>, index: set<GrantIndexKey>, start: ByteString)
    requires Distinct(index, f.storedKey) && Indexed(m, index)
    ensures Stored(m, EntriesFrom(f, index, start))
  {
    hide EntriesFrom, LexLess, Ascending;
    EntriesFromMembers(f, index, start);
    var es := EntriesFrom(f, index, start);
    assert forall i :: 0 <= i < |es| ==> es[i] in es;
  }

  /** Exactly when the standard path fails: one of the grants it would give cannot be
      rendered, or the grantee's first entry behind the page has no resume key. */
  lemma StandardFailsIff(f: Formats, m: map<GrantKey, Grant>, index: set<GrantIndexKey>, granteeText: ByteString,
                         grantee: Address, page: Option<PageRequest>)
    requires Distinct(index, f.storedKey) && Indexed(m, index)
    ensures Stored(m, StandardVisited(f, index, grantee, page))
    ensures var visited, limit := StandardVisited(f, index, grantee, page), LimitOf(page);
            PageFrom(f, granteeText, m, grantee, visited, limit, CountsTotal(page)) == None <==>
            || RenderAll(f, granteeText, m, visited[..Min(limit, |visited|)]) == None
            || (limit < |visited| && f.resumeKey(visited[limit]) == None)
  {
    hide RenderAll, GranteeEntries, PageFrom, Filter, StopAt, LimitOf, CountsTotal, Distinct, Ascending;
    StandardPageIsSlice(f, m, index, granteeText, grantee, page);
    var visited, limit := StandardVisited(f, index, grantee, page), LimitOf(page);
    assert forall e :: e in visited ==> e in GranteeEntries(f, index, grantee);
    FilterAll(visited, OfGrantee(grantee));
    StopAtWhenAllMatch(visited, OfGrantee(grantee), limit);
    PageFailsIff(f, granteeText, m, grantee, visited, limit, CountsTotal(page));
  }

  /** From any such key, the raw path and the standard path answer with the same grants and
      total. Whether they answer can differ only through resume keys: if one does and the
      other does not, some entry of the index has none. */
  lemma PathsAgree(f: Formats, m: map<GrantKey, Grant>, index: set<GrantIndexKey>, granteeText: ByteString,
                   grantee: Address, page: PageRequest)
    requires Distinct(index, f.storedKey) && Indexed(m, index) && page.offset == 0
    requires forall e :: e in index && e.grantee == grantee ==> !LexLess(f.storedKey(e), page.key)
    ensures Stored(m, EntriesFrom(f, index, page.key))
    ensures Stored(m, StandardVisited(f, index, grantee, Some(page)))
    ensures var limit, visited := LimitOf(Some(page)), StandardVisited(f, index, grantee, Some(page));
            var raw := PageFrom(f, granteeText, m, grantee, EntriesFrom(f, index, page.key), limit, page.countTotal);
            var std := PageFrom(f, granteeText, m, grantee, visited, limit, page.countTotal);
            && (raw.Some? && std.Some? ==>
                  raw.value.grants == std.value.grants && raw.value.total == std.value.total)
            && (raw.Some? != std.Some? ==> exists e :: e in index && f.resumeKey(e) == None)
  {
    hide RenderAll, EntriesFrom, GranteeEntries, PageFrom, Filter, Ascending, LexLess, LimitOf, Distinct;
    RawSeesAll(f, index, grantee, page.key);
    RawPageIsPrefix(f, m, index, granteeText, grantee, page);
    StandardPageIsSlice(f, m, index, granteeText, grantee, Some(page));
    var es := GranteeEntries(f, index, grantee);
    var to := Min(LimitOf(Some(page)), |es|);
    assert es[..to] == es[0..to] && StandardVisited(f, index, grantee, Some(page)) == es;
    RawFailsIff(f, m, index, granteeText, grantee, page);
    StandardFailsIff(f, m, index, granteeText, grantee, Some(page));
    assert forall i :: 0 <= i < |es| ==> es[i] in es;
  }
}
