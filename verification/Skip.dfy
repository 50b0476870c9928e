/** Skipping a record whose field number the reader does not know. The source counts
    group nesting in one loop; here that loop is matched against the grammar of records,
    in which groups nest. */
module Skip {
  import opened Options
  import opened Words
  import opened Varint

  datatype SkipResult = SkipOk(end: nat) | SkipErr(error: WireError)

  function WireType(wire: Uint64): (t: nat)
    ensures t < 8
  {
    wire % 8
  }

  /** One item of the loop: how many bytes of `s` it takes and how deep it leaves us.
      The count may run past the end of `s`; the caller finds that out. */
  datatype Item = Item(size: nat, depth: nat) | BadItem(error: WireError)

  function ScanItem(s: ByteString, depth: nat): (r: Item)
    ensures r.Item? ==> 0 < r.size < |s| + TWO63
  {
    match ParseVarint(s)
    case VarintErr(e) => BadItem(e)
    case VarintOk(wire, a) =>
      match WireType(wire)
      case 0 =>
        (match ParseVarint(s[a..])
         case VarintErr(e) => BadItem(e)
         case VarintOk(_, b) => Item(a + b, depth))
      case 1 => Item(a + 8, depth)
      case 2 =>
        (match ParseVarint(s[a..])
         case VarintErr(e) => BadItem(e)
         case VarintOk(v, b) =>
           if ToInt64(v) < 0 then BadItem(InvalidLength) else Item(a + b + ToInt64(v), depth))
      case 3 => Item(a, depth + 1)
      case 4 => if depth == 0 then BadItem(UnexpectedEndOfGroup) else Item(a, depth - 1)
      case 5 => Item(a + 4, depth)
      case _ => BadItem(IllegalWireType)
  }

  /** The loop from position `pos` of the buffer, with `s` still ahead and `depth` groups
      open. Positions are signed 64-bit numbers. */
  function SkipFrom(s: ByteString, pos: nat, depth: nat): (r: SkipResult)
    requires pos + |s| < TWO63
    ensures r.SkipOk? ==> pos < r.end < TWO63
    decreases |s|
  {
    if s == [] then SkipErr(UnexpectedEof)
    else
      match ScanItem(s, depth)
      case BadItem(e) => SkipErr(e)
      case Item(n, d) =>
        var next := ToInt64(pos + n);
        if next < 0 then SkipErr(InvalidLength)
        else if d == 0 then SkipOk(next)
        else if n > |s| then SkipErr(UnexpectedEof)
        else SkipFrom(s[n..], next, d)
  }

  /** A position that did not turn negative did not wrap. */
  lemma NoWrap(pos: nat, n: nat, len: nat)
    requires pos + len < TWO63 && n < len + TWO63
    ensures ToInt64(pos + n) >= 0 <==> pos + n < TWO63
    ensures pos + n < TWO63 ==> ToInt64(pos + n) == pos + n
  {
  }

  /** One turn of the switch on the wire type. */
  method ScanItemAt(data: ByteString, index: nat, depth: nat)
    returns (next: nat, depth': nat, err: Option<WireError>)
    requires index <= |data|
    ensures match ScanItem(data[index..], depth)
      case Item(n, d) => err == None && next == index + n && depth' == d
      case BadItem(e) => err == Some(e)
  {
    hide ParseVarint;
    var wire;
    depth' := depth;
    wire, next, err := ReadGroups(data, index, TWO64);
    if err.Some? { return; }
    assert data[next..] == data[index..][next - index..];
    match wire % 8 {
      case 0 =>
        var ignored;
        ignored, next, err := ReadGroups(data, next, TWO64);
      case 1 =>
        next := next + 8;
      case 2 =>
        var length;
        length, next, err := ReadGroups(data, next, TWO64);
        if err.Some? { return; }
        if ToInt64(length) < 0 {
          err := Some(InvalidLength);
        } else {
          next := next + ToInt64(length);
        }
      case 3 =>
        depth' := depth + 1;
      case 4 =>
        if depth == 0 {
          err := Some(UnexpectedEndOfGroup);
        } else {
          depth' := depth - 1;
        }
      case 5 =>
        next := next + 4;
      case _ =>
        err := Some(IllegalWireType);
    }
  }

  /** skipGenesis: scans one record at the front of `data`. */
  method SkipRecord(data: ByteString) returns (end: nat, err: Option<WireError>)
    requires |data| < TWO63
    ensures match SkipFrom(data, 0, 0)
      case SkipOk(n) => err == None && end == n
      case SkipErr(e) => err == Some(e)
  {
    hide ScanItem;
    var index, depth := 0, 0;
    end, err := 0, None;
    ghost var goal := SkipFrom(data, 0, 0);
    while index < |data|
      invariant err == None
      invariant index <= |data| ==> goal == SkipFrom(data[index..], index, depth)
      invariant index > |data| ==> goal == SkipErr(UnexpectedEof)
      decreases |data| - index
    {
      ghost var s := data[index..];
      ghost var pos := index;
      var next;
      next, depth, err := ScanItemAt(data, index, depth);
      if err.Some? { return; }
      NoWrap(pos, next - pos, |s|);
      if ToInt64(next) < 0 {
        err := Some(InvalidLength);
        return;
      }
      index := ToInt64(next);
      if depth == 0 {
        end := index;
        return;
      }
      assert index <= |data| ==> data[index..] == s[index - pos..];
    }
    err := Some(UnexpectedEof);
  }

  // ---------------------------------------------------------------- the grammar

  /** Records as the loop takes them; the byte strings are kept as written, so a padded
      varint is a different record from a canonical one. The encoding is stricter in one
      point: there the end tag of a group carries the field number of the group, here any
      end tag closes it. */
  datatype Record =
    | VarintRecord(tag: ByteString, payload: ByteString)
    | Fixed64Record(tag: ByteString, payload: ByteString)
    | BytesRecord(tag: ByteString, length: ByteString, payload: ByteString)
    | GroupRecord(tag: ByteString, body: Records, endTag: ByteString)
    | Fixed32Record(tag: ByteString, payload: ByteString)

  datatype Records = NoRecords | MoreRecords(first: Record, rest: Records)

  ghost predicate IsVarint(bs: ByteString) {
    ParseVarint(bs).VarintOk? && ParseVarint(bs).size == |bs|
  }

  ghost predicate IsTag(bs: ByteString, wireType: nat) {
    IsVarint(bs) && WireType(ParseVarint(bs).value) == wireType
  }

  ghost predicate WellFormed(r: Record) {
    match r
    case VarintRecord(tag, payload) => IsTag(tag, 0) && IsVarint(payload)
    case Fixed64Record(tag, payload) => IsTag(tag, 1) && |payload| == 8
    case BytesRecord(tag, length, payload) =>
      IsTag(tag, 2) && IsVarint(length) && ParseVarint(length).value == |payload|
    case GroupRecord(tag, body, endTag) => IsTag(tag, 3) && AllWellFormed(body) && IsTag(endTag, 4)
    case Fixed32Record(tag, payload) => IsTag(tag, 5) && |payload| == 4
  }

  ghost predicate AllWellFormed(rs: Records) {
    match rs
    case NoRecords => true
    case MoreRecords(first, rest) => WellFormed(first) && AllWellFormed(rest)
  }

  function RecordBytes(r: Record): (bs: ByteString) {
    match r
    case VarintRecord(tag, payload) => tag + payload
    case Fixed64Record(tag, payload) => tag + payload
    case BytesRecord(tag, length, payload) => tag + (length + payload)
    case GroupRecord(tag, body, endTag) => tag + (RecordsBytes(body) + endTag)
    case Fixed32Record(tag, payload) => tag + payload
  }

  function RecordsBytes(rs: Records): (bs: ByteString) {
    match rs
    case NoRecords => []
    case MoreRecords(first, rest) => RecordBytes(first) + RecordsBytes(rest)
  }

  // ---------------------------------------------------------------- records are skipped exactly

  /** Reading a whole varint off the front of anything longer. */
  lemma VarintAtFront(bs: ByteString, rest: ByteString)
    requires IsVarint(bs)
    ensures ParseVarint(bs + rest) == ParseVarint(bs) && (bs + rest)[|bs|..] == rest
  {
    ParseVarintPrefix(bs, rest);
  }

  /** A record that is not a group is one item of the loop. */
  lemma SimpleRecordIsOneItem(r: Record, rest: ByteString, depth: nat)
    requires WellFormed(r) && !r.GroupRecord?
    requires |RecordBytes(r)| < TWO63
    ensures RecordBytes(r) != []
    ensures ScanItem(RecordBytes(r) + rest, depth) == Item(|RecordBytes(r)|, depth)
  {
    hide ParseVarint, ToInt64, WireType;
    var s := RecordBytes(r) + rest;
    match r
    case VarintRecord(tag, payload) =>
      assert s == tag + (payload + rest);
      VarintAtFront(tag, payload + rest);
      VarintAtFront(payload, rest);
    case Fixed64Record(tag, payload) =>
      assert s == tag + (payload + rest);
      VarintAtFront(tag, payload + rest);
    case BytesRecord(tag, length, payload) =>
      assert s == tag + (length + (payload + rest));
      VarintAtFront(tag, length + (payload + rest));
      VarintAtFront(length, payload + rest);
      ToInt64Small(|payload|);
    case Fixed32Record(tag, payload) =>
      assert s == tag + (payload + rest);
      VarintAtFront(tag, payload + rest);
  }

  /** A group tag is an item of its own. */
  lemma GroupTagIsOneItem(tag: ByteString, rest: ByteString, depth: nat)
    requires IsTag(tag, 3) || (IsTag(tag, 4) && depth > 0)
    ensures |tag| > 0 && (tag + rest)[|tag|..] == rest
    ensures ScanItem(tag + rest, depth) == Item(|tag|, if IsTag(tag, 3) then depth + 1 else depth - 1)
  {
    hide ParseVarint;
    VarintAtFront(tag, rest);
  }

  /** What remains of the loop once a whole record at its front has been scanned. */
  function AfterRecord(rest: ByteString, pos: nat, depth: nat): (r: SkipResult)
    requires 0 < pos && pos + |rest| < TWO63
  {
    if depth == 0 then SkipOk(pos) else SkipFrom(rest, pos, depth)
  }

  /** One turn of the loop when the item lies inside the buffer. */
  lemma SkipTurn(bs: ByteString, rest: ByteString, pos: nat, depth: nat, depth': nat)
    requires bs != [] && pos + |bs + rest| < TWO63
    requires ScanItem(bs + rest, depth) == Item(|bs|, depth')
    ensures SkipFrom(bs + rest, pos, depth) == AfterRecord(rest, pos + |bs|, depth')
  {
    hide ScanItem;
    assert (bs + rest)[|bs|..] == rest;
  }

  /** Scanning one whole record, at any depth, brings the loop to the byte behind it. */
  lemma {:induction false} SkipsRecord(r: Record, rest: ByteString, pos: nat, depth: nat)
    requires WellFormed(r)
    requires pos + |RecordBytes(r) + rest| < TWO63
    ensures |RecordBytes(r)| > 0
    ensures SkipFrom(RecordBytes(r) + rest, pos, depth) == AfterRecord(rest, pos + |RecordBytes(r)|, depth)
    decreases r
  {
    hide ScanItem, SkipFrom, IsTag;
    if r.GroupRecord? {
      var tail := r.endTag + rest;
      var inner := RecordsBytes(r.body) + tail;
      assert RecordBytes(r) + rest == r.tag + inner;
      GroupTagIsOneItem(r.tag, inner, depth);
      SkipTurn(r.tag, inner, pos, depth, depth + 1);
      SkipsRecords(r.body, tail, pos + |r.tag|, depth + 1);
      GroupTagIsOneItem(r.endTag, rest, depth + 1);
      NotBothTags(r.endTag);
      SkipTurn(r.endTag, rest, pos + |r.tag| + |RecordsBytes(r.body)|, depth + 1, depth);
    } else {
      SimpleRecordIsOneItem(r, rest, depth);
      SkipTurn(RecordBytes(r), rest, pos, depth, depth);
    }
  }

  lemma NotBothTags(tag: ByteString)
    requires IsTag(tag, 4)
    ensures !IsTag(tag, 3)
  {
  }

  lemma {:induction false} SkipsRecords(rs: Records, rest: ByteString, pos: nat, depth: nat)
    requires AllWellFormed(rs) && depth > 0
    requires pos + |RecordsBytes(rs) + rest| < TWO63
    ensures SkipFrom(RecordsBytes(rs) + rest, pos, depth) == SkipFrom(rest, pos + |RecordsBytes(rs)|, depth)
    decreases rs
  {
    hide SkipFrom;
    match rs
    case NoRecords =>
      assert [] + rest == rest;
    case MoreRecords(first, others) =>
      var tail := RecordsBytes(others) + rest;
      assert RecordsBytes(rs) + rest == RecordBytes(first) + tail;
      SkipsRecord(first, tail, pos, depth);
      SkipsRecords(others, rest, pos + |RecordBytes(first)|, depth);
  }

  // ---------------------------------------------------------------- only records are skipped

  /** The bytes that close `depth` open groups: for each, the records still inside it and
      its end tag. */
  datatype Closing = Closed | Closing(body: Records, endTag: ByteString, outer: Closing)

  ghost predicate Closes(c: Closing, depth: nat) {
    match c
    case Closed => depth == 0
    case Closing(body, endTag, outer) =>
      depth > 0 && AllWellFormed(body) && IsTag(endTag, 4) && Closes(outer, depth - 1)
  }

  function ClosingBytes(c: Closing): (bs: ByteString) {
    match c
    case Closed => []
    case Closing(body, endTag, outer) => RecordsBytes(body) + (endTag + ClosingBytes(outer))
  }

  lemma TakenVarint(s: ByteString)
    requires ParseVarint(s).VarintOk?
    ensures var n := ParseVarint(s).size; IsVarint(s[..n]) && ParseVarint(s[..n]).value == ParseVarint(s).value
  {
    var n := ParseVarint(s).size;
    var k := n - 1;
    var t := s[..n];
    RunKept(s, t);
    assert t[..n] == s[..n];
  }

  lemma {:induction false} RunKept(s: ByteString, t: ByteString)
    requires t <= s && ContinuationRun(s) < |t|
    ensures ContinuationRun(t) == ContinuationRun(s)
  {
    if s[0] >= 128 {
      RunKept(s[1..], t[1..]);
    }
  }

  /** An item that neither opens nor closes a group and lies inside `s` is a record. */
  lemma ItemIsRecord(s: ByteString, depth: nat) returns (r: Record)
    requires ScanItem(s, depth).Item? && ScanItem(s, depth).depth == depth
    requires ScanItem(s, depth).size <= |s|
    ensures WellFormed(r) && RecordBytes(r) == s[..ScanItem(s, depth).size]
  {
    hide ParseVarint;
    var n := ScanItem(s, depth).size;
    var VarintOk(wire, a) := ParseVarint(s);
    var tag, payload := s[..a], s[a..n];
    TakenVarint(s);
    match WireType(wire)
    case 0 =>
      TakenVarint(s[a..]);
      assert payload == s[a..][..n - a];
      r := VarintRecord(tag, payload);
    case 1 => r := Fixed64Record(tag, payload);
    case 2 =>
      var b := ParseVarint(s[a..]).size;
      TakenVarint(s[a..]);
      r := BytesRecord(tag, s[a..][..b], s[a + b..n]);
      assert payload == s[a..][..b] + s[a + b..n];
    case 5 => r := Fixed32Record(tag, payload);
  }

  /** An item that changes the depth is a group tag. */
  lemma ItemIsGroupTag(s: ByteString, depth: nat)
    requires ScanItem(s, depth).Item? && ScanItem(s, depth).depth != depth
    ensures var n := ScanItem(s, depth).size;
            && n <= |s|
            && (if ScanItem(s, depth).depth > depth then IsTag(s[..n], 3) else IsTag(s[..n], 4))
    ensures ScanItem(s, depth).depth in {depth - 1, depth + 1}
  {
    hide ParseVarint;
    TakenVarint(s);
  }

  /** A loop that finishes inside the buffer scans an item and, unless that item was the
      last, finishes from behind it. */
  lemma SkipUnfolds(s: ByteString, pos: nat, depth: nat)
    requires pos + |s| < TWO63
    requires SkipFrom(s, pos, depth).SkipOk? && SkipFrom(s, pos, depth).end <= pos + |s|
    ensures ScanItem(s, depth).Item?
    ensures var Item(n, d) := ScanItem(s, depth);
            && 0 < n <= |s|
            && SkipFrom(s, pos, depth) == AfterRecord(s[n..], pos + n, d)
  {
    hide ScanItem;
    var Item(n, d) := ScanItem(s, depth);
    NoWrap(pos, n, |s|);
  }

  /** Whenever the loop finishes inside the buffer, what it passed over closes the open
      groups, record by record. */
  lemma {:induction false} SkippedCloses(s: ByteString, pos: nat, depth: nat) returns (c: Closing)
    requires pos + |s| < TWO63 && depth > 0
    requires SkipFrom(s, pos, depth).SkipOk? && SkipFrom(s, pos, depth).end <= pos + |s|
    ensures Closes(c, depth) && ClosingBytes(c) == s[..SkipFrom(s, pos, depth).end - pos]
    decreases |s|
  {
    hide ScanItem, SkipFrom, IsTag;
    var end := SkipFrom(s, pos, depth).end - pos;
    SkipUnfolds(s, pos, depth);
    var Item(n, d) := ScanItem(s, depth);
    if d == depth {
      var after := SkippedCloses(s[n..], pos + n, d);
      var r := ItemIsRecord(s, depth);
      c := PushRecord(r, after);
      assert s[..end] == s[..n] + s[n..][..end - n];
    } else {
      ItemIsGroupTag(s, depth);
      if d > depth {
        var after := SkippedCloses(s[n..], pos + n, d);
        assert s[..end] == s[..n] + s[n..][..end - n];
        c := WrapGroup(s[..n], after);
      } else {
        var outer := Closed;
        if d > 0 {
          outer := SkippedCloses(s[n..], pos + n, d);
        }
        c := Closing(NoRecords, s[..n], outer);
        assert s[..end] == s[..n] + s[n..][..end - n];
        assert ClosingBytes(c) == [] + (s[..n] + ClosingBytes(outer));
      }
    }
  }

  /** Puts an opening tag in front: the innermost group becomes a record of the next one. */
  function WrapGroup(tag: ByteString, c: Closing): (p: Closing)
    requires c.Closing? && c.outer.Closing?
    ensures ClosingBytes(p) == tag + ClosingBytes(c)
    ensures forall d: nat :: Closes(c, d + 1) && IsTag(tag, 3) ==> Closes(p, d)
  {
    var group := GroupRecord(tag, c.body, c.endTag);
    assert RecordBytes(group) + ClosingBytes(c.outer) == tag + ClosingBytes(c);
    PushRecord(group, c.outer)
  }

  /** The innermost open group has one more record in front. */
  function PushRecord(r: Record, c: Closing): (p: Closing)
    requires c.Closing?
    ensures ClosingBytes(p) == RecordBytes(r) + ClosingBytes(c)
    ensures forall d :: Closes(c, d) && WellFormed(r) ==> Closes(p, d)
  {
    var p := Closing(MoreRecords(r, c.body), c.endTag, c.outer);
    assert ClosingBytes(p) == RecordBytes(r) + RecordsBytes(c.body) + (c.endTag + ClosingBytes(c.outer));
    p
  }

  lemma SkippedIsRecord(s: ByteString) returns (r: Record)
    requires |s| < TWO63
    requires SkipFrom(s, 0, 0).SkipOk? && SkipFrom(s, 0, 0).end <= |s|
    ensures WellFormed(r) && RecordBytes(r) == s[..SkipFrom(s, 0, 0).end]
  {
    hide ScanItem, SkipFrom, IsTag;
    var end := SkipFrom(s, 0, 0).end;
    SkipUnfolds(s, 0, 0);
    var Item(n, d) := ScanItem(s, 0);
    if d == 0 {
      r := ItemIsRecord(s, 0);
    } else {
      ItemIsGroupTag(s, 0);
      var c := SkippedCloses(s[n..], n, 1);
      assert s[..end] == s[..n] + s[n..][..end - n];
      r := GroupRecord(s[..n], c.body, c.endTag);
      assert ClosingBytes(c) == RecordsBytes(c.body) + (c.endTag + []);
    }
  }

  /** The nesting counter decides exactly the grammar: it passes over the first `n` bytes
      of a buffer if and only if they are one well-formed record. */
  lemma SkipMatchesGrammar(s: ByteString, n: nat)
    requires n <= |s| < TWO63
    ensures SkipFrom(s, 0, 0) == SkipOk(n) <==> exists r :: WellFormed(r) && RecordBytes(r) == s[..n]
  {
    hide SkipFrom, WellFormed, RecordBytes;
    if SkipFrom(s, 0, 0) == SkipOk(n) {
      var r := SkippedIsRecord(s);
    }
    forall r | WellFormed(r) && RecordBytes(r) == s[..n]
      ensures SkipFrom(s, 0, 0) == SkipOk(n)
    {
      assert s == RecordBytes(r) + s[n..];
      SkipsRecord(r, s[n..], 0, 0);
    }
  }
}
