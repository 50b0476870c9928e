/** Which of the records that the skipping loop passes over are records of the Protocol
    Buffers encoding: there the end tag of a group carries the field number of its start
    tag, while the loop lets any end tag close a group. */
module GroupTags {
  import opened Words
  import opened Varint
  import opened Skip

  ghost function FieldIn(tag: ByteString): (f: int)
    requires IsVarint(tag)
  {
    ParseVarint(tag).value / 8
  }

  /** Every group, at every depth, is closed by an end tag of its own field number. */
  ghost predicate Matched(r: Record)
    requires WellFormed(r)
  {
    r.GroupRecord? ==> FieldIn(r.tag) == FieldIn(r.endTag) && AllMatched(r.body)
  }

  ghost predicate AllMatched(rs: Records)
    requires AllWellFormed(rs)
  {
    match rs
    case NoRecords => true
    case MoreRecords(first, rest) => Matched(first) && AllMatched(rest)
  }

  /** A record of the encoding. */
  ghost predicate Encoded(r: Record) {
    WellFormed(r) && Matched(r)
  }

  // ---------------------------------------------------------------- records are read in one way

  lemma VarintUnique(a: ByteString, b: ByteString, x: ByteString, y: ByteString)
    requires IsVarint(a) && IsVarint(b) && a + x == b + y
    ensures a == b && x == y
  {
    hide ParseVarint;
    VarintAtFront(a, x);
    VarintAtFront(b, y);
    assert a == (a + x)[..|a|] && b == (b + y)[..|b|];
  }

  function TypeOf(r: Record): (t: nat) {
    match r
    case VarintRecord(_, _) => 0
    case Fixed64Record(_, _) => 1
    case BytesRecord(_, _, _) => 2
    case GroupRecord(_, _, _) => 3
    case Fixed32Record(_, _) => 5
  }

  /** What follows the tag of a record. */
  function BehindTag(r: Record): (bs: ByteString) {
    match r
    case VarintRecord(_, payload) => payload
    case Fixed64Record(_, payload) => payload
    case BytesRecord(_, length, payload) => length + payload
    case GroupRecord(_, body, endTag) => RecordsBytes(body) + endTag
    case Fixed32Record(_, payload) => payload
  }

  lemma TagLeads(r: Record, x: ByteString)
    requires WellFormed(r)
    ensures IsTag(r.tag, TypeOf(r))
    ensures RecordBytes(r) + x == r.tag + (BehindTag(r) + x)
  {
    hide IsTag, IsVarint;
  }

  /** Equal bytes start with the same tag, and so with the same kind of record. */
  lemma SameTag(r: Record, r': Record, x: ByteString, y: ByteString)
    requires WellFormed(r) && WellFormed(r') && RecordBytes(r) + x == RecordBytes(r') + y
    ensures r.tag == r'.tag && TypeOf(r) == TypeOf(r')
    ensures BehindTag(r) + x == BehindTag(r') + y
  {
    hide WellFormed, RecordBytes, BehindTag, ParseVarint;
    TagLeads(r, x);
    TagLeads(r', y);
    VarintUnique(r.tag, r'.tag, BehindTag(r) + x, BehindTag(r') + y);
  }

  lemma FixedUnique(a: ByteString, b: ByteString, x: ByteString, y: ByteString)
    requires |a| == |b| && a + x == b + y
    ensures a == b && x == y
  {
    assert a == (a + x)[..|a|] && b == (b + y)[..|b|];
    assert x == (a + x)[|a|..] && y == (b + y)[|b|..];
  }

  /** Unique reading: no two records of the grammar have the same bytes, nor is one a
      prefix of another. */
  lemma {:induction false} RecordUnique(r: Record, r': Record, x: ByteString, y: ByteString)
    requires WellFormed(r) && WellFormed(r') && RecordBytes(r) + x == RecordBytes(r') + y
    ensures r == r' && x == y
    decreases r
  {
    hide RecordBytes, RecordsBytes, ParseVarint, IsVarint;
    SameTag(r, r', x, y);
    match r
    case VarintRecord(_, payload) =>
      VarintUnique(payload, r'.payload, x, y);
    case Fixed64Record(_, payload) =>
      FixedUnique(payload, r'.payload, x, y);
    case BytesRecord(_, length, payload) =>
      assert length + (payload + x) == BehindTag(r) + x == BehindTag(r') + y == r'.length + (r'.payload + y);
      VarintUnique(length, r'.length, payload + x, r'.payload + y);
      FixedUnique(payload, r'.payload, x, y);
    case GroupRecord(_, body, endTag) =>
      assert RecordsBytes(body) + (endTag + x) == BehindTag(r) + x;
      assert RecordsBytes(r'.body) + (r'.endTag + y) == BehindTag(r') + y;
      BodyUnique(body, r'.body, endTag, r'.endTag, x, y);
    case Fixed32Record(_, payload) =>
      FixedUnique(payload, r'.payload, x, y);
  }

  /** No record starts with an end tag. */
  lemma EndTagEndsBody(rs: Records, rs': Records, e: ByteString, e': ByteString, x: ByteString, y: ByteString)
    requires AllWellFormed(rs) && AllWellFormed(rs') && IsTag(e, 4) && IsTag(e', 4)
    requires RecordsBytes(rs) + (e + x) == RecordsBytes(rs') + (e' + y)
    ensures rs.NoRecords? ==> rs'.NoRecords?
  {
    hide WellFormed, RecordBytes, ParseVarint, BehindTag;
    if rs.NoRecords? && rs'.MoreRecords? {
      var r, z := rs'.first, RecordsBytes(rs'.rest) + (e' + y);
      TagLeads(r, z);
      assert RecordsBytes(rs) + (e + x) == e + x;
      assert RecordsBytes(rs') + (e' + y) == RecordBytes(r) + z;
      VarintUnique(e, r.tag, x, BehindTag(r) + z);
    }
  }

  lemma {:induction false} BodyUnique(rs: Records, rs': Records, e: ByteString, e': ByteString,
                                     x: ByteString, y: ByteString)
    requires AllWellFormed(rs) && AllWellFormed(rs') && IsTag(e, 4) && IsTag(e', 4)
    requires RecordsBytes(rs) + (e + x) == RecordsBytes(rs') + (e' + y)
    ensures rs == rs' && e == e' && x == y
    decreases rs
  {
    hide RecordBytes, WellFormed, ParseVarint;
    EndTagEndsBody(rs, rs', e, e', x, y);
    EndTagEndsBody(rs', rs, e', e, y, x);
    if rs.NoRecords? {
      assert RecordsBytes(rs) + (e + x) == e + x && RecordsBytes(rs') + (e' + y) == e' + y;
      VarintUnique(e, e', x, y);
    } else {
      var z, z' := RecordsBytes(rs.rest) + (e + x), RecordsBytes(rs'.rest) + (e' + y);
      assert RecordsBytes(rs) + (e + x) == RecordBytes(rs.first) + z;
      assert RecordsBytes(rs') + (e' + y) == RecordBytes(rs'.first) + z';
      RecordUnique(rs.first, rs'.first, z, z');
      BodyUnique(rs.rest, rs'.rest, e, e', x, y);
    }
  }

  // ---------------------------------------------------------------- a stack instead of a counter

  /** The loop with the field numbers of the open groups in place of their count: it goes
      through exactly if each end tag carries the number of the group it closes. */
  function TagsMatch(s: ByteString, open: seq<int>): (ok: bool)
    decreases |s|
  {
    s != [] &&
    match ScanItem(s, |open|)
    case BadItem(_) => false
    case Item(n, d) =>
      var field := ParseVarint(s).value / 8;
      && (d < |open| ==> open[d] == field)
      && (d == 0 || (n <= |s| && TagsMatch(s[n..], if d > |open| then open + [field] else open[..d])))
  }

  /** One turn of that loop when the item lies inside the buffer. */
  lemma StackTurn(tag: ByteString, bs: ByteString, rest: ByteString, open: seq<int>, d: nat)
    requires IsVarint(tag) && tag <= bs && ScanItem(bs + rest, |open|) == Item(|bs|, d) && d <= |open| + 1
    ensures TagsMatch(bs + rest, open) <==>
            && (d < |open| ==> open[d] == FieldIn(tag))
            && (d == 0 || TagsMatch(rest, if d > |open| then open + [FieldIn(tag)] else open[..d]))
  {
    hide ScanItem, ParseVarint;
    var s := bs + rest;
    assert s == tag + s[|tag|..];
    VarintAtFront(tag, s[|tag|..]);
    assert s[|bs|..] == rest;
    assert bs != [];
  }

  lemma {:induction false} StackOnRecord(r: Record, rest: ByteString, open: seq<int>)
    requires WellFormed(r) && |RecordBytes(r)| < TWO63
    ensures TagsMatch(RecordBytes(r) + rest, open) <==> Matched(r) && (open == [] || TagsMatch(rest, open))
    decreases r
  {
    hide ScanItem, ParseVarint, TagsMatch, WireType;
    TagLeads(r, []);
    assert RecordBytes(r) + [] == RecordBytes(r);
    if r.GroupRecord? {
      var tail := r.endTag + rest;
      var inner := RecordsBytes(r.body) + tail;
      var within := open + [FieldIn(r.tag)];
      assert RecordBytes(r) + rest == r.tag + inner;
      GroupTagIsOneItem(r.tag, inner, |open|);
      StackTurn(r.tag, r.tag, inner, open, |open| + 1);
      StackOnRecords(r.body, tail, within);
      GroupTagIsOneItem(r.endTag, rest, |within|);
      NotBothTags(r.endTag);
      StackTurn(r.endTag, r.endTag, rest, within, |open|);
      assert within[..|open|] == open;
    } else {
      SimpleRecordIsOneItem(r, rest, |open|);
      StackTurn(r.tag, RecordBytes(r), rest, open, |open|);
      assert open[..|open|] == open;
    }
  }

  lemma {:induction false} StackOnRecords(rs: Records, rest: ByteString, open: seq<int>)
    requires AllWellFormed(rs) && |RecordsBytes(rs)| < TWO63 && open != []
    ensures TagsMatch(RecordsBytes(rs) + rest, open) <==> AllMatched(rs) && TagsMatch(rest, open)
    decreases rs
  {
    hide TagsMatch;
    match rs
    case NoRecords =>
      assert [] + rest == rest;
    case MoreRecords(first, others) =>
      var tail := RecordsBytes(others) + rest;
      assert RecordsBytes(rs) + rest == RecordBytes(first) + tail;
      StackOnRecord(first, tail, open);
      StackOnRecords(others, rest, open);
  }

  // ---------------------------------------------------------------- what is skipped

  /** Exactly when the bytes that the loop passes over are a record of the encoding: if and
      only if each end tag met on the way carries the field number of its group. */
  lemma SkippedIsEncodedIff(s: ByteString, n: nat)
    requires n <= |s| < TWO63 && SkipFrom(s, 0, 0) == SkipOk(n)
    ensures (exists r :: Encoded(r) && RecordBytes(r) == s[..n]) <==> TagsMatch(s, [])
  {
    hide SkipFrom, WellFormed, Matched, RecordBytes, TagsMatch;
    var r0 := SkippedIsRecord(s);
    assert s == RecordBytes(r0) + s[n..];
    StackOnRecord(r0, s[n..], []);
    if TagsMatch(s, []) {
      assert Encoded(r0);
    }
    forall r | Encoded(r) && RecordBytes(r) == s[..n] ensures Matched(r0) {
      RecordUnique(r, r0, [], []);
    }
  }

  /** The loop on its own does not tell: it passes over a group of field 1 that the end tag
      of field 2 closes, which is no record of the encoding. */
  lemma AnyEndTagClosesGroup()
    ensures SkipFrom([0x0b, 0x14], 0, 0) == SkipOk(2)
    ensures !exists r :: Encoded(r) && RecordBytes(r) == [0x0b, 0x14]
  {
    hide ParseVarint, SkipFrom;
    var r0 := GroupRecord([0x0b], NoRecords, [0x14]);
    OneByteTag(0x0b);
    OneByteTag(0x14);
    assert RecordBytes(r0) + [] == [0x0b, 0x14] == RecordBytes(r0);
    SkipsRecord(r0, [], 0, 0);
    forall r | Encoded(r) ensures RecordBytes(r) != [0x0b, 0x14] {
      if RecordBytes(r) == [0x0b, 0x14] {
        RecordUnique(r, r0, [], []);
      }
    }
  }

  lemma OneByteTag(b: Byte)
    requires b < 128
    ensures IsTag([b], b % 8) && FieldIn([b]) == b / 8
  {
    hide ParseVarint;
    VarintRoundTrip(b, []);
    assert EncodeVarint(b) + [] == [b];
  }
}
