/** Input that is cut short: a buffer that reads, cut anywhere, either still reads, because
    the cut fell between two records, or is refused as ending unexpectedly. */
module Truncation {
  import opened Words
  import opened Varint
  import opened Skip
  import opened Messages
  import opened Codec
  import opened CodecFields

  lemma {:induction false} RunCut(s: ByteString, k: nat)
    requires k <= ContinuationRun(s)
    ensures ContinuationRun(s[..k]) == k
    decreases k
  {
    if k > 0 {
      RunCut(s[1..], k - 1);
      assert s[..k][1..] == s[1..][..k - 1];
    }
  }

  /** A varint is there as a whole or ends unexpectedly. */
  lemma VarintCut(s: ByteString, k: nat)
    requires ParseVarint(s).VarintOk? && k <= |s|
    ensures ParseVarint(s[..k]) == if k >= ParseVarint(s).size then ParseVarint(s) else VarintErr(UnexpectedEof)
  {
    var n := ParseVarint(s).size;
    if k < n {
      RunCut(s, k);
    } else {
      RunKept(s, s[..k]);
      assert s[..k][..n] == s[..n];
    }
  }

  /** Ten bytes that all announce another are too many. */
  lemma TooManyGroups(s: ByteString)
    requires |s| >= 10 && forall i :: 0 <= i < 10 ==> s[i] >= 128
    ensures ParseVarint(s) == VarintErr(IntOverflow)
  {
  }

  lemma ItemCut(s: ByteString, depth: nat, k: nat)
    requires ScanItem(s, depth).Item? && k <= |s|
    ensures var item := ScanItem(s, depth);
            ScanItem(s[..k], depth) == item || (k < item.size && ScanItem(s[..k], depth) == BadItem(UnexpectedEof))
  {
    hide ParseVarint, WireType;
    VarintCut(s, k);
    var VarintOk(wire, a) := ParseVarint(s);
    if k >= a {
      assert s[..k][a..] == s[a..][..k - a];
      if ParseVarint(s[a..]).VarintOk? {
        VarintCut(s[a..], k - a);
      }
    }
  }

  /** What the skipping loop does not take: tags of wire type 6 or 7, an end tag outside any
      group, and a length that is negative as a signed number. */
  lemma SkipRefuses(s: ByteString, pos: nat, depth: nat)
    requires s != [] && pos + |s| < TWO63 && ParseVarint(s).VarintOk?
    ensures var VarintOk(wire, a) := ParseVarint(s);
            && (wire % 8 == 6 || wire % 8 == 7 ==> SkipFrom(s, pos, depth) == SkipErr(IllegalWireType))
            && (wire % 8 == 4 && depth == 0 ==> SkipFrom(s, pos, depth) == SkipErr(UnexpectedEndOfGroup))
            && (wire % 8 == 2 && ParseVarint(s[a..]).VarintOk? && ParseVarint(s[a..]).value >= TWO63 ==>
                  SkipFrom(s, pos, depth) == SkipErr(InvalidLength))
  {
    hide ParseVarint;
  }

  lemma {:induction false} SkipCut(s: ByteString, pos: nat, depth: nat, k: nat)
    requires pos + |s| < TWO63 && k <= |s|
    requires SkipFrom(s, pos, depth).SkipOk? && SkipFrom(s, pos, depth).end <= pos + |s|
    ensures var whole, cut := SkipFrom(s, pos, depth), SkipFrom(s[..k], pos, depth);
            if pos + k >= whole.end then cut == whole
            else cut == SkipErr(UnexpectedEof) || (cut.SkipOk? && cut.end > pos + k)
    decreases |s|
  {
    hide ScanItem, ToInt64;
    SkipUnfolds(s, pos, depth);
    var Item(n, d) := ScanItem(s, depth);
    if k > 0 {
      ItemCut(s, depth, k);
      NoWrap(pos, n, |s|);
      if d > 0 && n <= k {
        assert s[..k][n..] == s[n..][..k - n];
        SkipCut(s[n..], pos + n, d, k - n);
      }
    }
  }

  /** One field, cut: it is taken as before if it is all there, and ends unexpectedly if
      not. */
  lemma StepCut(m: Message, s: ByteString, pos: nat, k: nat)
    requires s != [] && pos + |s| < TWO63 && 0 < k <= |s| && DecodeStep(m, s, pos).StepOk?
    ensures DecodeStep(m, s[..k], pos) ==
            if k >= DecodeStep(m, s, pos).size then DecodeStep(m, s, pos) else StepErr(UnexpectedEof)
  {
    hide ParseVarint, SkipFrom, TakeBlob, SetBlob, SetVarint, KindOf, FieldOf, WireType;
    VarintCut(s, k);
    var VarintOk(wire, a) := ParseVarint(s);
    if k >= a {
      assert s[..k][a..] == s[a..][..k - a];
      match KindOf(m, FieldOf(wire))
      case UnknownField => UnknownCut(m, s, pos, k);
      case VarintKind => VarintCut(s[a..], k - a);
      case BlobKind => BlobCut(s[a..], pos + a, k - a);
    } else if KindOf(m, FieldOf(wire)) == UnknownField {
      UnknownCut(m, s, pos, k);
      NoTag(s[..k]);
    }
  }

  lemma NoTag(s: ByteString)
    requires s != [] && |s| < TWO63 && ParseVarint(s).VarintErr?
    ensures SkipFrom(s, 0, 0) == SkipErr(ParseVarint(s).error)
  {
    hide ParseVarint;
  }

  lemma UnknownCut(m: Message, s: ByteString, pos: nat, k: nat)
    requires pos + |s| < TWO63 && 0 < k <= |s| && SkipUnknown(m, s, pos).StepOk?
    ensures SkipUnknown(m, s[..k], pos) ==
            if k >= SkipUnknown(m, s, pos).size then SkipUnknown(m, s, pos) else StepErr(UnexpectedEof)
  {
    hide SkipFrom;
    SkipCut(s, 0, 0, k);
    var cut := SkipFrom(s[..k], 0, 0);
    if cut.SkipOk? && cut.end > k {
      SkippedEnd(s, k);
      ToInt64Small(pos + cut.end);
    }
  }

  /** A skip that runs past a cut ends no later than the record it was cut from. */
  lemma SkippedEnd(s: ByteString, k: nat)
    requires |s| < TWO63 && k <= |s| && SkipFrom(s, 0, 0).SkipOk? && SkipFrom(s, 0, 0).end <= |s|
    requires SkipFrom(s[..k], 0, 0).SkipOk?
    ensures SkipFrom(s[..k], 0, 0).end <= SkipFrom(s, 0, 0).end
  {
    SkippedEndFrom(s, 0, 0, k);
  }

  lemma {:induction false} SkippedEndFrom(s: ByteString, pos: nat, depth: nat, k: nat)
    requires pos + |s| < TWO63 && k <= |s|
    requires SkipFrom(s, pos, depth).SkipOk? && SkipFrom(s, pos, depth).end <= pos + |s|
    requires SkipFrom(s[..k], pos, depth).SkipOk?
    ensures SkipFrom(s[..k], pos, depth).end <= SkipFrom(s, pos, depth).end
    decreases |s|
  {
    hide ScanItem, ToInt64;
    SkipUnfolds(s, pos, depth);
    var Item(n, d) := ScanItem(s, depth);
    ItemCut(s, depth, k);
    NoWrap(pos, n, |s|);
    if d > 0 {
      assert s[..k][n..] == s[n..][..k - n];
      SkippedEndFrom(s[n..], pos + n, d, k - n);
    }
  }

  lemma BlobCut(s: ByteString, pos: nat, k: nat)
    requires pos + |s| < TWO63 && k <= |s| && TakeBlob(s, pos).BlobOk?
    ensures TakeBlob(s[..k], pos) ==
            if k >= TakeBlob(s, pos).size then TakeBlob(s, pos) else BlobErr(UnexpectedEof)
  {
    hide ParseVarint;
    VarintCut(s, k);
    var VarintOk(length, n) := ParseVarint(s);
    BlobOutcome(s, pos);
    if k >= n {
      BlobOutcome(s[..k], pos);
      if n + length <= k {
        assert s[..k][n..n + length] == s[n..n + length];
      }
    }
  }

  /** A buffer that reads, cut anywhere, reads or ends unexpectedly; no other error and no
      loop can come of it. */
  lemma {:induction false} DecodeCut(m: Message, s: ByteString, pos: nat, k: nat)
    requires pos + |s| < TWO63 && k <= |s| && Decode(m, s, pos).DecodeOk?
    ensures Decode(m, s[..k], pos).DecodeOk? || Decode(m, s[..k], pos) == DecodeErr(UnexpectedEof)
    decreases |s|
  {
    hide DecodeStep, SameType;
    if k > 0 {
      var StepOk(m', n) := DecodeStep(m, s, pos);
      StepCut(m, s, pos, k);
      if n <= k {
        assert s[..k][n..] == s[n..][..k - n];
        DecodeCut(m', s[n..], pos + n, k - n);
      }
    }
  }
}
