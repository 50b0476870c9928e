/** The order in which a key-value store iterates: lexicographic on encoded keys. */
module Ordering {
  import opened Words

  /** bytes.Compare(a, b) < 0. */
  predicate LexLess(a: ByteString, b: ByteString) {
    if b == [] then false
    else if a == [] then true
    else a[0] < b[0] || (a[0] == b[0] && LexLess(a[1..], b[1..]))
  }

  /** The first `n` bytes are the same, and then `a` ends or has the smaller byte. */
  ghost predicate DiffersAt(a: ByteString, b: ByteString, n: nat) {
    && n <= |a| && n < |b| && a[..n] == b[..n]
    && (n == |a| || a[n] < b[n])
  }

  /** Dictionary order: the first difference decides, and a proper prefix comes first. */
  lemma {:induction false} LexLessMeans(a: ByteString, b: ByteString)
    ensures LexLess(a, b) <==> exists n: nat :: DiffersAt(a, b, n)
  {
    if a != [] && b != [] {
      LexLessMeans(a[1..], b[1..]);
      if LexLess(a, b) {
        if a[0] < b[0] {
          assert DiffersAt(a, b, 0);
        } else {
          var n: nat :| DiffersAt(a[1..], b[1..], n);
          assert a[..n + 1] == [a[0]] + a[1..][..n] && b[..n + 1] == [b[0]] + b[1..][..n];
          assert DiffersAt(a, b, n + 1);
        }
      }
      forall n: nat | DiffersAt(a, b, n) ensures LexLess(a, b) {
        if n > 0 {
          assert a[0] == a[..n][0] == b[..n][0] == b[0];
          assert a[1..][..n - 1] == a[..n][1..] == b[..n][1..] == b[1..][..n - 1];
          assert DiffersAt(a[1..], b[1..], n - 1);
        }
      }
    } else if a == [] && b != [] {
      assert DiffersAt(a, b, 0);
    }
  }

  lemma {:induction false} LexTransitive(a: ByteString, b: ByteString, c: ByteString)
    requires LexLess(a, b) && LexLess(b, c)
    ensures LexLess(a, c)
    decreases |a|
  {
    if a != [] && a[0] == b[0] == c[0] {
      LexTransitive(a[1..], b[1..], c[1..]);
    }
  }

  lemma {:induction false} LexIrreflexive(a: ByteString)
    ensures !LexLess(a, a)
    decreases |a|
  {
    if a != [] {
      LexIrreflexive(a[1..]);
    }
  }

  lemma {:induction false} LexTotal(a: ByteString, b: ByteString)
    ensures a == b || LexLess(a, b) || LexLess(b, a)
    decreases |a|
  {
    if a != [] && b != [] && a[0] == b[0] {
      LexTotal(a[1..], b[1..]);
      if a[1..] == b[1..] {
        assert a == [a[0]] + a[1..] && b == [b[0]] + b[1..];
      }
    }
  }

  lemma LexAsymmetric(a: ByteString, b: ByteString)
    requires LexLess(a, b)
    ensures !LexLess(b, a) && a != b
  {
    LexIrreflexive(a);
    if LexLess(b, a) {
      LexTransitive(a, b, a);
    }
  }

  // ---------------------------------------------------------------- enumeration

  /** Different keys have different encodings. */
  ghost predicate Distinct<K(!new)>(s: set<K>, enc: K -> ByteString) {
    forall x, y :: x in s && y in s && enc(x) == enc(y) ==> x == y
  }

  predicate IsFirst<K(==)>(k: K, s: set<K>, enc: K -> ByteString) {
    k in s && forall x :: x in s && x != k ==> LexLess(enc(k), enc(x))
  }

  lemma {:induction false} FirstExists<K(!new)>(s: set<K>, enc: K -> ByteString)
    requires s != {} && Distinct(s, enc)
    ensures exists k :: IsFirst(k, s, enc)
    decreases |s|
  {
    var x :| x in s;
    var t := s - {x};
    if t == {} {
      assert s == {x};
      assert IsFirst(x, s, enc);
    } else {
      FirstExists(t, enc);
      var k :| IsFirst(k, t, enc);
      LexTotal(enc(x), enc(k));
      assert enc(x) != enc(k);
      if LexLess(enc(x), enc(k)) {
        forall y | y in s && y != x ensures LexLess(enc(x), enc(y)) {
          if y != k {
            LexTransitive(enc(x), enc(k), enc(y));
          }
        }
        assert IsFirst(x, s, enc);
      } else {
        assert IsFirst(k, s, enc);
      }
    }
  }

  lemma FirstUnique<K>(j: K, k: K, s: set<K>, enc: K -> ByteString)
    requires IsFirst(j, s, enc) && IsFirst(k, s, enc)
    ensures j == k
  {
    if j != k {
      LexAsymmetric(enc(j), enc(k));
    }
  }

  function First<K(==, !new)>(s: set<K>, enc: K -> ByteString): (k: K)
    requires s != {} && Distinct(s, enc)
    ensures IsFirst(k, s, enc)
  {
    FirstExists(s, enc);
    assert forall j, k :: IsFirst(j, s, enc) && IsFirst(k, s, enc) ==> j == k by {
      forall j, k | IsFirst(j, s, enc) && IsFirst(k, s, enc) ensures j == k {
        FirstUnique(j, k, s, enc);
      }
    }
    var k :| IsFirst(k, s, enc);
    k
  }

  /** The keys of a store in iteration order. */
  function Sorted<K(==, !new)>(s: set<K>, enc: K -> ByteString): (ks: seq<K>)
    requires Distinct(s, enc)
    ensures forall x :: x in ks <==> x in s
    ensures Ascending(ks, enc)
    decreases |s|
  {
    if s == {} then []
    else
      var k := First(s, enc);
      var rest := Sorted(s - {k}, enc);
      [k] + rest
  }

  ghost predicate Ascending<K>(ks: seq<K>, enc: K -> ByteString) {
    forall i, j :: 0 <= i < j < |ks| ==> LexLess(enc(ks[i]), enc(ks[j]))
  }

  /** A strictly ascending sequence is determined by its elements. */
  lemma {:induction false} AscendingUnique<K>(xs: seq<K>, ys: seq<K>, enc: K -> ByteString)
    requires Ascending(xs, enc) && Ascending(ys, enc)
    requires forall x :: x in xs <==> x in ys
    ensures xs == ys
    decreases |xs|
  {
    if xs == [] {
      HasMember(ys);
    } else {
      assert xs[0] in ys;
      var i :| 0 <= i < |ys| && ys[i] == xs[0];
      assert ys[0] in xs;
      var j :| 0 <= j < |xs| && xs[j] == ys[0];
      if i > 0 && j > 0 {
        LexAsymmetric(enc(xs[0]), enc(xs[j]));
      }
      assert xs[0] == ys[0];
      forall x ensures x in xs[1..] <==> x in ys[1..] {
        InTail(xs, enc, x);
        InTail(ys, enc, x);
      }
      AscendingUnique(xs[1..], ys[1..], enc);
      assert xs == [xs[0]] + xs[1..] && ys == [ys[0]] + ys[1..];
    }
  }

  lemma HasMember<K>(ys: seq<K>)
    ensures ys != [] ==> exists y :: y in ys
  {
    if ys != [] {
      assert ys[0] in ys;
    }
  }

  lemma InTail<K>(xs: seq<K>, enc: K -> ByteString, x: K)
    requires Ascending(xs, enc) && xs != []
    ensures x in xs[1..] <==> x in xs && x != xs[0]
  {
    assert xs == [xs[0]] + xs[1..];
    forall i | 0 <= i < |xs| - 1 ensures xs[1..][i] != xs[0] {
      AscendingDistinct(xs, enc, 0, i + 1);
    }
  }

  /** A step into an ascending sequence. */
  lemma AscendingParts<K>(xs: seq<K>, enc: K -> ByteString, j: nat)
    requires Ascending(xs, enc) && 0 < j < |xs|
    ensures LexLess(enc(xs[0]), enc(xs[j])) && Ascending(xs[1..], enc)
  {
  }

  lemma AscendingDistinct<K>(xs: seq<K>, enc: K -> ByteString, i: nat, j: nat)
    requires Ascending(xs, enc) && i < j < |xs|
    ensures xs[i] != xs[j]
  {
    LexAsymmetric(enc(xs[i]), enc(xs[j]));
  }

  // ---------------------------------------------------------------- filters

  function Filter<T>(xs: seq<T>, p: T -> bool): (ys: seq<T>)
    ensures |ys| <= |xs|
  {
    if xs == [] then []
    else (if p(xs[0]) then [xs[0]] else []) + Filter(xs[1..], p)
  }

  lemma {:induction false} FilterMembers<T>(xs: seq<T>, p: T -> bool, x: T)
    ensures x in Filter(xs, p) <==> x in xs && p(x)
  {
    if xs != [] {
      FilterMembers(xs[1..], p, x);
      assert xs == [xs[0]] + xs[1..];
    }
  }

  lemma {:induction false} FilterConcat<T>(xs: seq<T>, ys: seq<T>, p: T -> bool)
    ensures Filter(xs + ys, p) == Filter(xs, p) + Filter(ys, p)
  {
    if xs == [] {
      assert xs + ys == ys;
    } else {
      var head := if p(xs[0]) then [xs[0]] else [];
      assert (xs + ys)[0] == xs[0] && (xs + ys)[1..] == xs[1..] + ys;
      assert Filter(xs + ys, p) == head + Filter(xs[1..] + ys, p);
      FilterConcat(xs[1..], ys, p);
      assert Filter(xs, p) == head + Filter(xs[1..], p);
    }
  }

  lemma FilterSnoc<T>(xs: seq<T>, x: T, p: T -> bool)
    ensures Filter(xs + [x], p) == Filter(xs, p) + (if p(x) then [x] else [])
  {
    FilterConcat(xs, [x], p);
    assert [x][1..] == [];
  }

  lemma {:induction false} FilterAscending<K>(xs: seq<K>, p: K -> bool, enc: K -> ByteString)
    requires Ascending(xs, enc)
    ensures Ascending(Filter(xs, p), enc)
  {
    if xs != [] {
      var ys := Filter(xs[1..], p);
      FilterAscending(xs[1..], p, enc);
      forall y | y in ys ensures LexLess(enc(xs[0]), enc(y)) {
        FilterMembers(xs[1..], p, y);
        var i :| 0 <= i < |xs| - 1 && xs[1..][i] == y;
        assert y == xs[i + 1];
      }
    }
  }
}
