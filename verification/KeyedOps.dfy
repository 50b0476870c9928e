/** Point updates of a map, one after another: what a change set does to a store. */
module KeyedOps {
  import opened Options

  datatype Op<K, V> = Put(key: K, value: V) | Delete(key: K) | Skip

  function ApplyOp<K, V>(m: map<K, V>, op: Op<K, V>): (r: map<K, V>) {
    match op
    case Put(k, v) => m[k := v]
    case Delete(k) => m - {k}
    case Skip => m
  }

  function ApplyOps<K, V>(m: map<K, V>, ops: seq<Op<K, V>>): (r: map<K, V>)
    decreases |ops|
  {
    if ops == [] then m else ApplyOps(ApplyOp(m, ops[0]), ops[1..])
  }

  lemma ApplyOne<K, V>(m: map<K, V>, op: Op<K, V>)
    ensures ApplyOps(m, [op]) == ApplyOp(m, op)
  {
    assert [op][1..] == [];
    assert ApplyOps(ApplyOp(m, op), []) == ApplyOp(m, op);
  }

  predicate Touches<K(==), V>(op: Op<K, V>, k: K) {
    !op.Skip? && op.key == k
  }

  /** The last operation on a key, or none. */
  function LastOp<K(==), V>(ops: seq<Op<K, V>>, k: K): (op: Op<K, V>) {
    if ops == [] then Skip
    else
      var later := LastOp(ops[1..], k);
      if !later.Skip? then later else if Touches(ops[0], k) then ops[0] else Skip
  }

  /** A key ends up as its last operation left it, and as it was if there was none. */
  lemma {:induction false} LastOpDecides<K, V>(m: map<K, V>, ops: seq<Op<K, V>>, k: K)
    ensures var r := ApplyOps(m, ops);
            match LastOp(ops, k)
            case Put(_, v) => k in r && r[k] == v
            case Delete(_) => k !in r
            case Skip => (k in r <==> k in m) && (k in m ==> r[k] == m[k])
    decreases |ops|
  {
    if ops != [] {
      LastOpDecides(ApplyOp(m, ops[0]), ops[1..], k);
    }
  }

  /** Replaying a batch right after itself changes nothing. */
  lemma ReplayChangesNothing<K(!new), V>(m: map<K, V>, ops: seq<Op<K, V>>)
    ensures ApplyOps(ApplyOps(m, ops), ops) == ApplyOps(m, ops)
  {
    var once := ApplyOps(m, ops);
    var twice := ApplyOps(once, ops);
    forall k
      ensures k in twice <==> k in once
      ensures k in once ==> twice[k] == once[k]
    {
      LastOpDecides(m, ops, k);
      LastOpDecides(once, ops, k);
    }
  }

  lemma {:induction false} ApplyOpsConcat<K, V>(m: map<K, V>, xs: seq<Op<K, V>>, ys: seq<Op<K, V>>)
    ensures ApplyOps(m, xs + ys) == ApplyOps(ApplyOps(m, xs), ys)
    decreases |xs|
  {
    if xs == [] {
      assert xs + ys == ys;
    } else {
      assert (xs + ys)[0] == xs[0] && (xs + ys)[1..] == xs[1..] + ys;
      ApplyOpsConcat(ApplyOp(m, xs[0]), xs[1..], ys);
    }
  }

  // ---------------------------------------------------------------- mirroring

  /** A typed map that holds exactly the decoded form of the entries of a raw store whose
      keys encode typed keys. Only the keys that `ok` singles out have an encoding. */
  ghost predicate Mirrors<K(!new), V, R, W>(raw: map<R, W>, typed: map<K, V>, ok: K -> bool, enc: K -> R,
                                            dec: W -> Option<V>) {
    forall k ::
      && (k in typed <==> ok(k) && enc(k) in raw)
      && (k in typed ==> dec(raw[enc(k)]) == Some(typed[k]))
  }

  /** The same wherever the raw value decodes. Where it does not, the typed map may hold
      anything or nothing; it never holds a key that the raw store has not. */
  ghost predicate Tracks<K(!new), V, R, W>(raw: map<R, W>, typed: map<K, V>, ok: K -> bool, enc: K -> R,
                                           dec: W -> Option<V>) {
    forall k ::
      && (k in typed ==> ok(k) && enc(k) in raw)
      && (ok(k) && enc(k) in raw && dec(raw[enc(k)]).Some? ==> k in typed && Some(typed[k]) == dec(raw[enc(k)]))
  }

  /** Every value stored under an encoded key decodes. */
  ghost predicate Decodable<K(!new), V, R, W>(raw: map<R, W>, ok: K -> bool, enc: K -> R, dec: W -> Option<V>) {
    forall k :: ok(k) && enc(k) in raw ==> dec(raw[enc(k)]).Some?
  }

  lemma MirrorsIff<K(!new), V, R, W>(raw: map<R, W>, typed: map<K, V>, ok: K -> bool, enc: K -> R, dec: W -> Option<V>)
    ensures Mirrors(raw, typed, ok, enc, dec) <==> Tracks(raw, typed, ok, enc, dec) && Decodable(raw, ok, enc, dec)
  {
  }

  ghost predicate Injective<K(!new), R>(enc: K -> R) {
    forall j, k :: enc(j) == enc(k) ==> j == k
  }

  ghost predicate InjectiveOn<K(!new), R>(ok: K -> bool, enc: K -> R) {
    forall j, k :: ok(j) && ok(k) && enc(j) == enc(k) ==> j == k
  }

  /** A typed operation that does to typed keys what a raw one does to raw keys, except
      that it does nothing when the raw one writes a value that does not decode. */
  ghost predicate Corresponds<K(!new), V, R, W>(rawOp: Op<R, W>, op: Op<K, V>, ok: K -> bool, enc: K -> R,
                                                dec: W -> Option<V>) {
    match op
    case Put(k, v) => ok(k) && rawOp.Put? && rawOp.key == enc(k) && dec(rawOp.value) == Some(v)
    case Delete(k) => ok(k) && rawOp == Delete(enc(k))
    case Skip =>
      || rawOp.Skip?
      || (forall k :: ok(k) ==> enc(k) != rawOp.key)
      || (rawOp.Put? && dec(rawOp.value) == None)
  }

  lemma TrackStep<K(!new), V, R, W>(raw: map<R, W>, typed: map<K, V>, ok: K -> bool, enc: K -> R, dec: W -> Option<V>,
                                    rawOp: Op<R, W>, op: Op<K, V>)
    requires InjectiveOn(ok, enc) && Tracks(raw, typed, ok, enc, dec) && Corresponds(rawOp, op, ok, enc, dec)
    ensures Tracks(ApplyOp(raw, rawOp), ApplyOp(typed, op), ok, enc, dec)
  {
  }

  lemma {:induction false} TrackRun<K(!new), V, R, W>(raw: map<R, W>, typed: map<K, V>, ok: K -> bool, enc: K -> R,
                                                     dec: W -> Option<V>, rawOps: seq<Op<R, W>>, ops: seq<Op<K, V>>)
    requires InjectiveOn(ok, enc) && Tracks(raw, typed, ok, enc, dec) && |rawOps| == |ops|
    requires forall i :: 0 <= i < |ops| ==> Corresponds(rawOps[i], ops[i], ok, enc, dec)
    ensures Tracks(ApplyOps(raw, rawOps), ApplyOps(typed, ops), ok, enc, dec)
    decreases |ops|
  {
    if ops != [] {
      hide Tracks, Corresponds, ApplyOp, InjectiveOn;
      TrackStep(raw, typed, ok, enc, dec, rawOps[0], ops[0]);
      TrackRun(ApplyOp(raw, rawOps[0]), ApplyOp(typed, ops[0]), ok, enc, dec, rawOps[1..], ops[1..]);
    }
  }

  /** Writing only values that decode keeps the store decodable. */
  lemma {:induction false} DecodableRun<K(!new), V, R, W>(raw: map<R, W>, ok: K -> bool, enc: K -> R,
                                                         dec: W -> Option<V>, rawOps: seq<Op<R, W>>)
    requires Decodable(raw, ok, enc, dec)
    requires forall i :: 0 <= i < |rawOps| && rawOps[i].Put? ==>
               dec(rawOps[i].value).Some? || forall k :: ok(k) ==> enc(k) != rawOps[i].key
    ensures Decodable(ApplyOps(raw, rawOps), ok, enc, dec)
    decreases |rawOps|
  {
    if rawOps != [] {
      assert Decodable(ApplyOp(raw, rawOps[0]), ok, enc, dec);
      DecodableRun(ApplyOp(raw, rawOps[0]), ok, enc, dec, rawOps[1..]);
    }
  }
}
