/**
 * A PHP associative array with string keys: an ordered list of entries
 * whose keys are all different. Assigning `$a[k] = v` overwrites the
 * value in place when `k` is present and appends a new entry otherwise.
 */
module PhpArray {
  import opened PhpStrings
  import opened Wrappers

  datatype Entry = Entry(key: Bytes, value: Bytes)

  function Keys(p: seq<Entry>): (ks: seq<Bytes>)
    ensures |ks| == |p|
  {
    if p == [] then [] else [p[0].key] + Keys(p[1..])
  }

  lemma {:induction false} KeysAt(p: seq<Entry>, i: nat)
    requires i < |p|
    ensures Keys(p)[i] == p[i].key
    decreases |p|
  {
    if i > 0 {
      KeysAt(p[1..], i - 1);
    }
  }

  predicate DistinctKeys(p: seq<Entry>)
  {
    forall i, j :: 0 <= i < j < |p| ==> p[i].key != p[j].key
  }

  /** `$a[k]`, or None when `k` is not a key of `$a`. */
  function Lookup(p: seq<Entry>, k: Bytes): (r: Option<Bytes>)
    ensures r.Some? <==> k in Keys(p)
  {
    if p == [] then None
    else if p[0].key == k then
      assert Keys(p)[0] == k;
      Some(p[0].value)
    else
      Lookup(p[1..], k)
  }

  /** The entry at position `i` is what looking up its key finds. */
  lemma {:induction false} LookupAt(p: seq<Entry>, i: nat)
    requires DistinctKeys(p) && i < |p|
    ensures Lookup(p, p[i].key) == Some(p[i].value)
    decreases |p|
  {
    if i > 0 {
      LookupAt(p[1..], i - 1);
    }
  }

  /** `$a[k] = v`. */
  function Put(p: seq<Entry>, k: Bytes, v: Bytes): (r: seq<Entry>)
    requires DistinctKeys(p)
    ensures DistinctKeys(r)
    ensures k in Keys(p) ==> Keys(r) == Keys(p)
    ensures k !in Keys(p) ==> Keys(r) == Keys(p) + [k]
  {
    if p == [] then [Entry(k, v)]
    else if p[0].key == k then
      assert Keys(p)[0] == k;
      [Entry(k, v)] + p[1..]
    else
      var r' := Put(p[1..], k, v);
      var r := [p[0]] + r';
      assert r[0] == p[0] && r[1..] == r';
      assert Keys(r) == [p[0].key] + Keys(r');
      HeadKeyNotInTail(p);
      DistinctKeysCons(p[0], r');
      r
  }

  /** After `$a[k] = v`, `k` holds `v` and every other key what it held. */
  lemma {:induction false} PutLookup(p: seq<Entry>, k: Bytes, v: Bytes, k': Bytes)
    requires DistinctKeys(p)
    ensures Lookup(Put(p, k, v), k') == if k' == k then Some(v) else Lookup(p, k')
    decreases |p|
  {
    if p != [] && p[0].key != k {
      PutLookup(p[1..], k, v, k');
      assert ([p[0]] + Put(p[1..], k, v))[1..] == Put(p[1..], k, v);
    }
  }

  /** The keys of `ks` that are not among `present`, in their order. */
  function Missing(ks: seq<Bytes>, present: seq<Bytes>): seq<Bytes>
  {
    if ks == [] then []
    else (if ks[0] in present then [] else [ks[0]]) + Missing(ks[1..], present)
  }

  lemma DistinctKeysCons(e: Entry, q: seq<Entry>)
    requires DistinctKeys(q) && e.key !in Keys(q)
    ensures DistinctKeys([e] + q)
  {
    forall j | 0 <= j < |q| ensures e.key != q[j].key {
      KeysAt(q, j);
    }
  }

  lemma HeadKeyNotInTail(p: seq<Entry>)
    requires DistinctKeys(p) && p != []
    ensures p[0].key !in Keys(p[1..])
  {
    if p[0].key in Keys(p[1..]) {
      var i :| 0 <= i < |p[1..]| && Keys(p[1..])[i] == p[0].key;
      KeysAt(p[1..], i);
    }
  }

  lemma {:induction false} MissingSnoc(ks: seq<Bytes>, k: Bytes, present: seq<Bytes>)
    ensures Missing(ks + [k], present) == Missing(ks, present) + (if k in present then [] else [k])
    decreases |ks|
  {
    if ks == [] {
      assert [] + [k] == [k];
    } else {
      assert (ks + [k])[1..] == ks[1..] + [k];
      MissingSnoc(ks[1..], k, present);
    }
  }

  lemma {:induction false} MissingWithin(ks: seq<Bytes>, present: seq<Bytes>, x: Bytes)
    requires x in Missing(ks, present)
    ensures x in ks
    decreases |ks|
  {
    if x != ks[0] {
      MissingWithin(ks[1..], present, x);
    }
  }

  /** The key trail of a run of assignments: if `q` is `p` after assigning
      the keys `ks` (existing keys in place, absent ones appended), then
      assigning one more key `k` not among them appends `k` exactly when
      `p` lacked it. */
  lemma PutKeysTrail(p: seq<Entry>, q: seq<Entry>, ks: seq<Bytes>, k: Bytes, v: Bytes, ks': seq<Bytes>)
    requires DistinctKeys(q)
    requires Keys(q) == Keys(p) + Missing(ks, Keys(p))
    requires k !in ks && ks' == ks + [k]
    ensures Keys(Put(q, k, v)) == Keys(p) + Missing(ks', Keys(p))
  {
    MissingSnoc(ks, k, Keys(p));
    if k in Missing(ks, Keys(p)) {
      MissingWithin(ks, Keys(p), k);
    }
    assert k in Keys(q) <==> k in Keys(p);
  }
}
