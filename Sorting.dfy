/**
 * PHP's `asort` on a list of strings, as the signer uses it: ascending
 * byte order (`strcmp`), the result a permutation of the input. PHP
 * compares two numeric strings as numbers, but every string sorted here
 * holds `=`, so no string is numeric and plain byte order applies.
 * The library's own algorithm is not visible; insertion sort stands for
 * it, and `SortedPermutationUnique` shows that any algorithm meeting the
 * same contract gives the same list.
 */
module Sorting {
  import opened PhpStrings

  predicate Sorted(s: seq<Bytes>)
  {
    forall i, j :: 0 <= i < j < |s| ==> AtMost(s[i], s[j])
  }

  predicate StrictlyIncreasing(s: seq<Bytes>)
  {
    forall i, j :: 0 <= i < j < |s| ==> Precedes(s[i], s[j])
  }

  predicate Distinct(s: seq<Bytes>)
  {
    forall i, j :: 0 <= i < j < |s| ==> s[i] != s[j]
  }

  /** Places `x` in front of the first element it does not follow. */
  function Insert(x: Bytes, s: seq<Bytes>): (r: seq<Bytes>)
    requires Sorted(s)
    ensures Sorted(r)
    ensures multiset(r) == multiset(s) + multiset{x}
  {
    if s == [] || AtMost(x, s[0]) then
      InsertFront(x, s);
      [x] + s
    else
      var r' := Insert(x, s[1..]);
      PrecedesTotal(x, s[0]);
      InsertBehind(s[0], x, s[1..], r');
      assert s == [s[0]] + s[1..];
      [s[0]] + r'
  }

  lemma InsertFront(x: Bytes, s: seq<Bytes>)
    requires Sorted(s)
    requires s == [] || AtMost(x, s[0])
    ensures Sorted([x] + s)
  {
    var r := [x] + s;
    forall i, j | 0 <= i < j < |r| ensures AtMost(r[i], r[j]) {
      if i == 0 && j > 1 {
        assert r[j] == s[j - 1];
        if x != s[0] && s[0] != s[j - 1] {
          PrecedesTransitive(x, s[0], s[j - 1]);
        }
      }
    }
  }

  lemma InsertBehind(h: Bytes, x: Bytes, t: seq<Bytes>, r': seq<Bytes>)
    requires Sorted([h] + t) && Sorted(r')
    requires Precedes(h, x)
    requires multiset(r') == multiset(t) + multiset{x}
    ensures Sorted([h] + r')
  {
    var r := [h] + r';
    forall i, j | 0 <= i < j < |r| ensures AtMost(r[i], r[j]) {
      if i == 0 {
        var y := r'[j - 1];
        assert r[j] == y;
        assert y in multiset(r');
        if y != x {
          assert y in multiset(t);
          var k :| 0 <= k < |t| && t[k] == y;
          assert ([h] + t)[0] == h && ([h] + t)[k + 1] == y;
          assert AtMost(h, y);
        } else {
          assert AtMost(h, y);
        }
      } else {
        assert r[i] == r'[i - 1] && r[j] == r'[j - 1];
      }
    }
  }

  /** The sorted copy: ascending, and the same strings as often as before. */
  function SortAscending(s: seq<Bytes>): (r: seq<Bytes>)
    ensures Sorted(r)
    ensures multiset(r) == multiset(s)
  {
    if s == [] then []
    else
      assert s == [s[0]] + s[1..];
      Insert(s[0], SortAscending(s[1..]))
  }

  /** Two sorted lists with the same contents start alike. */
  lemma SortedHeadsAgree(a: seq<Bytes>, b: seq<Bytes>)
    requires Sorted(a) && Sorted(b)
    requires multiset(a) == multiset(b)
    requires a != []
    ensures b != [] && a[0] == b[0]
  {
    assert a[0] in multiset(b);
    assert b[0] in multiset(a);
    var i :| 0 <= i < |b| && b[i] == a[0];
    var j :| 0 <= j < |a| && a[j] == b[0];
    assert AtMost(b[0], a[0]) && AtMost(a[0], b[0]);
    PrecedesAsymmetric(a[0], b[0]);
  }

  /** Dropping equal heads leaves equal contents. */
  lemma TailsAgree(a: seq<Bytes>, b: seq<Bytes>)
    requires a != [] && b != [] && a[0] == b[0]
    requires multiset(a) == multiset(b)
    ensures multiset(a[1..]) == multiset(b[1..])
  {
    assert a == [a[0]] + a[1..] && b == [b[0]] + b[1..];
    assert multiset(a[1..]) == multiset(a) - multiset{a[0]};
    assert multiset(b[1..]) == multiset(b) - multiset{b[0]};
  }

  /** A sorted list is determined by its contents: whatever algorithm sorts,
      the result is that of `SortAscending`. */
  lemma {:induction false} SortedPermutationUnique(a: seq<Bytes>, b: seq<Bytes>)
    requires Sorted(a) && Sorted(b)
    requires multiset(a) == multiset(b)
    ensures a == b
    decreases |a|
  {
    if a == [] {
      assert |b| == |multiset(b)| == 0;
    } else {
      SortedHeadsAgree(a, b);
      TailsAgree(a, b);
      SortedPermutationUnique(a[1..], b[1..]);
      assert a == [a[0]] + a[1..] && b == [b[0]] + b[1..];
    }
  }

  lemma {:induction false} DistinctAtMostOnce(s: seq<Bytes>, x: Bytes)
    requires Distinct(s)
    ensures multiset(s)[x] <= 1
    decreases |s|
  {
    if s != [] {
      assert s == [s[0]] + s[1..];
      DistinctAtMostOnce(s[1..], x);
      if s[0] == x {
        assert x !in s[1..];
      }
    }
  }

  /** Sorting strings that are all different yields a strictly ascending
      list: no two neighbours are equal. */
  lemma DistinctSortedStrict(s: seq<Bytes>, r: seq<Bytes>)
    requires Distinct(s)
    requires Sorted(r) && multiset(r) == multiset(s)
    ensures Distinct(r) && StrictlyIncreasing(r)
  {
    forall i, j | 0 <= i < j < |r| ensures r[i] != r[j] {
      if r[i] == r[j] {
        assert r == r[..j] + r[j..];
        assert r[i] in multiset(r[..j]) && r[j] in multiset(r[j..]);
        assert multiset(r)[r[i]] == multiset(r[..j])[r[i]] + multiset(r[j..])[r[i]];
        DistinctAtMostOnce(s, r[i]);
      }
    }
  }
}
