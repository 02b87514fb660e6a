/**
 * PHP strings and the three string built-ins the service relies on:
 * `implode`, `explode` (used only to state what a receiver of the URL
 * recovers) and `str_replace`, plus the byte order `strcmp` sorts by.
 */
module PhpStrings {

  /** A PHP string is a sequence of bytes; a byte is a character below 256,
      so that string literals can be written directly. */
  type Byte = c: char | c as int < 256
  type Bytes = seq<Byte>

  /** `implode(glue, pieces)`: the pieces with `glue` between neighbours. */
  function Implode(glue: Bytes, pieces: seq<Bytes>): Bytes
  {
    if |pieces| == 0 then []
    else if |pieces| == 1 then pieces[0]
    else pieces[0] + glue + Implode(glue, pieces[1..])
  }

  /** `explode(d, s)` for a one-byte delimiter: the maximal runs of `s`
      between occurrences of `d` (an empty `s` gives one empty piece). */
  function Explode(d: Byte, s: Bytes): (pieces: seq<Bytes>)
    ensures |pieces| >= 1
    ensures forall i :: 0 <= i < |pieces| ==> d !in pieces[i]
  {
    if s == [] then [[]]
    else
      var rest := Explode(d, s[1..]);
      if s[0] == d then [[]] + rest else [[s[0]] + rest[0]] + rest[1..]
  }

  /** `str_replace(search, replace, subject)` with a single search string:
      occurrences are found left to right and do not overlap; an empty
      search string leaves the subject alone. */
  function StrReplace(search: Bytes, replace: Bytes, subject: Bytes): Bytes
    decreases |subject|
  {
    if |search| == 0 || |subject| < |search| then subject
    else if subject[..|search|] == search then
      replace + StrReplace(search, replace, subject[|search|..])
    else [subject[0]] + StrReplace(search, replace, subject[1..])
  }

  /** `strcmp(a, b) < 0`: the first differing byte decides, and a proper
      prefix comes first. */
  predicate Precedes(a: Bytes, b: Bytes)
    decreases |a|
  {
    |b| > 0 && (|a| == 0 || a[0] < b[0] || (a[0] == b[0] && Precedes(a[1..], b[1..])))
  }

  /** `strcmp(a, b) <= 0`. */
  predicate AtMost(a: Bytes, b: Bytes)
  {
    a == b || Precedes(a, b)
  }

  lemma {:induction false} PrecedesIrreflexive(a: Bytes)
    ensures !Precedes(a, a)
    decreases |a|
  {
    if |a| > 0 {
      PrecedesIrreflexive(a[1..]);
    }
  }

  lemma {:induction false} PrecedesAsymmetric(a: Bytes, b: Bytes)
    ensures !(Precedes(a, b) && Precedes(b, a))
    decreases |a|
  {
    if |a| > 0 && |b| > 0 && a[0] == b[0] {
      PrecedesAsymmetric(a[1..], b[1..]);
    }
  }

  lemma {:induction false} PrecedesTransitive(a: Bytes, b: Bytes, c: Bytes)
    requires Precedes(a, b) && Precedes(b, c)
    ensures Precedes(a, c)
    decreases |a|
  {
    if |a| > 0 && a[0] == b[0] && b[0] == c[0] {
      PrecedesTransitive(a[1..], b[1..], c[1..]);
    }
  }

  /** Byte order is total: two different strings are always ordered. */
  lemma {:induction false} PrecedesTotal(a: Bytes, b: Bytes)
    ensures a == b || Precedes(a, b) || Precedes(b, a)
    decreases |a|
  {
    if |a| > 0 && |b| > 0 && a[0] == b[0] {
      PrecedesTotal(a[1..], b[1..]);
      if a[1..] == b[1..] {
        assert a == [a[0]] + a[1..] && b == [b[0]] + b[1..];
      }
    }
  }

  lemma {:induction false} ImplodeCons(glue: Bytes, x: Bytes, pieces: seq<Bytes>)
    requires |pieces| > 0
    ensures Implode(glue, [x] + pieces) == x + glue + Implode(glue, pieces)
  {
    assert ([x] + pieces)[1..] == pieces;
  }

  /** Appending a piece to a non-empty list puts one glue in front of it. */
  lemma {:induction false} ImplodeSnoc(glue: Bytes, pieces: seq<Bytes>, x: Bytes)
    requires |pieces| > 0
    ensures Implode(glue, pieces + [x]) == Implode(glue, pieces) + glue + x
    decreases |pieces|
  {
    if |pieces| == 1 {
      assert (pieces + [x])[1..] == [x];
    } else {
      assert (pieces + [x])[1..] == pieces[1..] + [x];
      ImplodeSnoc(glue, pieces[1..], x);
    }
  }

  lemma {:induction false} ExplodeNoDelimiter(d: Byte, x: Bytes, rest: Bytes)
    requires d !in x
    ensures Explode(d, x + [d] + rest) == [x] + Explode(d, rest)
    decreases |x|
  {
    if x == [] {
      assert ([d] + rest)[1..] == rest;
    } else {
      assert (x + [d] + rest)[1..] == x[1..] + [d] + rest;
      ExplodeNoDelimiter(d, x[1..], rest);
      assert [x[0]] + x[1..] == x;
    }
  }

  lemma {:induction false} ExplodeWhole(d: Byte, x: Bytes)
    requires d !in x
    ensures Explode(d, x) == [x]
    decreases |x|
  {
    if x != [] {
      ExplodeWhole(d, x[1..]);
      assert [x[0]] + x[1..] == x;
    }
  }

  /** `explode` undoes `implode` when no piece holds the delimiter. */
  lemma {:induction false} ExplodeImplode(d: Byte, pieces: seq<Bytes>)
    requires |pieces| > 0
    requires forall i :: 0 <= i < |pieces| ==> d !in pieces[i]
    ensures Explode(d, Implode([d], pieces)) == pieces
    decreases |pieces|
  {
    if |pieces| == 1 {
      ExplodeWhole(d, pieces[0]);
    } else {
      ExplodeImplode(d, pieces[1..]);
      ExplodeNoDelimiter(d, pieces[0], Implode([d], pieces[1..]));
      assert [pieces[0]] + pieces[1..] == pieces;
    }
  }

  /** `implode` undoes `explode`: no byte is lost or added. */
  lemma {:induction false} ImplodeExplode(d: Byte, s: Bytes)
    ensures Implode([d], Explode(d, s)) == s
    decreases |s|
  {
    if s != [] {
      var rest := Explode(d, s[1..]);
      ImplodeExplode(d, s[1..]);
      if s[0] == d {
        ImplodeCons([d], [], rest);
      } else if |rest| == 1 {
        assert Explode(d, s) == [[s[0]] + rest[0]];
      } else {
        assert rest == [rest[0]] + rest[1..];
        ImplodeCons([d], rest[0], rest[1..]);
        ImplodeCons([d], [s[0]] + rest[0], rest[1..]);
      }
    }
  }
}
