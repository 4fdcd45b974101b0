/** Lexicographic order of byte strings (std::string's operator<, which
    compares bytes as unsigned) and ordered sets stored as strictly sorted
    sequences, the representation of std::set and of a sorted, de-duplicated
    std::vector. */
module Ordering {
  import opened Text

  predicate LexLess(a: Bytes, b: Bytes)
  {
    if |a| == 0 then |b| > 0
    else if |b| == 0 then false
    else if a[0] != b[0] then a[0] < b[0]
    else LexLess(a[1..], b[1..])
  }

  /** operator< on byte strings is a strict total order. */
  lemma {:induction false} LexLessTotal(a: Bytes, b: Bytes)
    ensures a == b || LexLess(a, b) || LexLess(b, a)
    ensures !(LexLess(a, b) && LexLess(b, a))
    ensures !LexLess(a, a)
  {
    if |a| > 0 && |b| > 0 {
      LexLessTotal(a[1..], b[1..]);
      if a[0] == b[0] && a[1..] == b[1..] {
        assert a == [a[0]] + a[1..] && b == [b[0]] + b[1..];
      }
    } else if |a| > 0 {
      LexLessTotal(a[1..], a[1..]);
    }
  }

  lemma {:induction false} LexLessTransitive(a: Bytes, b: Bytes, c: Bytes)
    requires LexLess(a, b) && LexLess(b, c)
    ensures LexLess(a, c)
  {
    if |a| > 0 && a[0] == b[0] && b[0] == c[0] {
      LexLessTransitive(a[1..], b[1..], c[1..]);
    }
  }

  /** Elements in strictly increasing order of their keys. */
  predicate StrictlySorted<T>(xs: seq<T>, key: T -> Bytes)
  {
    forall i, j :: 0 <= i < j < |xs| ==> LexLess(key(xs[i]), key(xs[j]))
  }

  /** Distinct elements have distinct keys. */
  ghost predicate Injective<T(!new)>(key: T -> Bytes)
  {
    forall a, b :: key(a) == key(b) ==> a == b
  }

  /** std::set::insert: x is added in its place unless already present. */
  function Insert<T(!new)>(xs: seq<T>, x: T, key: T -> Bytes): (r: seq<T>)
    requires StrictlySorted(xs, key) && Injective(key)
    ensures StrictlySorted(r, key)
    ensures forall y :: y in r <==> y in xs || y == x
  {
    if xs == [] then [x]
    else if LexLess(key(x), key(xs[0])) then
      forall j | 0 < j < |xs| ensures LexLess(key(x), key(xs[j])) {
        LexLessTransitive(key(x), key(xs[0]), key(xs[j]));
      }
      [x] + xs
    else if key(x) == key(xs[0]) then xs
    else
      LexLessTotal(key(x), key(xs[0]));
      var rest := Insert(xs[1..], x, key);
      assert forall y :: y in rest ==> LexLess(key(xs[0]), key(y));
      [xs[0]] + rest
  }

  /** Sorting with duplicates removed (`std::sort` then `std::unique`, or a
      std::set filled one element at a time). */
  function SortUnique<T(!new)>(xs: seq<T>, key: T -> Bytes): (r: seq<T>)
    requires Injective(key)
    ensures StrictlySorted(r, key)
    ensures forall y :: y in r <==> y in xs
  {
    if xs == [] then []
    else Insert(SortUnique(xs[..|xs| - 1], key), xs[|xs| - 1], key)
  }

  /** Two strictly sorted sequences with the same elements are equal: an
      ordered set has exactly one representation. */
  lemma {:induction false} SortedUnique<T(!new)>(xs: seq<T>, ys: seq<T>, key: T -> Bytes)
    requires StrictlySorted(xs, key) && StrictlySorted(ys, key)
    requires forall y :: y in xs <==> y in ys
    ensures xs == ys
  {
    assert xs != [] ==> xs[0] in ys;
    assert ys != [] ==> ys[0] in xs;
    if xs != [] && ys != [] {
      if xs[0] != ys[0] {
        assert ys[0] in xs && xs[0] in ys;
        var i :| 0 <= i < |xs| && xs[i] == ys[0];
        var j :| 0 <= j < |ys| && ys[j] == xs[0];
        assert i > 0 && j > 0;
        LexLessTotal(key(xs[0]), key(ys[0]));
      } else {
        forall y ensures y in xs[1..] <==> y in ys[1..] {
          if y in xs[1..] {
            var i :| 1 <= i < |xs| && xs[i] == y;
            LexLessTotal(key(xs[0]), key(y));
            assert y in ys;
            var j :| 0 <= j < |ys| && ys[j] == y;
            assert j != 0;
            assert ys[1..][j - 1] == y;
          }
          if y in ys[1..] {
            var j :| 1 <= j < |ys| && ys[j] == y;
            LexLessTotal(key(ys[0]), key(y));
            assert y in xs;
            var i :| 0 <= i < |xs| && xs[i] == y;
            assert i != 0;
            assert xs[1..][i - 1] == y;
          }
        }
        SortedUnique(xs[1..], ys[1..], key);
        assert xs == [xs[0]] + xs[1..] && ys == [ys[0]] + ys[1..];
      }
    }
  }

  /** Sorting a sequence that is already strictly sorted changes nothing. */
  lemma SortUniqueOfSorted<T(!new)>(xs: seq<T>, key: T -> Bytes)
    requires Injective(key) && StrictlySorted(xs, key)
    ensures SortUnique(xs, key) == xs
  {
    SortedUnique(SortUnique(xs, key), xs, key);
  }
}
