/** Python's ordering of strings (code point by code point, a proper prefix
    first) and `list.sort()` over it, as a stable insertion sort keyed by a
    string. */
module Order {

  /** `a <= b` in Python's string order. */
  predicate Below(a: string, b: string)
    decreases |a|
  {
    a == [] || (b != [] && (a[0] < b[0] || (a[0] == b[0] && Below(a[1..], b[1..]))))
  }

  lemma {:induction false} BelowReflexive(a: string)
    ensures Below(a, a)
    decreases |a|
  {
    if a != [] {
      BelowReflexive(a[1..]);
    }
  }

  lemma {:induction false} BelowTotal(a: string, b: string)
    ensures Below(a, b) || Below(b, a)
    decreases |a|
  {
    if a != [] && b != [] && a[0] == b[0] {
      BelowTotal(a[1..], b[1..]);
    }
  }

  lemma {:induction false} BelowAntisymmetric(a: string, b: string)
    requires Below(a, b) && Below(b, a)
    ensures a == b
    decreases |a|
  {
    if a != [] && b != [] {
      BelowAntisymmetric(a[1..], b[1..]);
      assert a == [a[0]] + a[1..] && b == [b[0]] + b[1..];
    }
  }

  lemma {:induction false} BelowTransitive(a: string, b: string, c: string)
    requires Below(a, b) && Below(b, c)
    ensures Below(a, c)
    decreases |a|
  {
    if a != [] && b != [] && c != [] && a[0] == b[0] == c[0] {
      BelowTransitive(a[1..], b[1..], c[1..]);
    }
  }

  /** The keys of `xs` are in non-decreasing order. */
  predicate SortedBy<T>(xs: seq<T>, key: T -> string) {
    forall i, j :: 0 <= i < j < |xs| ==> Below(key(xs[i]), key(xs[j]))
  }

  /** Inserts `x` before the first element whose key is not below it. */
  function Insert<T>(x: T, xs: seq<T>, key: T -> string): (r: seq<T>)
    requires SortedBy(xs, key)
    ensures SortedBy(r, key)
    ensures multiset(r) == multiset(xs) + multiset{x}
  {
    if xs == [] then [x]
    else if Below(key(x), key(xs[0])) then
      forall j | 0 <= j < |xs| ensures Below(key(x), key(xs[j])) {
        if j > 0 { BelowTransitive(key(x), key(xs[0]), key(xs[j])); }
      }
      [x] + xs
    else
      var tail := Insert(x, xs[1..], key);
      BelowTotal(key(x), key(xs[0]));
      forall j | 0 <= j < |tail| ensures Below(key(xs[0]), key(tail[j])) {
        assert tail[j] in multiset(tail);
        if tail[j] != x {
          assert tail[j] in multiset(xs[1..]);
          var k :| 0 <= k < |xs[1..]| && xs[1..][k] == tail[j];
          assert xs[k + 1] == tail[j];
        }
      }
      assert xs == [xs[0]] + xs[1..];
      [xs[0]] + tail
  }

  /** Python's `list.sort()` with `key`: a sorted permutation of `xs`. */
  function SortBy<T>(xs: seq<T>, key: T -> string): (r: seq<T>)
    ensures SortedBy(r, key)
    ensures multiset(r) == multiset(xs)
  {
    if xs == [] then []
    else
      assert xs == [xs[0]] + xs[1..];
      Insert(xs[0], SortBy(xs[1..], key), key)
  }

  function Id(s: string): string { s }

  /** Python's `list.sort()` on a list of strings. */
  function Sort(xs: seq<string>): (r: seq<string>)
    ensures SortedBy(r, Id)
    ensures multiset(r) == multiset(xs)
  {
    SortBy(xs, Id)
  }

  /** The head of a sorted list is below every element. */
  lemma SortedHead(a: seq<string>, x: string)
    requires SortedBy(a, Id) && x in a
    ensures Below(a[0], x)
  {
    var i :| 0 <= i < |a| && a[i] == x;
    if i == 0 { BelowReflexive(x); } else { assert Below(Id(a[0]), Id(a[i])); }
  }

  lemma SortedTail(a: seq<string>)
    requires SortedBy(a, Id) && a != []
    ensures SortedBy(a[1..], Id)
  {
    forall i, j | 0 <= i < j < |a[1..]| ensures Below(Id(a[1..][i]), Id(a[1..][j])) {
      assert a[1..][i] == a[i + 1] && a[1..][j] == a[j + 1];
    }
  }

  lemma MultisetTail(a: seq<string>, b: seq<string>)
    requires a != [] && b != [] && a[0] == b[0] && multiset(a) == multiset(b)
    ensures multiset(a[1..]) == multiset(b[1..])
  {
    assert a == [a[0]] + a[1..] && b == [b[0]] + b[1..];
    var x, y := multiset(a[1..]), multiset(b[1..]);
    assert multiset(a) == multiset{a[0]} + x;
    assert multiset(b) == multiset{a[0]} + y;
    forall z ensures x[z] == y[z] {
      assert (multiset{a[0]} + x)[z] == (multiset{a[0]} + y)[z];
    }
  }

  /** Two sorted lists of strings with the same elements are equal: the
      result of sorting does not depend on the order the input came in. */
  lemma {:induction false} SortedUnique(a: seq<string>, b: seq<string>)
    requires SortedBy(a, Id) && SortedBy(b, Id)
    requires multiset(a) == multiset(b)
    ensures a == b
    decreases |a|
  {
    if a != [] {
      assert |b| == |a| by { assert |multiset(a)| == |multiset(b)|; }
      assert a[0] in multiset(b) && b[0] in multiset(a);
      SortedHead(b, a[0]);
      SortedHead(a, b[0]);
      BelowAntisymmetric(a[0], b[0]);
      var a', b' := a[1..], b[1..];
      assert a == [a[0]] + a' && b == [b[0]] + b';
      MultisetTail(a, b);
      SortedTail(a);
      SortedTail(b);
      SortedUnique(a', b');
      assert a' == b';
    }
  }
}
