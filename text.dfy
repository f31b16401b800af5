/** String operations of Python 2 that the deploy script relies on:
    `find`, `split` with a non-empty separator, `join`, `strip`, `startswith`,
    `endswith` and `replace` of a single character. Strings are `seq<char>`. */
module Text {

  datatype Option<T> = None | Some(value: T)

  predicate StartsWith(s: string, pre: string) {
    |pre| <= |s| && s[..|pre|] == pre
  }

  predicate EndsWith(s: string, suf: string) {
    |suf| <= |s| && s[|s| - |suf|..] == suf
  }

  /** `pat` occurs in `s` starting at index `i`. */
  predicate OccursAt(s: string, pat: string, i: nat) {
    i + |pat| <= |s| && s[i..i + |pat|] == pat
  }

  ghost predicate Contains(s: string, pat: string) {
    exists i: nat :: OccursAt(s, pat, i)
  }

  /** Python's `s.find(pat, from)`: the first occurrence at or after `from`. */
  function FindFrom(s: string, pat: string, from: nat): (r: Option<nat>)
    requires from <= |s|
    ensures r.Some? ==> from <= r.value && OccursAt(s, pat, r.value)
    ensures r.Some? ==> forall j: nat :: from <= j < r.value ==> !OccursAt(s, pat, j)
    ensures r.None? ==> forall j: nat :: from <= j ==> !OccursAt(s, pat, j)
    decreases |s| - from
  {
    if OccursAt(s, pat, from) then Some(from)
    else if from + |pat| >= |s| then None
    else FindFrom(s, pat, from + 1)
  }

  /** Python's `s.find(pat)`, with `None` for -1. */
  function Find(s: string, pat: string): (r: Option<nat>)
    ensures r.Some? ==> OccursAt(s, pat, r.value)
    ensures r.Some? ==> forall j: nat :: j < r.value ==> !OccursAt(s, pat, j)
    ensures r.None? <==> !Contains(s, pat)
  {
    FindFrom(s, pat, 0)
  }

  /** Python's `sep.join(pieces)`. */
  function Join(pieces: seq<string>, sep: string): string
  {
    if |pieces| == 0 then ""
    else if |pieces| == 1 then pieces[0]
    else pieces[0] + sep + Join(pieces[1..], sep)
  }

  /** Python's `s.split(sep)` for a non-empty separator: the pieces between the
      non-overlapping occurrences of `sep`, scanned from the left. */
  function Split(s: string, sep: string): (r: seq<string>)
    requires sep != ""
    ensures |r| >= 1
    ensures Join(r, sep) == s
    ensures forall k :: 0 <= k < |r| ==> !Contains(r[k], sep)
    decreases |s|
  {
    match Find(s, sep)
    case None => [s]
    case Some(i) =>
      var head, tail := s[..i], s[i + |sep|..];
      BeforeFirst(s, sep, i);
      var rest := Split(tail, sep);
      assert s == head + sep + tail;
      [head] + rest
  }

  /** The text before the first occurrence of `pat` does not contain it. */
  lemma BeforeFirst(s: string, pat: string, i: nat)
    requires pat != "" && Find(s, pat) == Some(i)
    ensures !Contains(s[..i], pat)
  {
    forall j: nat | OccursAt(s[..i], pat, j) ensures false {
      assert s[j..j + |pat|] == s[..i][j..j + |pat|];
      assert OccursAt(s, pat, j) && j < i;
    }
  }

  function Last<T>(xs: seq<T>): T
    requires |xs| > 0
  {
    xs[|xs| - 1]
  }

  /** Python's `s.replace(c, with)` for a one-character `c`. */
  function ReplaceChar(s: string, c: char, with: string): (r: string)
    ensures c !in with ==> c !in r
    ensures forall d :: d in r ==> d in s || d in with
    ensures |with| == 1 ==> |r| == |s|
  {
    if s == [] then ""
    else (if s[0] == c then with else [s[0]]) + ReplaceChar(s[1..], c, with)
  }

  /** Python's `s.lstrip(chars)`. */
  function StripLeft(s: string, chars: set<char>): (r: string)
    ensures EndsWith(s, r)
    ensures r == [] || r[0] !in chars
    ensures forall i :: 0 <= i < |s| - |r| ==> s[i] in chars
  {
    if s != [] && s[0] in chars then
      var r := StripLeft(s[1..], chars);
      assert s[|s| - |r|..] == s[1..][|s| - 1 - |r|..];
      assert forall i :: 1 <= i < |s| - |r| ==> s[i] == s[1..][i - 1];
      r
    else s
  }

  /** Python's `s.rstrip(chars)`. */
  function StripRight(s: string, chars: set<char>): (r: string)
    ensures StartsWith(s, r)
    ensures r == [] || Last(r) !in chars
    ensures forall i :: |r| <= i < |s| ==> s[i] in chars
  {
    if s != [] && Last(s) in chars then
      var r := StripRight(s[..|s| - 1], chars);
      assert s[..|r|] == s[..|s| - 1][..|r|];
      r
    else s
  }

  /** Python's `s.strip(chars)`. */
  function Strip(s: string, chars: set<char>): (r: string)
  {
    StripRight(StripLeft(s, chars), chars)
  }

  /** Python's `s[a:b]` slice with clamping, for non-negative bounds. */
  function Slice(s: string, a: nat, b: nat): (r: string)
    ensures |r| <= |s|
  {
    var lo := if a <= |s| then a else |s|;
    var hi := if b <= |s| then b else |s|;
    if lo <= hi then s[lo..hi] else ""
  }

  // ---------------------------------------------------------------------
  // Lemmas

  /** Each piece of a split but the last ends where the first occurrence of
      the separator in what is left of the string begins. */
  lemma {:induction false} SplitFirst(s: string, sep: string)
    requires sep != ""
    ensures var r := Split(s, sep);
      forall k :: 0 <= k < |r| - 1 ==> Find(Join(r[k..], sep), sep) == Some(|r[k]|)
    decreases |s|
  {
    var r := Split(s, sep);
    if |r| > 1 {
      var i := SplitHead(s, sep);
      var tail := s[i + |sep|..];
      var rest := Split(tail, sep);
      SplitFirst(tail, sep);
      forall k | 0 <= k < |r| - 1 ensures Find(Join(r[k..], sep), sep) == Some(|r[k]|) {
        if k == 0 {
          assert r[0..] == r;
        } else {
          assert r[k..] == rest[k - 1..] && r[k] == rest[k - 1];
        }
      }
    }
  }

  /** A split into more than one piece cuts at the first occurrence. */
  lemma SplitHead(s: string, sep: string) returns (i: nat)
    requires sep != "" && |Split(s, sep)| > 1
    ensures Find(s, sep) == Some(i) && i + |sep| <= |s|
    ensures Split(s, sep) == [s[..i]] + Split(s[i + |sep|..], sep)
  {
    i := Find(s, sep).value;
  }

  /** Python's clamping of `s[a:b]`: the characters from `a` to `b`, cut at
      the end of `s`, and empty when `b <= a` or `a` is past the end. */
  lemma SliceClamps(s: string, a: nat, b: nat)
    ensures a <= b <= |s| ==> Slice(s, a, b) == s[a..b]
    ensures a <= |s| <= b ==> Slice(s, a, b) == s[a..]
    ensures b <= a || |s| <= a ==> Slice(s, a, b) == ""
  {
  }

  /** `c` occurs as a one-character pattern exactly when it is an element. */
  lemma ContainsChar(s: string, c: char)
    ensures Contains(s, [c]) <==> c in s
  {
    if c in s {
      var i :| 0 <= i < |s| && s[i] == c;
      assert OccursAt(s, [c], i);
    }
    if Contains(s, [c]) {
      var i: nat :| OccursAt(s, [c], i);
      assert s[i] == c;
    }
  }

  /** Splitting on `c` undoes joining with `c` when no piece contains `c`. */
  lemma {:induction false} SplitJoin(pieces: seq<string>, c: char)
    requires |pieces| >= 1
    requires forall k :: 0 <= k < |pieces| ==> c !in pieces[k]
    ensures Split(Join(pieces, [c]), [c]) == pieces
    decreases |pieces|
  {
    var s := Join(pieces, [c]);
    var a := pieces[0];
    ContainsChar(a, c);
    if |pieces| == 1 {
      assert Find(s, [c]) == None;
    } else {
      var rest := Join(pieces[1..], [c]);
      assert s == a + [c] + rest;
      assert OccursAt(s, [c], |a|) by {
        assert s[|a|..|a| + 1] == [c];
      }
      forall j: nat | j < |a| ensures !OccursAt(s, [c], j) {
        assert s[j] == a[j];
      }
      assert Find(s, [c]) == Some(|a|);
      assert s[|a| + 1..] == rest;
      SplitJoin(pieces[1..], c);
    }
  }

  /** Joining with `c` and then replacing `c` by `d` is joining with `d`,
      when no piece contains `c`. */
  lemma {:induction false} ReplaceJoin(pieces: seq<string>, c: char, d: char)
    requires forall k :: 0 <= k < |pieces| ==> c !in pieces[k]
    ensures ReplaceChar(Join(pieces, [c]), c, [d]) == Join(pieces, [d])
    decreases |pieces|
  {
    if |pieces| == 0 {
    } else if |pieces| == 1 {
      ReplaceAbsent(pieces[0], c, [d]);
    } else {
      var a, tail := pieces[0], pieces[1..];
      var rest := Join(tail, [c]);
      assert Join(pieces, [c]) == a + ([c] + rest);
      assert Join(pieces, [d]) == a + ([d] + Join(tail, [d]));
      forall k | 0 <= k < |tail| ensures c !in tail[k] {
        assert tail[k] == pieces[k + 1];
      }
      ReplaceJoin(tail, c, d);
      ReplaceConcat(a, [c] + rest, c, [d]);
      ReplaceAbsent(a, c, [d]);
      ReplaceConcat([c], rest, c, [d]);
      assert ReplaceChar([c], c, [d]) == [d];
    }
  }

  lemma {:induction false} ReplaceAbsent(s: string, c: char, with: string)
    requires c !in s
    ensures ReplaceChar(s, c, with) == s
  {
    if s != [] {
      ReplaceAbsent(s[1..], c, with);
    }
  }

  lemma {:induction false} ReplaceConcat(a: string, b: string, c: char, with: string)
    ensures ReplaceChar(a + b, c, with) == ReplaceChar(a, c, with) + ReplaceChar(b, c, with)
  {
    if a == [] {
      assert a + b == b;
    } else {
      assert (a + b)[1..] == a[1..] + b;
      ReplaceConcat(a[1..], b, c, with);
    }
  }

  lemma Affixes(a: string, b: string)
    ensures StartsWith(a + b, a) && EndsWith(a + b, b)
  {
    assert (a + b)[..|a|] == a;
    assert (a + b)[|a|..] == b;
  }

  lemma StartsWithAppend(a: string, b: string, c: string)
    requires StartsWith(a, b)
    ensures StartsWith(a + c, b)
  {
    assert (a + c)[..|b|] == a[..|b|];
  }

  lemma EndsWithPrepend(a: string, b: string, c: string)
    requires EndsWith(a, b)
    ensures EndsWith(c + a, b)
  {
    assert (c + a)[|c + a| - |b|..] == a[|a| - |b|..];
  }

  lemma EndsWithAppend(a: string, b: string, c: string)
    requires EndsWith(a, b)
    ensures EndsWith(a + c, b + c)
  {
    assert (a + c)[|a + c| - |b + c|..] == a[|a| - |b|..] + c;
  }
}
