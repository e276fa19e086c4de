/** The table operations the pandas code leans on, over sequences of rows:
    boolean-mask filtering, `drop_duplicates` (keep first), `groupby().head(n)`,
    and sorting. Each keep-or-drop operation is defined on the last row so that
    "what is kept depends only on the rows before it" is visible in the
    definition. */
module Seqs {
  import opened Wrappers
  import opened Strings

  function Min(a: int, b: int): int { if a <= b then a else b }

  function Last<T>(s: seq<T>): T
    requires s != []
  {
    s[|s| - 1]
  }

  function Init<T>(s: seq<T>): seq<T>
    requires s != []
  {
    s[..|s| - 1]
  }

  /** A sequence is its front followed by its last element. */
  lemma InitOrLast<T>(s: seq<T>, x: T)
    requires s != [] && x in s
    ensures x in Init(s) || x == Last(s)
  {
    var i :| 0 <= i < |s| && s[i] == x;
    if i < |s| - 1 {
      assert Init(s)[i] == x;
    }
  }

  lemma InitMember<T>(s: seq<T>, x: T)
    requires s != [] && x in Init(s)
    ensures x in s
  {
    var i :| 0 <= i < |Init(s)| && Init(s)[i] == x;
    assert s[i] == x;
  }

  lemma LastMember<T>(s: seq<T>)
    requires s != []
    ensures Last(s) in s
  {
  }

  /* ---------------------------------------------------------------------
     Order-preserving subsequences
     --------------------------------------------------------------------- */

  /** `r` is obtained from `s` by dropping rows and keeping the order of the rest. */
  predicate IsSubseq<T(==)>(r: seq<T>, s: seq<T>)
    decreases |s|
  {
    if r == [] then true
    else if s == [] then false
    else if Last(r) == Last(s) then IsSubseq(Init(r), Init(s))
    else IsSubseq(r, Init(s))
  }

  lemma SubseqKeepLast<T>(r: seq<T>, s: seq<T>, x: T)
    requires IsSubseq(r, s)
    ensures IsSubseq(r + [x], s + [x])
  {
    assert Init(r + [x]) == r && Init(s + [x]) == s;
  }

  lemma {:induction false} SubseqDropLast<T>(r: seq<T>, s: seq<T>, x: T)
    requires IsSubseq(r, s)
    ensures IsSubseq(r, s + [x])
    decreases |s|, 1
  {
    assert Init(s + [x]) == s;
    if r != [] && Last(r) == x {
      SubseqShorten(r, s);
    }
  }

  lemma {:induction false} SubseqShorten<T>(r: seq<T>, s: seq<T>)
    requires r != [] && IsSubseq(r, s)
    ensures IsSubseq(Init(r), s)
    decreases |s|, 0
  {
    assert s == Init(s) + [Last(s)];
    if Last(r) == Last(s) {
      SubseqDropLast(Init(r), Init(s), Last(s));
    } else {
      SubseqShorten(r, Init(s));
      SubseqDropLast(Init(r), Init(s), Last(s));
    }
  }

  lemma {:induction false} SubseqMembers<T>(r: seq<T>, s: seq<T>)
    requires IsSubseq(r, s)
    ensures |r| <= |s|
    ensures forall x :: x in r ==> x in s
    decreases |s|
  {
    if r != [] {
      assert r == Init(r) + [Last(r)] && s == Init(s) + [Last(s)];
      if Last(r) == Last(s) {
        SubseqMembers(Init(r), Init(s));
      } else {
        SubseqMembers(r, Init(s));
      }
    }
  }

  /* ---------------------------------------------------------------------
     Boolean-mask filtering: `df[mask]`
     --------------------------------------------------------------------- */

  function Filter<T(!new)>(s: seq<T>, keep: T -> bool): (r: seq<T>)
    ensures |r| <= |s|
    ensures forall x :: x in r <==> x in s && keep(x)
  {
    if s == [] then []
    else
      var init := Filter(Init(s), keep);
      assert s == Init(s) + [Last(s)];
      init + (if keep(Last(s)) then [Last(s)] else [])
  }

  lemma {:induction false} FilterIsSubseq<T(!new)>(s: seq<T>, keep: T -> bool)
    ensures IsSubseq(Filter(s, keep), s)
  {
    if s != [] {
      FilterIsSubseq(Init(s), keep);
      assert s == Init(s) + [Last(s)];
      if keep(Last(s)) {
        SubseqKeepLast(Filter(Init(s), keep), Init(s), Last(s));
      } else {
        assert Filter(s, keep) == Filter(Init(s), keep);
        SubseqDropLast(Filter(Init(s), keep), Init(s), Last(s));
      }
    }
  }

  /** Filtering a concatenation filters each part. */
  lemma {:induction false} FilterAppend<T(!new)>(a: seq<T>, b: seq<T>, keep: T -> bool)
    ensures Filter(a + b, keep) == Filter(a, keep) + Filter(b, keep)
    decreases |b|
  {
    if b == [] {
      assert a + b == a;
    } else {
      assert Init(a + b) == a + Init(b) && Last(a + b) == Last(b);
      FilterAppend(a, Init(b), keep);
      var tail := if keep(Last(b)) then [Last(b)] else [];
      assert Filter(a + b, keep) == Filter(a + Init(b), keep) + tail;
      assert Filter(b, keep) == Filter(Init(b), keep) + tail;
      assert (Filter(a, keep) + Filter(Init(b), keep)) + tail == Filter(a, keep) + (Filter(Init(b), keep) + tail);
    }
  }

  /** Two masks applied one after the other select what their conjunction selects. */
  lemma {:induction false} FilterFilter<T(!new)>(s: seq<T>, p: T -> bool, q: T -> bool, both: T -> bool)
    requires forall x :: both(x) == (p(x) && q(x))
    ensures Filter(Filter(s, p), q) == Filter(s, both)
  {
    if s != [] {
      var x := Last(s);
      FilterFilter(Init(s), p, q, both);
      var tail := if p(x) then [x] else [];
      FilterAppend(Filter(Init(s), p), tail, q);
      if p(x) {
        assert Init(tail) == [] && Last(tail) == x;
      }
    }
  }

  /* ---------------------------------------------------------------------
     Keys and counts
     --------------------------------------------------------------------- */

  /** The key of a table whose rows are the keys themselves. */
  function Identity(s: string): string { s }

  /** No two rows of `s` share a key. */
  predicate KeysDistinct<T, K(==)>(s: seq<T>, key: T -> K) {
    forall i, j :: 0 <= i < j < |s| ==> key(s[i]) != key(s[j])
  }

  /** Some row of `s` has key `k`. */
  predicate HasKey<T, K(==)>(s: seq<T>, key: T -> K, k: K) {
    exists i :: 0 <= i < |s| && key(s[i]) == k
  }

  /** The number of rows of `s` whose key is `k`. */
  function CountKey<T, K(==)>(s: seq<T>, key: T -> K, k: K): (n: nat)
    ensures n <= |s|
    ensures n == 0 <==> !HasKey(s, key, k)
  {
    if s == [] then 0
    else
      assert forall i :: 0 <= i < |s| - 1 ==> Init(s)[i] == s[i];
      CountKey(Init(s), key, k) + (if key(Last(s)) == k then 1 else 0)
  }

  /* ---------------------------------------------------------------------
     `drop_duplicates(subset=[key])`, keeping the first row of each key
     --------------------------------------------------------------------- */

  function DistinctBy<T, K(==,!new)>(s: seq<T>, key: T -> K): (r: seq<T>)
    ensures |r| <= |s|
    ensures forall x :: x in r ==> x in s
  {
    if s == [] then []
    else
      var init := DistinctBy(Init(s), key);
      var x := Last(s);
      if HasKey(Init(s), key, key(x)) then init else init + [x]
  }

  /** No two kept rows share a key. */
  lemma {:induction false} DistinctByKeysDistinct<T, K(!new)>(s: seq<T>, key: T -> K)
    ensures KeysDistinct(DistinctBy(s, key), key)
  {
    if s != [] {
      var init, x := Init(s), Last(s);
      DistinctByKeysDistinct(init, key);
      DistinctByKeepsKeys(init, key);
      var ri := DistinctBy(init, key);
      assert HasKey(init, key, key(x)) ==> DistinctBy(s, key) == ri;
      if !HasKey(init, key, key(x)) {
        var r := ri + [x];
        assert DistinctBy(s, key) == r;
        forall i, j | 0 <= i < j < |r| ensures key(r[i]) != key(r[j]) {
          if j == |r| - 1 {
            assert r[i] == ri[i] && r[j] == x;
            assert key(ri[i]) == key(x) ==> HasKey(ri, key, key(x));
          } else {
            assert r[i] == ri[i] && r[j] == ri[j];
          }
        }
      }
    }
  }

  /** Every key of the table is still present once duplicates are dropped. */
  lemma {:induction false} DistinctByKeepsKeys<T, K(!new)>(s: seq<T>, key: T -> K)
    ensures forall k :: HasKey(DistinctBy(s, key), key, k) <==> HasKey(s, key, k)
  {
    if s != [] {
      var init := Init(s);
      DistinctByKeepsKeys(init, key);
      var r := DistinctBy(s, key);
      var ri := DistinctBy(init, key);
      assert forall i :: 0 <= i < |init| ==> init[i] == s[i];
      forall k ensures HasKey(r, key, k) <==> HasKey(s, key, k) {
        if HasKey(s, key, k) && !HasKey(init, key, k) {
          assert key(Last(s)) == k;
          if HasKey(init, key, key(Last(s))) {
          } else {
            assert r[|r| - 1] == Last(s);
          }
        }
        if HasKey(r, key, k) && !HasKey(ri, key, k) {
          assert r == ri + [Last(s)];
          var i :| 0 <= i < |r| && key(r[i]) == k;
          assert i == |r| - 1;
          assert key(s[|s| - 1]) == k;
        }
        if HasKey(ri, key, k) && r != ri {
          var i :| 0 <= i < |ri| && key(ri[i]) == k;
          assert r[i] == ri[i];
        }
      }
    }
  }

  /** The row kept for each key is the first row of the table that has it. */
  lemma {:induction false} DistinctByKeepsFirst<T, K(!new)>(s: seq<T>, key: T -> K)
    ensures forall j :: 0 <= j < |s| && !HasKey(s[..j], key, key(s[j])) ==> s[j] in DistinctBy(s, key)
  {
    if s != [] {
      var init := Init(s);
      DistinctByKeepsFirst(init, key);
      forall j | 0 <= j < |s| && !HasKey(s[..j], key, key(s[j]))
        ensures s[j] in DistinctBy(s, key)
      {
        if j < |s| - 1 {
          assert s[..j] == init[..j] && s[j] == init[j];
          assert s[j] in DistinctBy(init, key);
        } else {
          assert s[..j] == init;
        }
      }
    }
  }

  /** Row `i` is the first row of `s` with its key. */
  predicate FirstOfKey<T, K(==)>(s: seq<T>, key: T -> K, i: int) {
    0 <= i < |s| && !HasKey(s[..i], key, key(s[i]))
  }

  /** Only first rows are kept: every kept row is the first row of its key. */
  lemma {:induction false} DistinctByOnlyFirst<T, K(!new)>(s: seq<T>, key: T -> K)
    ensures forall x :: x in DistinctBy(s, key) ==> exists i :: FirstOfKey(s, key, i) && s[i] == x
  {
    if s != [] {
      var init := Init(s);
      DistinctByOnlyFirst(init, key);
      forall x | x in DistinctBy(s, key) ensures exists i :: FirstOfKey(s, key, i) && s[i] == x {
        if x in DistinctBy(init, key) {
          var i :| FirstOfKey(init, key, i) && init[i] == x;
          assert s[..i] == init[..i] && s[i] == init[i];
          assert FirstOfKey(s, key, i);
        } else {
          assert s[..|s| - 1] == init;
          assert FirstOfKey(s, key, |s| - 1);
        }
      }
    }
  }

  /** In a table whose scores never increase, the row kept for a key has the
      highest score among the rows with that key. */
  lemma DistinctByKeepsBest<T, K(!new)>(s: seq<T>, key: T -> K, score: T -> int)
    requires ScoresNonIncreasing(s, score)
    ensures forall x, y :: x in DistinctBy(s, key) && y in s && key(y) == key(x) ==> score(x) >= score(y)
  {
    DistinctByOnlyFirst(s, key);
    forall x, y | x in DistinctBy(s, key) && y in s && key(y) == key(x) ensures score(x) >= score(y) {
      var i :| FirstOfKey(s, key, i) && s[i] == x;
      var j :| 0 <= j < |s| && s[j] == y;
      PrefixHasKey(s, key, i, j);
    }
  }

  lemma PrefixHasKey<T, K>(s: seq<T>, key: T -> K, i: nat, j: nat)
    requires i <= |s| && j < |s|
    ensures j < i ==> HasKey(s[..i], key, key(s[j]))
  {
    if j < i {
      assert s[..i][j] == s[j];
    }
  }

  lemma {:induction false} DistinctByIsSubseq<T, K(!new)>(s: seq<T>, key: T -> K)
    ensures IsSubseq(DistinctBy(s, key), s)
  {
    if s != [] {
      DistinctByIsSubseq(Init(s), key);
      assert s == Init(s) + [Last(s)];
      if HasKey(Init(s), key, key(Last(s))) {
        SubseqDropLast(DistinctBy(Init(s), key), Init(s), Last(s));
      } else {
        SubseqKeepLast(DistinctBy(Init(s), key), Init(s), Last(s));
      }
    }
  }

  /** A table whose keys are already distinct is left as it is. */
  lemma {:induction false} DistinctByOfDistinct<T, K(!new)>(s: seq<T>, key: T -> K)
    requires KeysDistinct(s, key)
    ensures DistinctBy(s, key) == s
  {
    if s != [] {
      DistinctByOfDistinct(Init(s), key);
      assert !HasKey(Init(s), key, key(Last(s)));
    }
  }

  /* ---------------------------------------------------------------------
     `groupby(key).head(n)`: the first n rows of every key, in table order
     --------------------------------------------------------------------- */

  function HeadPerKey<T, K(==,!new)>(s: seq<T>, key: T -> K, n: nat): (r: seq<T>)
    ensures |r| <= |s|
    ensures forall k :: CountKey(r, key, k) == Min(CountKey(s, key, k), n)
  {
    if s == [] then []
    else
      var init := HeadPerKey(Init(s), key, n);
      var x := Last(s);
      var r := if CountKey(Init(s), key, key(x)) < n then init + [x] else init;
      assert Init(init + [x]) == init;
      r
  }

  lemma {:induction false} HeadPerKeyIsSubseq<T, K(!new)>(s: seq<T>, key: T -> K, n: nat)
    ensures IsSubseq(HeadPerKey(s, key, n), s)
  {
    if s != [] {
      HeadPerKeyIsSubseq(Init(s), key, n);
      assert s == Init(s) + [Last(s)];
      if CountKey(Init(s), key, key(Last(s))) < n {
        SubseqKeepLast(HeadPerKey(Init(s), key, n), Init(s), Last(s));
      } else {
        SubseqDropLast(HeadPerKey(Init(s), key, n), Init(s), Last(s));
      }
    }
  }

  /** With one row per key allowed, the kept rows have pairwise distinct keys. */
  lemma HeadOnePerKeyDistinct<T, K(!new)>(s: seq<T>, key: T -> K)
    ensures KeysDistinct(HeadPerKey(s, key, 1), key)
  {
    var r := HeadPerKey(s, key, 1);
    forall i, j | 0 <= i < j < |r|
      ensures key(r[i]) != key(r[j])
    {
      CountAtLeastTwo(r, key, i, j);
    }
  }

  /** Keeping one row per key is keeping the first row of each key. */
  lemma {:induction false} HeadOneIsDistinctBy<T, K(!new)>(s: seq<T>, key: T -> K)
    ensures HeadPerKey(s, key, 1) == DistinctBy(s, key)
  {
    if s != [] {
      HeadOneIsDistinctBy(Init(s), key);
    }
  }

  lemma {:induction false} CountAtLeastTwo<T, K>(s: seq<T>, key: T -> K, i: nat, j: nat)
    requires i < j < |s|
    ensures key(s[i]) == key(s[j]) ==> CountKey(s, key, key(s[i])) >= 2
  {
    if j < |s| - 1 {
      assert Init(s)[i] == s[i] && Init(s)[j] == s[j];
      CountAtLeastTwo(Init(s), key, i, j);
    } else {
      assert Init(s)[i] == s[i];
      assert HasKey(Init(s), key, key(s[i]));
    }
  }

  /* ---------------------------------------------------------------------
     Sorting
     --------------------------------------------------------------------- */

  /** Scores never increase down the table. */
  predicate ScoresNonIncreasing<T>(s: seq<T>, score: T -> int) {
    forall i, j :: 0 <= i < j < |s| ==> score(s[i]) >= score(s[j])
  }

  /** Places `x` in front of the first row whose score is not above its own. */
  function InsertByScoreDesc<T(==)>(x: T, s: seq<T>, score: T -> int): (r: seq<T>)
    ensures multiset(r) == multiset(s) + multiset{x}
  {
    if s == [] || score(x) >= score(s[0]) then [x] + s
    else
      assert s == [s[0]] + s[1..];
      [s[0]] + InsertByScoreDesc(x, s[1..], score)
  }

  lemma {:induction false} InsertByScoreDescSorted<T>(x: T, s: seq<T>, score: T -> int)
    requires ScoresNonIncreasing(s, score)
    ensures ScoresNonIncreasing(InsertByScoreDesc(x, s, score), score)
  {
    if s == [] || score(x) >= score(s[0]) {
      assert forall k :: 0 <= k < |s| ==> score(s[k]) <= score(s[0]);
      ConsNonIncreasing(x, s, score);
    } else {
      var tail := s[1..];
      assert ScoresNonIncreasing(tail, score) by {
        forall i, j | 0 <= i < j < |tail| ensures score(tail[i]) >= score(tail[j]) {
          assert tail[i] == s[i + 1] && tail[j] == s[j + 1];
        }
      }
      InsertByScoreDescSorted(x, tail, score);
      assert forall k :: 0 <= k < |tail| ==> score(tail[k]) <= score(s[0]) by {
        assert forall k :: 0 <= k < |tail| ==> tail[k] == s[k + 1];
      }
      BoundedAfterInsert(x, tail, InsertByScoreDesc(x, tail, score), score, score(s[0]));
      ConsNonIncreasing(s[0], InsertByScoreDesc(x, tail, score), score);
    }
  }

  /** A row that scores at least as high as every row of a non-increasing table
      can go in front of it. */
  lemma ConsNonIncreasing<T>(y: T, t: seq<T>, score: T -> int)
    requires ScoresNonIncreasing(t, score)
    requires forall k :: 0 <= k < |t| ==> score(t[k]) <= score(y)
    ensures ScoresNonIncreasing([y] + t, score)
  {
    var r := [y] + t;
    forall i, j | 0 <= i < j < |r| ensures score(r[i]) >= score(r[j]) {
      assert r[j] == t[j - 1];
      if i > 0 {
        assert r[i] == t[i - 1];
      }
    }
  }

  /** Rows made of the rows of `s` and `x` stay under any bound all of them respect. */
  lemma BoundedAfterInsert<T>(x: T, s: seq<T>, rest: seq<T>, score: T -> int, bound: int)
    requires multiset(rest) == multiset(s) + multiset{x}
    requires score(x) <= bound && forall k :: 0 <= k < |s| ==> score(s[k]) <= bound
    ensures forall k :: 0 <= k < |rest| ==> score(rest[k]) <= bound
  {
    forall k | 0 <= k < |rest| ensures score(rest[k]) <= bound {
      var y := rest[k];
      assert y in multiset(rest);
      if y != x {
        assert y in multiset(s);
        var m :| 0 <= m < |s| && s[m] == y;
      }
    }
  }

  /** `sort_values(score, ascending=False)`. */
  function SortByScoreDesc<T(==)>(s: seq<T>, score: T -> int): (r: seq<T>)
    ensures multiset(r) == multiset(s)
    ensures ScoresNonIncreasing(r, score)
  {
    if s == [] then []
    else
      assert s == [s[0]] + s[1..];
      InsertByScoreDescSorted(s[0], SortByScoreDesc(s[1..], score), score);
      InsertByScoreDesc(s[0], SortByScoreDesc(s[1..], score), score)
  }

  /** Dropping rows from a table whose scores never increase keeps that order. */
  lemma {:induction false} SubseqScoresNonIncreasing<T>(r: seq<T>, s: seq<T>, score: T -> int)
    requires IsSubseq(r, s) && ScoresNonIncreasing(s, score)
    ensures ScoresNonIncreasing(r, score)
    decreases |s|
  {
    if r != [] {
      var init := Init(s);
      assert ScoresNonIncreasing(init, score) by {
        forall i, j | 0 <= i < j < |init| ensures score(init[i]) >= score(init[j]) {
          assert init[i] == s[i] && init[j] == s[j];
        }
      }
      if Last(r) == Last(s) {
        var ri := Init(r);
        SubseqScoresNonIncreasing(ri, init, score);
        SubseqMembers(ri, init);
        assert r == ri + [Last(r)];
        forall i, j | 0 <= i < j < |r| ensures score(r[i]) >= score(r[j]) {
          if j == |r| - 1 {
            assert r[i] in ri;
            var k :| 0 <= k < |init| && init[k] == r[i];
            assert s[k] == r[i] && s[|s| - 1] == r[j];
          } else {
            assert r[i] == ri[i] && r[j] == ri[j];
          }
        }
      } else {
        SubseqScoresNonIncreasing(r, init, score);
      }
    }
  }

  /** Text keys never decrease down the table. */
  predicate TextAscending<T>(s: seq<T>, text: T -> string) {
    forall i, j :: 0 <= i < j < |s| ==> LexLe(text(s[i]), text(s[j]))
  }

  /** Places `x` in front of the first row whose text key is not below its own. */
  function InsertByText<T(==)>(x: T, s: seq<T>, text: T -> string): (r: seq<T>)
    ensures multiset(r) == multiset(s) + multiset{x}
  {
    if s == [] || LexLe(text(x), text(s[0])) then [x] + s
    else
      assert s == [s[0]] + s[1..];
      [s[0]] + InsertByText(x, s[1..], text)
  }

  lemma {:induction false} InsertByTextSorted<T>(x: T, s: seq<T>, text: T -> string)
    requires TextAscending(s, text)
    ensures TextAscending(InsertByText(x, s, text), text)
  {
    var r := InsertByText(x, s, text);
    if s == [] || LexLe(text(x), text(s[0])) {
      assert r == [x] + s;
      forall i, j | 0 <= i < j < |r| ensures LexLe(text(r[i]), text(r[j])) {
        if i == 0 && j > 1 {
          LexLeTransitive(text(x), text(s[0]), text(s[j - 1]));
        }
      }
    } else {
      var rest := InsertByText(x, s[1..], text);
      assert r == [s[0]] + rest;
      assert TextAscending(s[1..], text) by {
        forall i, j | 0 <= i < j < |s[1..]| ensures LexLe(text(s[1..][i]), text(s[1..][j])) {
          assert s[1..][i] == s[i + 1] && s[1..][j] == s[j + 1];
        }
      }
      InsertByTextSorted(x, s[1..], text);
      LexLeTotal(text(x), text(s[0]));
      forall k | 0 <= k < |s[1..]| ensures LexLe(text(s[0]), text(s[1..][k])) {
        assert s[1..][k] == s[k + 1];
      }
      InsertByTextBounded(x, s[1..], text, text(s[0]));
      forall i, j | 0 <= i < j < |r| ensures LexLe(text(r[i]), text(r[j])) {
        if i == 0 {
          assert r[j] == rest[j - 1];
        } else {
          assert r[i] == rest[i - 1] && r[j] == rest[j - 1];
        }
      }
    }
  }

  /** A lower bound on the text keys of `x` and of every row survives the insertion. */
  lemma {:induction false} InsertByTextBounded<T>(x: T, s: seq<T>, text: T -> string, lo: string)
    requires LexLe(lo, text(x))
    requires forall k :: 0 <= k < |s| ==> LexLe(lo, text(s[k]))
    ensures forall k :: 0 <= k < |InsertByText(x, s, text)| ==> LexLe(lo, text(InsertByText(x, s, text)[k]))
  {
    var r := InsertByText(x, s, text);
    if s == [] || LexLe(text(x), text(s[0])) {
      assert r == [x] + s;
      assert forall k :: 1 <= k < |r| ==> r[k] == s[k - 1];
    } else {
      var rest := InsertByText(x, s[1..], text);
      assert r == [s[0]] + rest;
      assert forall k :: 0 <= k < |s[1..]| ==> s[1..][k] == s[k + 1];
      InsertByTextBounded(x, s[1..], text, lo);
      assert forall k :: 1 <= k < |r| ==> r[k] == rest[k - 1];
    }
  }

  /** Dropping repeated keys from a table sorted by text keeps it sorted. */
  lemma {:induction false} DistinctByTextAscending<T, K(!new)>(s: seq<T>, key: T -> K, text: T -> string)
    requires TextAscending(s, text)
    ensures TextAscending(DistinctBy(s, key), text)
  {
    if s != [] {
      var init, x := Init(s), Last(s);
      assert s == init + [x];
      assert TextAscending(init, text) by {
        forall i, j | 0 <= i < j < |init| ensures LexLe(text(init[i]), text(init[j])) {
          assert init[i] == s[i] && init[j] == s[j];
        }
      }
      DistinctByTextAscending(init, key, text);
      var ri := DistinctBy(init, key);
      if !HasKey(init, key, key(x)) {
        var r := ri + [x];
        forall i, j | 0 <= i < j < |r| ensures LexLe(text(r[i]), text(r[j])) {
          if j == |r| - 1 {
            assert r[i] in ri;
            var k :| 0 <= k < |init| && init[k] == r[i];
            assert s[k] == r[i] && s[|s| - 1] == x;
          } else {
            assert r[i] == ri[i] && r[j] == ri[j];
          }
        }
      }
    }
  }

  /** `sort_values(text)` in Python's string order. */
  function SortByText<T(==)>(s: seq<T>, text: T -> string): (r: seq<T>)
    ensures multiset(r) == multiset(s)
    ensures TextAscending(r, text)
  {
    if s == [] then []
    else
      assert s == [s[0]] + s[1..];
      InsertByTextSorted(s[0], SortByText(s[1..], text), text);
      InsertByText(s[0], SortByText(s[1..], text), text)
  }

  /** Inserting a row whose key no row has keeps the keys pairwise distinct. */
  lemma {:induction false} InsertByTextKeysDistinct<T, K>(x: T, s: seq<T>, text: T -> string, key: T -> K)
    requires KeysDistinct(s, key)
    requires forall y :: y in s ==> key(y) != key(x)
    ensures KeysDistinct(InsertByText(x, s, text), key)
    decreases |s|
  {
    var r := InsertByText(x, s, text);
    if s == [] || LexLe(text(x), text(s[0])) {
      assert r == [x] + s;
      forall i, j | 0 <= i < j < |r| ensures key(r[i]) != key(r[j]) {
        assert r[j] == s[j - 1];
        if i > 0 {
          assert r[i] == s[i - 1];
        } else {
          assert s[j - 1] in s;
        }
      }
    } else {
      var tail := s[1..];
      var rest := InsertByText(x, tail, text);
      assert r == [s[0]] + rest;
      forall i, j | 0 <= i < j < |tail| ensures key(tail[i]) != key(tail[j]) {
        assert tail[i] == s[i + 1] && tail[j] == s[j + 1];
      }
      forall y | y in tail ensures key(y) != key(x) {
        assert y in s;
      }
      InsertByTextKeysDistinct(x, tail, text, key);
      forall i, j | 0 <= i < j < |r| ensures key(r[i]) != key(r[j]) {
        var y := rest[j - 1];
        assert r[j] == y;
        if i > 0 {
          assert r[i] == rest[i - 1];
        } else if y == x {
          assert s[0] in s;
        } else {
          assert y in multiset(rest);
          var m :| 0 <= m < |tail| && tail[m] == y;
          assert s[m + 1] == y;
        }
      }
    }
  }

  /** Sorting keeps the rows' keys pairwise distinct. */
  lemma {:induction false} SortByTextKeysDistinct<T, K>(s: seq<T>, text: T -> string, key: T -> K)
    requires KeysDistinct(s, key)
    ensures KeysDistinct(SortByText(s, text), key)
    decreases |s|
  {
    if s != [] {
      var tail := s[1..];
      forall i, j | 0 <= i < j < |tail| ensures key(tail[i]) != key(tail[j]) {
        assert tail[i] == s[i + 1] && tail[j] == s[j + 1];
      }
      SortByTextKeysDistinct(tail, text, key);
      var sorted := SortByText(tail, text);
      forall y | y in sorted ensures key(y) != key(s[0]) {
        assert y in multiset(sorted);
        var m :| 0 <= m < |tail| && tail[m] == y;
        assert s[m + 1] == y;
      }
      InsertByTextKeysDistinct(s[0], sorted, text, key);
    }
  }

  /* ---------------------------------------------------------------------
     A set of names in Python's string order
     --------------------------------------------------------------------- */

  /** `m` is the first of `names` in string order. */
  predicate IsLeast(m: string, names: set<string>) {
    m in names && forall y :: y in names ==> LexLe(m, y)
  }

  /** `sorted(names)` for a set of distinct names. */
  function SortedNames(names: set<string>): (r: seq<string>)
    ensures |r| == |names|
    ensures forall x :: x in r <==> x in names
    decreases |names|
  {
    if names == {} then []
    else
      LeastNameExists(names);
      assert forall a, b :: IsLeast(a, names) && IsLeast(b, names) ==> a == b by {
        forall a, b | IsLeast(a, names) && IsLeast(b, names) ensures a == b {
          LexLeAntisymmetric(a, b);
        }
      }
      var m :| IsLeast(m, names);
      [m] + SortedNames(names - {m})
  }

  /** Names in strictly ascending string order, hence pairwise distinct. */
  predicate StrictlyAscending(r: seq<string>) {
    forall i, j :: 0 <= i < j < |r| ==> r[i] != r[j] && LexLe(r[i], r[j])
  }

  /** The sorted names are in strictly ascending order. */
  lemma {:induction false} SortedNamesAscending(names: set<string>)
    ensures StrictlyAscending(SortedNames(names))
    decreases |names|
  {
    var r := SortedNames(names);
    if names != {} {
      var m := r[0];
      var rest := SortedNames(names - {m});
      assert IsLeast(m, names) && r == [m] + rest;
      SortedNamesAscending(names - {m});
      forall y | y in rest ensures y != m && LexLe(m, y) {
        assert y in names - {m};
      }
      AscendingCons(m, rest);
    }
  }

  lemma AscendingCons(m: string, rest: seq<string>)
    requires StrictlyAscending(rest)
    requires forall y :: y in rest ==> y != m && LexLe(m, y)
    ensures StrictlyAscending([m] + rest)
  {
    var r := [m] + rest;
    forall i, j | 0 <= i < j < |r| ensures r[i] != r[j] && LexLe(r[i], r[j]) {
      assert r[j] == rest[j - 1];
      if i == 0 {
        assert rest[j - 1] in rest;
      } else {
        assert r[i] == rest[i - 1];
      }
    }
  }

  lemma {:induction false} LeastNameExists(names: set<string>)
    requires names != {}
    ensures exists m :: IsLeast(m, names)
    decreases |names|
  {
    var x :| x in names;
    if names == {x} {
      LexLeReflexive(x);
      assert IsLeast(x, names);
    } else {
      var rest := names - {x};
      LeastNameExists(rest);
      var m :| IsLeast(m, rest);
      LexLeTotal(m, x);
      if LexLe(m, x) {
        assert forall y :: y in names ==> y == x || y in rest;
        assert IsLeast(m, names);
      } else {
        forall y | y in names ensures LexLe(x, y) {
          if y == x {
            LexLeReflexive(x);
          } else {
            LexLeTransitive(x, m, y);
          }
        }
        assert IsLeast(x, names);
      }
    }
  }

  /* ---------------------------------------------------------------------
     A Python dict with string keys, in insertion order
     --------------------------------------------------------------------- */

  type Dict<V> = seq<(string, V)>

  function Lookup<V>(d: Dict<V>, k: string): Option<V>
    decreases |d|
  {
    if d == [] then None else if d[0].0 == k then Some(d[0].1) else Lookup(d[1..], k)
  }

  /** `d.update({k: v})`: a present key keeps its place and takes the new value,
      a new key goes at the end. */
  function DictUpdate<V>(d: Dict<V>, k: string, v: V): Dict<V>
    decreases |d|
  {
    if d == [] then [(k, v)]
    else if d[0].0 == k then [(k, v)] + d[1..]
    else [d[0]] + DictUpdate(d[1..], k, v)
  }

  /** After the update `k` maps to `v` and every other key as before; the
      dictionary grows by one entry exactly when `k` is new, and the keys
      already present keep their places. */
  lemma {:induction false} DictUpdateSpec<V>(d: Dict<V>, k: string, v: V)
    ensures forall key :: Lookup(DictUpdate(d, k, v), key) == if key == k then Some(v) else Lookup(d, key)
    ensures |DictUpdate(d, k, v)| == |d| + (if Lookup(d, k).None? then 1 else 0)
    ensures forall i :: 0 <= i < |d| ==> DictUpdate(d, k, v)[i].0 == d[i].0
    decreases |d|
  {
    if d != [] && d[0].0 != k {
      var rest := DictUpdate(d[1..], k, v);
      DictUpdateSpec(d[1..], k, v);
      assert DictUpdate(d, k, v) == [d[0]] + rest;
      forall key ensures Lookup(DictUpdate(d, k, v), key) == if key == k then Some(v) else Lookup(d, key) {
        assert Lookup(DictUpdate(d, k, v), key) == if d[0].0 == key then Some(d[0].1) else Lookup(rest, key);
      }
      forall i | 1 <= i < |d| ensures DictUpdate(d, k, v)[i].0 == d[i].0 {
        assert DictUpdate(d, k, v)[i] == rest[i - 1];
      }
    } else if d != [] {
      forall key ensures Lookup(DictUpdate(d, k, v), key) == if key == k then Some(v) else Lookup(d, key) {
        if key != k {
          assert Lookup(DictUpdate(d, k, v), key) == Lookup(d[1..], key);
        }
      }
    }
  }

  /** An update keeps every other entry and adds only the new one. */
  lemma {:induction false} DictUpdateMembers<V>(d: Dict<V>, k: string, v: V)
    ensures forall e :: e in DictUpdate(d, k, v) ==> e == (k, v) || e in d
    decreases |d|
  {
    if d != [] && d[0].0 != k {
      DictUpdateMembers(d[1..], k, v);
      assert forall e :: e in d[1..] ==> e in d;
    } else if d != [] {
      assert forall e :: e in d[1..] ==> e in d;
    }
  }

  /** The keys of a dictionary, in order. */
  function DictKeys<V>(d: Dict<V>): (ks: seq<string>)
    ensures |ks| == |d|
    ensures forall i :: 0 <= i < |d| ==> ks[i] == d[i].0
  {
    if d == [] then [] else [d[0].0] + DictKeys(d[1..])
  }

  /** A key is present exactly when it is one of the dictionary's keys. */
  lemma {:induction false} LookupSomeIffKey<V>(d: Dict<V>, k: string)
    ensures Lookup(d, k).Some? <==> k in DictKeys(d)
    decreases |d|
  {
    if d != [] {
      LookupSomeIffKey(d[1..], k);
      assert DictKeys(d) == [d[0].0] + DictKeys(d[1..]);
    }
  }

  /** Updating with a new key appends the entry at the end. */
  lemma {:induction false} DictUpdateFresh<V>(d: Dict<V>, k: string, v: V)
    requires forall i :: 0 <= i < |d| ==> d[i].0 != k
    ensures DictUpdate(d, k, v) == d + [(k, v)]
    decreases |d|
  {
    if d != [] {
      DictUpdateFresh(d[1..], k, v);
      assert d == [d[0]] + d[1..];
    }
  }

  /* ---------------------------------------------------------------------
     Text assembled item by item, the items numbered from a start value
     --------------------------------------------------------------------- */

  lemma AppendAssoc<T>(a: seq<T>, b: seq<T>, c: seq<T>)
    ensures (a + b) + c == a + (b + c)
  {
  }

  /** `render(start, xs[0]) + render(start + 1, xs[1]) + ...`. */
  function Numbered<T>(xs: seq<T>, start: nat, render: (nat, T) -> string): string
    decreases |xs|
  {
    if xs == [] then "" else render(start, xs[0]) + Numbered(xs[1..], start + 1, render)
  }

  /** Appending an item appends its text, numbered after the items before it. */
  lemma {:induction false} NumberedSnoc<T>(xs: seq<T>, x: T, start: nat, render: (nat, T) -> string)
    ensures Numbered(xs + [x], start, render) == Numbered(xs, start, render) + render(start + |xs|, x)
    decreases |xs|
  {
    if xs == [] {
      assert Numbered([x], start, render) == render(start, x) + Numbered([], start + 1, render);
    } else {
      assert (xs + [x])[1..] == xs[1..] + [x];
      NumberedSnoc(xs[1..], x, start + 1, render);
    }
  }

  /** The text of a prefix one item longer. */
  lemma NumberedPrefix<T>(xs: seq<T>, j: nat, start: nat, render: (nat, T) -> string)
    requires j < |xs|
    ensures Numbered(xs[..j + 1], start, render) == Numbered(xs[..j], start, render) + render(start + j, xs[j])
  {
    assert xs[..j + 1] == xs[..j] + [xs[j]];
    NumberedSnoc(xs[..j], xs[j], start, render);
  }

  /** Splitting the items splits the text, the numbering carrying on. */
  lemma {:induction false} NumberedAppend<T>(a: seq<T>, b: seq<T>, start: nat, render: (nat, T) -> string)
    ensures Numbered(a + b, start, render) == Numbered(a, start, render) + Numbered(b, start + |a|, render)
    decreases |a|
  {
    if a != [] {
      assert (a + b)[1..] == a[1..] + b;
      NumberedAppend(a[1..], b, start + 1, render);
    } else {
      assert a + b == b;
    }
  }

  /** Item `i` contributes `render(start + i, xs[i])`, between the texts of the
      items before and after it. */
  lemma NumberedAt<T>(xs: seq<T>, i: nat, start: nat, render: (nat, T) -> string)
    requires i < |xs|
    ensures Numbered(xs, start, render)
         == Numbered(xs[..i], start, render) + render(start + i, xs[i]) + Numbered(xs[i + 1..], start + i + 1, render)
  {
    assert xs == xs[..i] + xs[i..];
    NumberedAppend(xs[..i], xs[i..], start, render);
    assert xs[i..][1..] == xs[i + 1..];
  }

  /** A dictionary filled key by key with `d.update({keys[i]: values[i]})`. */
  function DictOf<V>(keys: seq<string>, values: seq<V>): Dict<V>
    requires |keys| == |values|
    decreases |keys|
  {
    if keys == [] then [] else DictUpdate(DictOf(Init(keys), Init(values)), Last(keys), Last(values))
  }

  /** With distinct keys the dictionary has one entry per key, in key order,
      each key holding its value. */
  lemma {:induction false} DictOfSpec<V>(keys: seq<string>, values: seq<V>)
    requires |keys| == |values|
    requires forall i, j :: 0 <= i < j < |keys| ==> keys[i] != keys[j]
    ensures DictKeys(DictOf(keys, values)) == keys
    ensures forall i :: 0 <= i < |keys| ==> Lookup(DictOf(keys, values), keys[i]) == Some(values[i])
    decreases |keys|
  {
    if keys != [] {
      var init, k, v := Init(keys), Last(keys), Last(values);
      var d0 := DictOf(init, Init(values));
      DictOfSpec(init, Init(values));
      forall j | 0 <= j < |d0| ensures d0[j].0 != k {
        assert DictKeys(d0)[j] == init[j] == keys[j];
      }
      DictUpdateFresh(d0, k, v);
      DictUpdateSpec(d0, k, v);
      assert keys == init + [k];
      assert DictKeys(d0 + [(k, v)]) == init + [k];
      forall i | 0 <= i < |keys| - 1 ensures Lookup(DictOf(keys, values), keys[i]) == Some(values[i]) {
        assert keys[i] == init[i] != k;
        assert values[i] == Init(values)[i];
      }
    }
  }

  /** Every value found in the dictionary is one of the values it was filled with. */
  lemma {:induction false} DictOfValues<V>(keys: seq<string>, values: seq<V>, k: string)
    requires |keys| == |values|
    ensures Lookup(DictOf(keys, values), k).Some? ==> Lookup(DictOf(keys, values), k).value in values
    decreases |keys|
  {
    if keys != [] {
      var d0 := DictOf(Init(keys), Init(values));
      DictOfValues(Init(keys), Init(values), k);
      DictUpdateSpec(d0, Last(keys), Last(values));
      if k != Last(keys) && Lookup(d0, k).Some? {
        InitMember(values, Lookup(d0, k).value);
      }
    }
  }

  /** With repeated keys allowed, a key is present exactly when it is one of
      the keys, and it holds the value given with its last occurrence. */
  lemma {:induction false} DictOfLastWins<V>(keys: seq<string>, values: seq<V>, k: string)
    requires |keys| == |values|
    ensures Lookup(DictOf(keys, values), k).Some? <==> k in keys
    ensures forall i :: 0 <= i < |keys| && keys[i] == k && (forall j :: i < j < |keys| ==> keys[j] != k) ==>
      Lookup(DictOf(keys, values), k) == Some(values[i])
    decreases |keys|
  {
    if keys != [] {
      var init, last := Init(keys), Last(keys);
      var d0 := DictOf(init, Init(values));
      DictOfLastWins(init, Init(values), k);
      DictUpdateSpec(d0, last, Last(values));
      assert keys == init + [last];
      forall i | 0 <= i < |keys| && keys[i] == k && (forall j :: i < j < |keys| ==> keys[j] != k)
        ensures Lookup(DictOf(keys, values), k) == Some(values[i])
      {
        if k != last {
          assert i < |init| && init[i] == keys[i] && Init(values)[i] == values[i];
          forall j | i < j < |init| ensures init[j] != k {
            assert init[j] == keys[j];
          }
        }
      }
    }
  }
}
