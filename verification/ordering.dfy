/** Descending sort of table rows by an integer key column. The source uses
    pandas' `sort_values(ascending=False)`, whose default algorithm is not
    stable, so the only promises made here are the ones that algorithm keeps
    too: the result is a permutation of the input and its key never increases. */
module Ordering {

  ghost predicate NonIncreasing<T>(s: seq<T>, key: T -> int) {
    forall i, j :: 0 <= i < j < |s| ==> key(s[i]) >= key(s[j])
  }

  /** Places `x` into the already sorted `s`. */
  function Insert<T>(x: T, s: seq<T>, key: T -> int): (r: seq<T>)
    requires NonIncreasing(s, key)
    ensures NonIncreasing(r, key)
    ensures multiset(r) == multiset(s) + multiset{x}
    ensures |r| == |s| + 1
    ensures r[0] == x || (s != [] && r[0] == s[0])
  {
    if s == [] then [x]
    else if key(x) >= key(s[0]) then [x] + s
    else
      var rest := Insert(x, s[1..], key);
      InsertBehind(x, s, rest, key);
      [s[0]] + rest
  }

  /** `x` goes behind the head of `s` when its key is smaller. */
  lemma InsertBehind<T>(x: T, s: seq<T>, rest: seq<T>, key: T -> int)
    requires s != [] && NonIncreasing(s, key) && key(x) < key(s[0])
    requires NonIncreasing(rest, key) && |rest| == |s|
    requires multiset(rest) == multiset(s[1..]) + multiset{x}
    requires rest[0] == x || (|s| > 1 && rest[0] == s[1])
    ensures NonIncreasing([s[0]] + rest, key)
    ensures multiset([s[0]] + rest) == multiset(s) + multiset{x}
  {
    assert s == [s[0]] + s[1..];
    assert key(s[0]) >= key(rest[0]);
    ConsSorted(s[0], rest, key);
  }

  /** A head no smaller than the first element keeps a sorted sequence sorted. */
  lemma ConsSorted<T>(h: T, s: seq<T>, key: T -> int)
    requires NonIncreasing(s, key)
    requires s != [] ==> key(h) >= key(s[0])
    ensures NonIncreasing([h] + s, key)
  {
    var r := [h] + s;
    forall i, j | 0 <= i < j < |r|
      ensures key(r[i]) >= key(r[j])
    {
      assert r[j] == s[j - 1];
      if i > 0 {
        assert r[i] == s[i - 1];
      } else if j > 1 {
        assert key(s[0]) >= key(s[j - 1]);
      }
    }
  }

  /** Every element of the sorted sequence comes from the input. */
  lemma SortedElement<T>(s: seq<T>, key: T -> int, i: nat)
    requires i < |SortBy(s, key)|
    ensures exists n :: 0 <= n < |s| && s[n] == SortBy(s, key)[i]
  {
    var r := SortBy(s, key);
    assert r[i] in multiset(r);
    assert r[i] in s;
  }

  function SortBy<T>(s: seq<T>, key: T -> int): (r: seq<T>)
    ensures NonIncreasing(r, key)
    ensures multiset(r) == multiset(s)
  {
    if s == [] then []
    else
      assert s == [s[0]] + s[1..];
      Insert(s[0], SortBy(s[1..], key), key)
  }
}
