/**
 * The stable sort that `Array.prototype.sort` performs with a comparator of
 * the form `key(b) - key(a)`: elements end up in non-increasing key order and
 * elements with equal keys keep their original relative order.
 */
module Sorting {

  /** Keys never increase from left to right. */
  ghost predicate SortedDesc<T>(s: seq<T>, key: T -> int)
  {
    forall i, j :: 0 <= i < j < |s| ==> key(s[i]) >= key(s[j])
  }

  /** Inserts `x` in front of the first element whose key is not larger than its own. */
  function Insert<T>(x: T, s: seq<T>, key: T -> int): (r: seq<T>)
    ensures multiset(r) == multiset(s) + multiset{x}
    ensures |r| == |s| + 1
    decreases |s|
  {
    if s == [] then [x]
    else if key(x) >= key(s[0]) then [x] + s
    else
      assert s == [s[0]] + s[1..];
      [s[0]] + Insert(x, s[1..], key)
  }

  lemma {:induction false} InsertSorted<T>(x: T, s: seq<T>, key: T -> int)
    requires SortedDesc(s, key)
    ensures SortedDesc(Insert(x, s, key), key)
    decreases |s|
  {
    if s != [] && key(x) < key(s[0]) {
      var rest := Insert(x, s[1..], key);
      InsertSorted(x, s[1..], key);
      var r := [s[0]] + rest;
      forall k | 0 <= k < |rest| ensures key(s[0]) >= key(rest[k]) {
        assert rest[k] in multiset(rest);
        assert rest[k] == x || rest[k] in multiset(s[1..]);
        if rest[k] != x {
          assert rest[k] in s[1..];
        }
      }
      assert SortedDesc(r, key);
    }
  }

  /** Insertion sort: the first element is inserted into the sorted rest. */
  function SortByKeyDesc<T>(s: seq<T>, key: T -> int): (r: seq<T>)
    ensures multiset(r) == multiset(s)
    ensures |r| == |s|
    ensures SortedDesc(r, key)
    decreases |s|
  {
    if s == [] then []
    else
      assert s == [s[0]] + s[1..];
      InsertSorted(s[0], SortByKeyDesc(s[1..], key), key);
      Insert(s[0], SortByKeyDesc(s[1..], key), key)
  }

  /** With a key that is the same for every element the sort keeps the input order. */
  lemma {:induction false} SortConstantKey<T>(s: seq<T>, key: T -> int, c: int)
    requires forall x :: key(x) == c
    ensures SortByKeyDesc(s, key) == s
    decreases |s|
  {
    if s != [] {
      SortConstantKey(s[1..], key, c);
      assert s == [s[0]] + s[1..];
    }
  }

  /** The sort keeps exactly the elements it was given. */
  lemma SortMembers<T>(s: seq<T>, key: T -> int)
    ensures forall x :: x in SortByKeyDesc(s, key) <==> x in s
  {
    var r := SortByKeyDesc(s, key);
    forall x ensures x in r <==> x in s {
      assert x in r <==> x in multiset(r);
      assert x in s <==> x in multiset(s);
    }
  }
}
