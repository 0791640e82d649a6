/**
 * A stable sort by an integer key, largest key first. It stands for
 * `[...xs].sort((a, b) => key(b) - key(a))`, which the source uses to order
 * schedule versions; an ascending sort is the same sort with the key negated.
 * JavaScript's `Array.prototype.sort` is stable, and so is this insertion sort:
 * an element is inserted in front of the first element whose key is not larger.
 */
module Sorting {

  ghost predicate SortedDesc<T>(s: seq<T>, key: T -> int) {
    forall i, j :: 0 <= i < j < |s| ==> key(s[i]) >= key(s[j])
  }

  /** Inserts `x` in front of the first element whose key is at most `x`'s. */
  function Insert<T>(x: T, s: seq<T>, key: T -> int): (r: seq<T>)
    requires SortedDesc(s, key)
    ensures SortedDesc(r, key)
    ensures multiset(r) == multiset(s) + multiset{x}
    ensures |r| == |s| + 1
    ensures key(r[0]) == key(x) || (s != [] && key(r[0]) == key(s[0]))
  {
    if s == [] || key(x) >= key(s[0]) then
      ConsSorted(x, s, key);
      [x] + s
    else
      SortedTail(s, key);
      var t := Insert(x, s[1..], key);
      assert |s| > 1 ==> key(s[0]) >= key(s[1]);
      ConsSorted(s[0], t, key);
      MultisetFront(s);
      [s[0]] + t
  }

  /** Dropping the head keeps a sequence sorted. */
  lemma SortedTail<T>(s: seq<T>, key: T -> int)
    requires SortedDesc(s, key) && s != []
    ensures SortedDesc(s[1..], key)
  {
    forall i, j | 0 <= i < j < |s| - 1 ensures key(s[1..][i]) >= key(s[1..][j]) {
      assert s[1..][i] == s[i + 1] && s[1..][j] == s[j + 1];
    }
  }

  /** The elements of a non-empty sequence are its head and the elements of its tail. */
  lemma MultisetFront<T>(s: seq<T>)
    requires s != []
    ensures multiset(s) == multiset{s[0]} + multiset(s[1..])
  {
    assert s == [s[0]] + s[1..];
  }

  /** Putting an element with a key at least that of the head in front keeps a sequence sorted. */
  lemma ConsSorted<T>(x: T, s: seq<T>, key: T -> int)
    requires SortedDesc(s, key)
    requires s != [] ==> key(x) >= key(s[0])
    ensures SortedDesc([x] + s, key)
  {
    var r := [x] + s;
    forall i, j | 0 <= i < j < |r| ensures key(r[i]) >= key(r[j]) {
      if i == 0 && j > 1 {
        assert key(s[0]) >= key(s[j - 1]);
      }
    }
  }

  /** The elements of `s`, rearranged so that keys never increase. */
  function SortDesc<T>(s: seq<T>, key: T -> int): (r: seq<T>)
    ensures SortedDesc(r, key)
    ensures multiset(r) == multiset(s)
    ensures |r| == |s|
  {
    if s == [] then []
    else
      MultisetFront(s);
      Insert(s[0], SortDesc(s[1..], key), key)
  }

  /** The position of the first element of `s` whose key is the largest. */
  function FirstMax<T>(s: seq<T>, key: T -> int): (i: nat)
    requires |s| > 0
    ensures i < |s|
    ensures forall j :: 0 <= j < |s| ==> key(s[j]) <= key(s[i])
    ensures forall j :: 0 <= j < i ==> key(s[j]) < key(s[i])
  {
    if |s| == 1 then 0
    else
      var k := FirstMax(s[1..], key);
      if key(s[0]) >= key(s[1..][k]) then 0 else k + 1
  }

  /**
   * Stability, as far as the first place is concerned: after sorting, the
   * first element is the first element of the input among those with the
   * largest key.
   */
  lemma {:induction false} SortDescHead<T>(s: seq<T>, key: T -> int)
    requires |s| > 0
    ensures SortDesc(s, key)[0] == s[FirstMax(s, key)]
  {
    if |s| > 1 {
      SortDescHead(s[1..], key);
      var rest := SortDesc(s[1..], key);
      var k := FirstMax(s[1..], key);
      assert rest[0] == s[1..][k];
    }
  }

  /** Every position of the sorted output holds an element of the input. */
  lemma SortDescFrom<T>(s: seq<T>, key: T -> int)
    ensures forall k :: 0 <= k < |SortDesc(s, key)| ==> SortDesc(s, key)[k] in s
  {
    var r := SortDesc(s, key);
    forall k | 0 <= k < |r| ensures r[k] in s {
      assert r[k] in multiset(s);
    }
  }

  /** Every element of the input is in the sorted output and vice versa. */
  lemma SortDescSameElements<T>(s: seq<T>, key: T -> int, x: T)
    ensures x in SortDesc(s, key) <==> x in s
  {
    var r := SortDesc(s, key);
    assert x in r <==> x in multiset(r);
    assert x in s <==> x in multiset(s);
  }
}
