/**
 * The insertion-position rule shared by the ordered list and the priority
 * queue: a new item goes before the first existing item whose key is strictly
 * greater than its own, so items with equal keys keep their arrival order.
 */
module Ordering {

  /** No item occurs twice. */
  ghost predicate Distinct<T>(s: seq<T>) {
    forall i, j :: 0 <= i < j < |s| ==> s[i] != s[j]
  }

  /** Non-decreasing by `key`. */
  ghost predicate SortedBy<T>(s: seq<T>, key: T -> int) {
    forall i, j :: 0 <= i < j < |s| ==> key(s[i]) <= key(s[j])
  }

  /** Index of the first item whose key is strictly greater than `k`, or `|s|`. */
  function FirstGreater<T>(s: seq<T>, key: T -> int, k: int): (i: nat)
    ensures i <= |s|
    ensures forall j :: 0 <= j < i ==> key(s[j]) <= k
    ensures i < |s| ==> k < key(s[i])
  {
    if s == [] then 0
    else if k < key(s[0]) then 0
    else 1 + FirstGreater(s[1..], key, k)
  }

  /** Any index with the characteristic property of `FirstGreater` is `FirstGreater`. */
  lemma FirstGreaterUnique<T>(s: seq<T>, key: T -> int, k: int, i: nat)
    requires i <= |s|
    requires forall j :: 0 <= j < i ==> key(s[j]) <= k
    requires i < |s| ==> k < key(s[i])
    ensures i == FirstGreater(s, key, k)
  {
  }

  function InsertAt<T>(s: seq<T>, i: nat, x: T): (r: seq<T>)
    requires i <= |s|
    ensures |r| == |s| + 1 && r[i] == x
    ensures r[..i] == s[..i] && r[i + 1..] == s[i..]
  {
    assert s == s[..i] + s[i..];
    s[..i] + [x] + s[i..]
  }

  function RemoveAt<T>(s: seq<T>, i: nat): (r: seq<T>)
    requires i < |s|
    ensures |r| == |s| - 1
    ensures r[..i] == s[..i] && r[i..] == s[i + 1..]
  {
    assert s == s[..i] + [s[i]] + s[i + 1..];
    s[..i] + s[i + 1..]
  }

  /** Inserting one item adds exactly that item to the multiset of items. */
  lemma InsertAtContents<T>(s: seq<T>, i: nat, x: T)
    requires i <= |s|
    ensures multiset(InsertAt(s, i, x)) == multiset(s) + multiset{x}
  {
    assert s == s[..i] + s[i..];
  }

  /** Removing one position removes exactly that item from the multiset of items. */
  lemma RemoveAtContents<T>(s: seq<T>, i: nat)
    requires i < |s|
    ensures multiset(RemoveAt(s, i)) == multiset(s) - multiset{s[i]}
  {
    assert s == s[..i] + [s[i]] + s[i + 1..];
  }

  /** Taking one item out of a sorted sequence leaves it sorted. */
  lemma RemoveKeepsSorted<T>(s: seq<T>, key: T -> int, k: nat)
    requires k < |s| && SortedBy(s, key)
    ensures SortedBy(RemoveAt(s, k), key)
  {
    var r := RemoveAt(s, k);
    forall a, b | 0 <= a < b < |r| ensures key(r[a]) <= key(r[b]) {
      var a' := if a < k then a else a + 1;
      var b' := if b < k then b else b + 1;
      assert r[a] == s[a'] && r[b] == s[b'];
    }
  }

  /** Integers ordered by their own value: the key of priorities and of integer lists. */
  function Identity(x: int): int { x }

  /** The item placed where the ordered insertion rule puts it. */
  function OrderedInsert<T>(s: seq<T>, key: T -> int, x: T): (r: seq<T>)
    ensures |r| == |s| + 1
    ensures multiset(r) == multiset(s) + multiset{x}
  {
    InsertAtContents(s, FirstGreater(s, key, key(x)), x);
    InsertAt(s, FirstGreater(s, key, key(x)), x)
  }

  /** Inserting at the first strictly greater key keeps a sorted sequence sorted. */
  lemma InsertKeepsSorted<T>(s: seq<T>, key: T -> int, x: T)
    requires SortedBy(s, key)
    ensures SortedBy(OrderedInsert(s, key, x), key)
  {
    var i := FirstGreater(s, key, key(x));
    var r := OrderedInsert(s, key, x);
    forall a, b | 0 <= a < b < |r| ensures key(r[a]) <= key(r[b]) {
      if b < i {
        assert r[a] == s[a] && r[b] == s[b];
      } else if b == i {
        assert r[a] == s[a];
      } else if a < i {
        assert r[a] == s[a] && r[b] == s[b - 1];
      } else if a == i {
        assert r[b] == s[b - 1];
      } else {
        assert r[a] == s[a - 1] && r[b] == s[b - 1];
      }
    }
  }

  /**
   * Stability and placement in a sorted sequence: every item before the new
   * one has a key no greater than its key, every item after it a strictly
   * greater key, and the old items keep their relative order.
   */
  lemma InsertIsStable<T>(s: seq<T>, key: T -> int, x: T, i: nat)
    requires SortedBy(s, key)
    requires i == FirstGreater(s, key, key(x))
    ensures var r := OrderedInsert(s, key, x);
      && i < |r| && r[i] == x
      && (forall j :: 0 <= j < i ==> key(r[j]) <= key(x))
      && (forall j :: i < j < |r| ==> key(x) < key(r[j]))
      && r[..i] == s[..i] && r[i + 1..] == s[i..]
  {
    var r := OrderedInsert(s, key, x);
    forall j | i < j < |r| ensures key(x) < key(r[j]) {
      assert r[j] == s[j - 1];
      assert key(s[i]) <= key(s[j - 1]);
    }
  }
}
