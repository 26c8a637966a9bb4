/** Python's `sorted` with a key: in order of the keys, and items with equal keys in their old order. */
module StableSort {

  function Insert<T>(x: T, s: seq<T>, key: T -> int): (r: seq<T>)
    ensures |r| == |s| + 1
  {
    if s == [] || key(x) <= key(s[0]) then [x] + s else [s[0]] + Insert(x, s[1..], key)
  }

  function Sort<T>(s: seq<T>, key: T -> int): (r: seq<T>)
    ensures |r| == |s|
  {
    if s == [] then [] else Insert(s[0], Sort(s[1..], key), key)
  }

  predicate Sorted<T>(s: seq<T>, key: T -> int) {
    s == [] || (Sorted(s[1..], key) && (|s| > 1 ==> key(s[0]) <= key(s[1])))
  }

  /** The items with the key k, in their order. */
  function WithKey<T>(s: seq<T>, key: T -> int, k: int): seq<T> {
    if s == [] then [] else (if key(s[0]) == k then [s[0]] else []) + WithKey(s[1..], key, k)
  }

  lemma {:induction false} InsertSorts<T>(x: T, s: seq<T>, key: T -> int)
    requires Sorted(s, key)
    ensures Sorted(Insert(x, s, key), key)
  {
    var r := Insert(x, s, key);
    if s == [] || key(x) <= key(s[0]) {
      assert r[1..] == s;
    } else {
      InsertSorts(x, s[1..], key);
      assert r[1..] == Insert(x, s[1..], key);
    }
  }

  lemma {:induction false} InsertAdds<T>(x: T, s: seq<T>, key: T -> int)
    ensures multiset(Insert(x, s, key)) == multiset{x} + multiset(s)
  {
    if s != [] && key(x) > key(s[0]) {
      InsertAdds(x, s[1..], key);
      assert s == [s[0]] + s[1..];
    }
  }

  /** The new item comes before the items with its key, and changes nothing for other keys. */
  lemma {:induction false} InsertFirst<T>(x: T, s: seq<T>, key: T -> int, k: int)
    requires Sorted(s, key)
    ensures WithKey(Insert(x, s, key), key, k) == (if key(x) == k then [x] else []) + WithKey(s, key, k)
  {
    var r := Insert(x, s, key);
    if s == [] || key(x) <= key(s[0]) {
      assert r[1..] == s;
    } else {
      InsertFirst(x, s[1..], key, k);
      assert r[1..] == Insert(x, s[1..], key) && r[0] == s[0];
    }
  }

  /** The result is in order, has the same items, and keeps the order of items with equal keys. */
  lemma {:induction false} SortIsStable<T>(s: seq<T>, key: T -> int, k: int)
    ensures Sorted(Sort(s, key), key)
    ensures multiset(Sort(s, key)) == multiset(s)
    ensures WithKey(Sort(s, key), key, k) == WithKey(s, key, k)
  {
    if s != [] {
      SortIsStable(s[1..], key, k);
      var rest := Sort(s[1..], key);
      InsertSorts(s[0], rest, key);
      InsertAdds(s[0], rest, key);
      InsertFirst(s[0], rest, key, k);
      assert multiset(s) == multiset{s[0]} + multiset(s[1..]) by { assert s == [s[0]] + s[1..]; }
    }
  }

  /** These properties leave no choice: two sequences in order that agree on every key are equal. */
  lemma {:induction false} StableIsUnique<T>(s: seq<T>, t: seq<T>, key: T -> int)
    requires Sorted(s, key) && Sorted(t, key)
    requires forall k :: WithKey(s, key, k) == WithKey(t, key, k)
    ensures s == t
  {
    assert s != [] ==> WithKey(s, key, key(s[0])) == WithKey(t, key, key(s[0])) != [];
    assert t != [] ==> WithKey(t, key, key(t[0])) == WithKey(s, key, key(t[0])) != [];
    if s != [] && t != [] {
      KeysFromFirst(s, key, key(t[0]));
      KeysFromFirst(t, key, key(s[0]));
      assert WithKey(s, key, key(s[0])) == WithKey(t, key, key(s[0]));
      assert WithKey(s, key, key(t[0])) == WithKey(t, key, key(t[0]));
      forall k
        ensures WithKey(s[1..], key, k) == WithKey(t[1..], key, k)
      {
        assert WithKey(s, key, k) == WithKey(t, key, k);
        WithKeyTail(s, key, k);
        WithKeyTail(t, key, k);
      }
      WithKeyTail(s, key, key(s[0]));
      WithKeyTail(t, key, key(s[0]));
      StableIsUnique(s[1..], t[1..], key);
      assert s == [s[0]] + s[1..] && t == [t[0]] + t[1..];
    }
  }

  lemma WithKeyTail<T>(s: seq<T>, key: T -> int, k: int)
    requires s != []
    ensures key(s[0]) == k ==> WithKey(s, key, k)[0] == s[0] && WithKey(s, key, k)[1..] == WithKey(s[1..], key, k)
    ensures key(s[0]) != k ==> WithKey(s, key, k) == WithKey(s[1..], key, k)
  {
  }

  /** In a sequence in order no key is less than the first. */
  lemma {:induction false} KeysFromFirst<T>(s: seq<T>, key: T -> int, k: int)
    requires Sorted(s, key) && s != []
    ensures k < key(s[0]) ==> WithKey(s, key, k) == []
  {
    if |s| > 1 {
      KeysFromFirst(s[1..], key, k);
    }
  }
}
