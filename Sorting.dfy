/** Python's `sorted(xs, key=k)` for an integer key: a stable insertion sort.
    Stable means that elements with equal keys keep their relative order,
    which is what makes `sorted(children, key=lambda x: x[0])` leave a child
    list alone when it is already ordered by ordinal, and what fixes the order
    of roots that reach equally many vertices. */
module Sorting {

  predicate SortedBy<T>(xs: seq<T>, key: T -> int) {
    forall i, j :: 0 <= i < j < |xs| ==> key(xs[i]) <= key(xs[j])
  }

  /** The elements of `xs` whose key is `k`, in their order in `xs`. */
  function WithKey<T>(xs: seq<T>, key: T -> int, k: int): seq<T> {
    if xs == [] then []
    else WithKey(xs[..|xs| - 1], key, k) + (if key(xs[|xs| - 1]) == k then [xs[|xs| - 1]] else [])
  }

  /** Where `x` goes in a sorted list: after every element whose key is not
      greater than its own. */
  function Slot<T>(xs: seq<T>, key: T -> int, x: T): (i: nat)
    ensures i <= |xs|
    ensures forall j :: 0 <= j < i ==> key(xs[j]) <= key(x)
    ensures i < |xs| ==> key(x) < key(xs[i])
  {
    if xs == [] || key(x) < key(xs[0]) then 0 else 1 + Slot(xs[1..], key, x)
  }

  function InsertBy<T>(xs: seq<T>, key: T -> int, x: T): seq<T> {
    var i := Slot(xs, key, x);
    xs[..i] + [x] + xs[i..]
  }

  /** The sorted list: the elements of `xs` inserted one by one, in order. */
  function SortBy<T>(xs: seq<T>, key: T -> int): (r: seq<T>)
    ensures |r| == |xs|
  {
    if xs == [] then []
    else InsertBy(SortBy(xs[..|xs| - 1], key), key, xs[|xs| - 1])
  }

  lemma InsertBySorted<T>(xs: seq<T>, key: T -> int, x: T)
    requires SortedBy(xs, key)
    ensures SortedBy(InsertBy(xs, key, x), key)
    ensures multiset(InsertBy(xs, key, x)) == multiset(xs) + multiset{x}
  {
    var i := Slot(xs, key, x);
    assert xs == xs[..i] + xs[i..];
    AfterSlot(xs, key, x);
    SortedAround(xs[..i], x, xs[i..], key);
  }

  lemma SortedAround<T>(front: seq<T>, x: T, back: seq<T>, key: T -> int)
    requires SortedBy(front + back, key)
    requires forall j :: 0 <= j < |front| ==> key(front[j]) <= key(x)
    requires forall j :: 0 <= j < |back| ==> key(x) < key(back[j])
    ensures SortedBy(front + [x] + back, key)
  {
    var xs := front + back;
    var r := front + [x] + back;
    var n := |front|;
    forall a, b | 0 <= a < b < |r| ensures key(r[a]) <= key(r[b]) {
      if b < n {
        assert r[a] == xs[a] && r[b] == xs[b];
      } else if b == n {
        assert r[a] == front[a];
      } else if a == n {
        assert r[b] == back[b - n - 1];
      } else if a < n {
        assert r[a] == xs[a] && r[b] == xs[b - 1];
      } else {
        assert r[a] == xs[a - 1] && r[b] == xs[b - 1];
      }
    }
  }

  /** The sorted list is ordered by the key and holds exactly the elements of
      the input. */
  lemma {:induction false} SortBySorted<T>(xs: seq<T>, key: T -> int)
    ensures SortedBy(SortBy(xs, key), key)
    ensures multiset(SortBy(xs, key)) == multiset(xs)
  {
    if xs != [] {
      var init := xs[..|xs| - 1];
      SortBySorted(init, key);
      InsertBySorted(SortBy(init, key), key, xs[|xs| - 1]);
      assert xs == init + [xs[|xs| - 1]];
    }
  }

  lemma {:induction false} WithKeyAppend<T>(xs: seq<T>, ys: seq<T>, key: T -> int, k: int)
    ensures WithKey(xs + ys, key, k) == WithKey(xs, key, k) + WithKey(ys, key, k)
    decreases |ys|
  {
    if ys == [] {
      assert xs + ys == xs;
    } else {
      var init := ys[..|ys| - 1];
      WithKeyAppend(xs, init, key, k);
      assert (xs + ys)[..|xs + ys| - 1] == xs + init;
    }
  }

  lemma {:induction false} WithKeyNone<T>(xs: seq<T>, key: T -> int, k: int)
    requires forall j :: 0 <= j < |xs| ==> key(xs[j]) != k
    ensures WithKey(xs, key, k) == []
  {
    if xs != [] {
      WithKeyNone(xs[..|xs| - 1], key, k);
    }
  }

  lemma InsertByStable<T>(xs: seq<T>, key: T -> int, x: T, k: int)
    requires SortedBy(xs, key)
    ensures WithKey(InsertBy(xs, key, x), key, k) ==
      WithKey(xs, key, k) + (if key(x) == k then [x] else [])
  {
    var i := Slot(xs, key, x);
    WithKeySplit(xs, i, key, k);
    WithKeyAround(xs[..i], x, xs[i..], key, k);
    if key(x) == k {
      AfterSlot(xs, key, x);
      WithKeyNone(xs[i..], key, k);
    }
  }

  lemma WithKeySplit<T>(xs: seq<T>, i: nat, key: T -> int, k: int)
    requires i <= |xs|
    ensures WithKey(xs, key, k) == WithKey(xs[..i], key, k) + WithKey(xs[i..], key, k)
  {
    assert xs == xs[..i] + xs[i..];
    WithKeyAppend(xs[..i], xs[i..], key, k);
  }

  lemma WithKeyAround<T>(front: seq<T>, x: T, back: seq<T>, key: T -> int, k: int)
    ensures WithKey(front + [x] + back, key, k) ==
      WithKey(front, key, k) + (if key(x) == k then [x] else []) + WithKey(back, key, k)
  {
    WithKeyAppend(front + [x], back, key, k);
    WithKeyAppend(front, [x], key, k);
    assert [x][..|[x]| - 1] == [];
    assert WithKey<T>([], key, k) == [];
  }

  lemma AfterSlot<T>(xs: seq<T>, key: T -> int, x: T)
    requires SortedBy(xs, key)
    ensures forall j :: 0 <= j < |xs[Slot(xs, key, x)..]| ==> key(x) < key(xs[Slot(xs, key, x)..][j])
  {
    var i := Slot(xs, key, x);
    forall j | 0 <= j < |xs[i..]| ensures key(x) < key(xs[i..][j]) {
      assert xs[i..][j] == xs[i + j];
      if j > 0 { assert key(xs[i]) <= key(xs[i + j]); }
    }
  }

  /** Stability: for every key, the elements with that key come out in the
      order they went in. */
  lemma {:induction false} SortByStable<T>(xs: seq<T>, key: T -> int, k: int)
    ensures WithKey(SortBy(xs, key), key, k) == WithKey(xs, key, k)
  {
    if xs != [] {
      var init := xs[..|xs| - 1];
      SortByStable(init, key, k);
      SortBySorted(init, key);
      InsertByStable(SortBy(init, key), key, xs[|xs| - 1], k);
    }
  }

  /** A list already ordered by the key comes out unchanged. */
  lemma {:induction false} SortByIdentity<T>(xs: seq<T>, key: T -> int)
    requires SortedBy(xs, key)
    ensures SortBy(xs, key) == xs
  {
    if xs != [] {
      var init := xs[..|xs| - 1];
      var x := xs[|xs| - 1];
      assert SortedBy(init, key) by {
        forall a, b | 0 <= a < b < |init| ensures key(init[a]) <= key(init[b]) {
          assert init[a] == xs[a] && init[b] == xs[b];
        }
      }
      SortByIdentity(init, key);
      SlotAtEnd(init, key, x);
      assert xs == init + [x];
    }
  }

  lemma {:induction false} SlotAtEnd<T>(xs: seq<T>, key: T -> int, x: T)
    requires forall j :: 0 <= j < |xs| ==> key(xs[j]) <= key(x)
    ensures Slot(xs, key, x) == |xs|
  {
    if xs != [] {
      SlotAtEnd(xs[1..], key, x);
    }
  }

  /** Two keys that agree on every element sort the list the same way. */
  lemma {:induction false} SortByAgree<T>(xs: seq<T>, k1: T -> int, k2: T -> int)
    requires forall j :: 0 <= j < |xs| ==> k1(xs[j]) == k2(xs[j])
    ensures SortBy(xs, k1) == SortBy(xs, k2)
  {
    if xs != [] {
      var init := xs[..|xs| - 1];
      SortByAgree(init, k1, k2);
      SortBySorted(init, k1);
      var s := SortBy(init, k1);
      var x := xs[|xs| - 1];
      forall j | 0 <= j < |s| ensures k1(s[j]) == k2(s[j]) {
        assert s[j] in multiset(init);
        var m :| 0 <= m < |init| && init[m] == s[j];
        assert init[m] == xs[m];
      }
      SlotAgree(s, k1, k2, x);
    }
  }

  lemma {:induction false} SlotAgree<T>(xs: seq<T>, k1: T -> int, k2: T -> int, x: T)
    requires k1(x) == k2(x)
    requires forall j :: 0 <= j < |xs| ==> k1(xs[j]) == k2(xs[j])
    ensures Slot(xs, k1, x) == Slot(xs, k2, x)
  {
    if xs != [] {
      SlotAgree(xs[1..], k1, k2, x);
    }
  }
}
