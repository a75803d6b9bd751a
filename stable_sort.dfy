/** Python's `sorted(s, key=key, reverse=True)`: a stable sort into
    non-increasing key order. Elements with equal keys keep the order they
    had in the input (`reverse=True` does not reverse ties). */
module StableSort {

  /** Keys never increase along `s`. */
  predicate NonIncreasing<T>(s: seq<T>, key: T -> real) {
    forall i, j :: 0 <= i < j < |s| ==> key(s[i]) >= key(s[j])
  }

  /** The elements of `s` whose key is `k`, in their order in `s`. */
  function WithKey<T>(s: seq<T>, key: T -> real, k: real): seq<T> {
    if s == [] then [] else (if key(s[0]) == k then [s[0]] else []) + WithKey(s[1..], key, k)
  }

  /** Places `x`, which came before every element of `s` in the input, in
      front of the first element of `s` whose key is not larger than its own. */
  function Insert<T>(x: T, s: seq<T>, key: T -> real): seq<T> {
    if s == [] || key(s[0]) <= key(x) then [x] + s else [s[0]] + Insert(x, s[1..], key)
  }

  /** `sorted(s, key=key, reverse=True)`. */
  function SortDesc<T>(s: seq<T>, key: T -> real): seq<T> {
    if s == [] then [] else Insert(s[0], SortDesc(s[1..], key), key)
  }

  /** Concatenation regroups freely. */
  lemma AppendAssoc<T>(a: seq<T>, b: seq<T>, c: seq<T>)
    ensures a + (b + c) == (a + b) + c
  {
  }

  /** Inserting into a sorted sequence keeps it sorted, and puts either the
      new element or the old first element in front. */
  lemma {:induction false} InsertKeepsOrder<T>(x: T, s: seq<T>, key: T -> real)
    requires NonIncreasing(s, key)
    ensures NonIncreasing(Insert(x, s, key), key)
    ensures |Insert(x, s, key)| == |s| + 1
    ensures Insert(x, s, key)[0] == x || Insert(x, s, key)[0] == s[0]
  {
    if s != [] && key(s[0]) > key(x) {
      var rest := Insert(x, s[1..], key);
      assert NonIncreasing(s[1..], key) by {
        forall i, j | 0 <= i < j < |s[1..]| ensures key(s[1..][i]) >= key(s[1..][j]) {
          assert s[1..][i] == s[i + 1] && s[1..][j] == s[j + 1];
        }
      }
      InsertKeepsOrder(x, s[1..], key);
      var r := [s[0]] + rest;
      assert Insert(x, s, key) == r;
      assert key(s[0]) >= key(rest[0]) by {
        if rest[0] != x {
          assert rest[0] == s[1..][0] == s[1];
        }
      }
      forall i, j | 0 <= i < j < |r| ensures key(r[i]) >= key(r[j]) {
        if i > 0 {
          assert r[i] == rest[i - 1] && r[j] == rest[j - 1];
        } else if j > 1 {
          assert r[j] == rest[j - 1];
          assert key(rest[0]) >= key(rest[j - 1]);
        } else {
          assert r[j] == rest[0];
        }
      }
    } else {
      var r := [x] + s;
      assert Insert(x, s, key) == r;
      forall i, j | 0 <= i < j < |r| ensures key(r[i]) >= key(r[j]) {
        assert r[j] == s[j - 1];
        if i > 0 {
          assert r[i] == s[i - 1];
        } else if j > 1 {
          assert key(s[0]) >= key(s[j - 1]);
        }
      }
    }
  }

  /** Inserting adds exactly the new element. */
  lemma {:induction false} InsertPermutes<T>(x: T, s: seq<T>, key: T -> real)
    ensures multiset(Insert(x, s, key)) == multiset([x] + s)
  {
    if s != [] && key(s[0]) > key(x) {
      InsertPermutes(x, s[1..], key);
      assert Insert(x, s, key) == [s[0]] + Insert(x, s[1..], key);
      assert s == [s[0]] + s[1..];
      calc {
        multiset(Insert(x, s, key));
        multiset([s[0]]) + multiset(Insert(x, s[1..], key));
        multiset([s[0]]) + multiset([x] + s[1..]);
        multiset([x]) + (multiset([s[0]]) + multiset(s[1..]));
        multiset([x]) + multiset(s);
        multiset([x] + s);
      }
    }
  }

  /** Sorting orders the keys and loses or adds no element. */
  lemma {:induction false} SortDescOrderedPermutation<T>(s: seq<T>, key: T -> real)
    ensures NonIncreasing(SortDesc(s, key), key)
    ensures multiset(SortDesc(s, key)) == multiset(s)
    ensures |SortDesc(s, key)| == |s|
  {
    if s != [] {
      SortDescOrderedPermutation(s[1..], key);
      InsertKeepsOrder(s[0], SortDesc(s[1..], key), key);
      InsertPermutes(s[0], SortDesc(s[1..], key), key);
      assert s == [s[0]] + s[1..];
    }
  }

  lemma {:induction false} WithKeyAppend<T>(a: seq<T>, b: seq<T>, key: T -> real, k: real)
    ensures WithKey(a + b, key, k) == WithKey(a, key, k) + WithKey(b, key, k)
  {
    if a == [] {
      assert a + b == b;
    } else {
      var h := if key(a[0]) == k then [a[0]] else [];
      assert (a + b)[0] == a[0] && (a + b)[1..] == a[1..] + b;
      assert WithKey(a + b, key, k) == h + WithKey(a[1..] + b, key, k);
      assert WithKey(a, key, k) == h + WithKey(a[1..], key, k);
      WithKeyAppend(a[1..], b, key, k);
      AppendAssoc(h, WithKey(a[1..], key, k), WithKey(b, key, k));
    }
  }

  lemma WithKeySingle<T>(x: T, key: T -> real, k: real)
    ensures WithKey([x], key, k) == if key(x) == k then [x] else []
  {
    assert [x][1..] == [];
  }

  lemma {:induction false} InsertWithKey<T>(x: T, s: seq<T>, key: T -> real, k: real)
    ensures WithKey(Insert(x, s, key), key, k) == WithKey([x] + s, key, k)
  {
    if s != [] && key(s[0]) > key(x) {
      var s' := s[1..];
      var wx, w0, ws' := WithKey([x], key, k), WithKey([s[0]], key, k), WithKey(s', key, k);
      WithKeySingle(x, key, k);
      WithKeySingle(s[0], key, k);
      // At most one of `x` and `s[0]` carries the key `k`.
      assert wx + w0 == w0 + wx;
      InsertWithKey(x, s', key, k);
      assert Insert(x, s, key) == [s[0]] + Insert(x, s', key);
      WithKeyAppend([s[0]], Insert(x, s', key), key, k);
      WithKeyAppend([x], s', key, k);
      assert WithKey(Insert(x, s, key), key, k) == w0 + (wx + ws');
      assert s == [s[0]] + s';
      WithKeyAppend([s[0]], s', key, k);
      WithKeyAppend([x], s, key, k);
      assert WithKey([x] + s, key, k) == wx + (w0 + ws');
      AppendAssoc(w0, wx, ws');
      AppendAssoc(wx, w0, ws');
    }
  }

  /** Stability: for every key, the elements carrying it appear in the
      sorted sequence in exactly their input order. */
  lemma {:induction false} SortDescStable<T>(s: seq<T>, key: T -> real, k: real)
    ensures WithKey(SortDesc(s, key), key, k) == WithKey(s, key, k)
  {
    if s != [] {
      SortDescStable(s[1..], key, k);
      InsertWithKey(s[0], SortDesc(s[1..], key), key, k);
      WithKeyAppend([s[0]], SortDesc(s[1..], key), key, k);
      WithKeyAppend([s[0]], s[1..], key, k);
      assert s == [s[0]] + s[1..];
      assert [s[0]][1..] == [];
    }
  }

  /** Cutting a sorted sequence at `n`: the front stays sorted, and nothing
      behind the cut has a larger key than anything in front of it. */
  lemma SortedCut<T>(t: seq<T>, key: T -> real, n: nat)
    requires NonIncreasing(t, key) && n <= |t|
    ensures NonIncreasing(t[..n], key)
    ensures forall x, y :: x in t[n..] && y in t[..n] ==> key(x) <= key(y)
  {
    forall x, y | x in t[n..] && y in t[..n] ensures key(x) <= key(y) {
      var j :| 0 <= j < |t[n..]| && t[n..][j] == x;
      var i :| 0 <= i < n && t[..n][i] == y;
      assert t[n + j] == x && t[i] == y;
    }
    assert forall i :: 0 <= i < n ==> t[..n][i] == t[i];
  }
}
