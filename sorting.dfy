/**
 The stable sort both derivation steps rely on. `Array.prototype.sort` with
 a numeric comparator orders elements by a key and, being stable, keeps the
 input order of elements whose keys are equal. It is written here as an
 insertion sort over a key function: the ascending comparator `(a, b) => a - b`
 is the key `a`, the descending `(a, b) => b.createdAt - a.createdAt` is the
 key `-a.createdAt`.
 */
module Sorting {

  /** Every element's key is at most the key of every element after it. */
  predicate SortedBy<T>(s: seq<T>, key: T -> int)
  {
    forall i, j :: 0 <= i < j < |s| ==> key(s[i]) <= key(s[j])
  }

  /** The elements of `s` whose key is `k`, in the order `s` has them. */
  function KeyedAt<T>(s: seq<T>, key: T -> int, k: int): seq<T>
  {
    if s == [] then []
    else (if key(s[0]) == k then [s[0]] else []) + KeyedAt(s[1..], key, k)
  }

  /** `KeyedAt` selects exactly the elements of `s` whose key is `k`. */
  lemma {:induction false} KeyedAtMembers<T>(s: seq<T>, key: T -> int, k: int)
    ensures forall y :: y in KeyedAt(s, key, k) <==> y in s && key(y) == k
  {
    if s != [] {
      KeyedAtMembers(s[1..], key, k);
      assert s == [s[0]] + s[1..];
    }
  }

  /** What a stable sort of `input` by `key` must produce: a sorted sequence
      in which the elements of each key appear exactly as, and in the order,
      they appear in `input`. */
  ghost predicate StablySorted<T>(input: seq<T>, r: seq<T>, key: T -> int)
  {
    SortedBy(r, key) && forall k :: KeyedAt(r, key, k) == KeyedAt(input, key, k)
  }

  /** Places `x` in front of the first element whose key is not smaller
      than `x`'s, so that `x` comes before every element whose key ties
      with it. */
  function InsertBy<T>(x: T, s: seq<T>, key: T -> int): seq<T>
  {
    if s == [] || key(x) <= key(s[0]) then [x] + s
    else [s[0]] + InsertBy(x, s[1..], key)
  }

  /** Inserts the elements one by one, the last first. */
  function SortBy<T>(s: seq<T>, key: T -> int): seq<T>
  {
    if s == [] then [] else InsertBy(s[0], SortBy(s[1..], key), key)
  }

  lemma {:induction false} InsertPermutes<T>(x: T, s: seq<T>, key: T -> int)
    ensures multiset(InsertBy(x, s, key)) == multiset(s) + multiset{x}
    ensures |InsertBy(x, s, key)| == |s| + 1
  {
    if !(s == [] || key(x) <= key(s[0])) {
      InsertPermutes(x, s[1..], key);
      assert s == [s[0]] + s[1..];
    }
  }

  /** Sorting rearranges the elements and drops or adds none. */
  lemma {:induction false} SortPermutes<T>(s: seq<T>, key: T -> int)
    ensures multiset(SortBy(s, key)) == multiset(s)
    ensures |SortBy(s, key)| == |s|
  {
    if s != [] {
      SortPermutes(s[1..], key);
      InsertPermutes(s[0], SortBy(s[1..], key), key);
      assert s == [s[0]] + s[1..];
    }
  }

  lemma {:induction false} InsertKeepsSorted<T>(x: T, s: seq<T>, key: T -> int)
    requires SortedBy(s, key)
    ensures SortedBy(InsertBy(x, s, key), key)
  {
    if s == [] || key(x) <= key(s[0]) {
      var r := [x] + s;
      forall i, j | 0 <= i < j < |r| ensures key(r[i]) <= key(r[j]) {
        assert r[j] == s[j - 1];
        if i > 0 {
          assert r[i] == s[i - 1];
        }
      }
    } else {
      var rest := InsertBy(x, s[1..], key);
      InsertKeepsSorted(x, s[1..], key);
      InsertPermutes(x, s[1..], key);
      var r := [s[0]] + rest;
      forall i, j | 0 <= i < j < |r| ensures key(r[i]) <= key(r[j]) {
        assert r[j] == rest[j - 1];
        if i > 0 {
          assert r[i] == rest[i - 1];
        } else {
          assert rest[j - 1] in multiset(rest);
          if rest[j - 1] != x {
            assert rest[j - 1] in multiset(s[1..]);
            var m :| 0 <= m < |s[1..]| && s[1..][m] == rest[j - 1];
            assert s[m + 1] == rest[j - 1];
          }
        }
      }
    }
  }

  /** The sort orders the elements by key. */
  lemma {:induction false} SortIsSorted<T>(s: seq<T>, key: T -> int)
    ensures SortedBy(SortBy(s, key), key)
  {
    if s != [] {
      SortIsSorted(s[1..], key);
      InsertKeepsSorted(s[0], SortBy(s[1..], key), key);
    }
  }

  lemma {:induction false} KeyedAtAppend<T>(a: seq<T>, b: seq<T>, key: T -> int, k: int)
    ensures KeyedAt(a + b, key, k) == KeyedAt(a, key, k) + KeyedAt(b, key, k)
  {
    if a == [] {
      assert a + b == b;
    } else {
      var head := if key(a[0]) == k then [a[0]] else [];
      assert (a + b)[0] == a[0];
      assert (a + b)[1..] == a[1..] + b;
      assert KeyedAt(a + b, key, k) == head + KeyedAt(a[1..] + b, key, k);
      KeyedAtAppend(a[1..], b, key, k);
      assert head + (KeyedAt(a[1..], key, k) + KeyedAt(b, key, k))
          == (head + KeyedAt(a[1..], key, k)) + KeyedAt(b, key, k);
    }
  }

  /** A prefix keeps a prefix of each key's elements. */
  lemma {:induction false} KeyedAtPrefix<T>(a: seq<T>, b: seq<T>, key: T -> int, k: int)
    requires a <= b
    ensures KeyedAt(a, key, k) <= KeyedAt(b, key, k)
  {
    KeyedAtAppend(a, b[|a|..], key, k);
    assert a + b[|a|..] == b;
  }

  lemma {:induction false} InsertKeepsKeyOrder<T>(x: T, s: seq<T>, key: T -> int, k: int)
    ensures KeyedAt(InsertBy(x, s, key), key, k)
         == (if key(x) == k then [x] else []) + KeyedAt(s, key, k)
  {
    if s == [] || key(x) <= key(s[0]) {
      assert InsertBy(x, s, key) == [x] + s;
      KeyedAtAppend([x], s, key, k);
    } else {
      var rest := InsertBy(x, s[1..], key);
      assert InsertBy(x, s, key) == [s[0]] + rest;
      KeyedAtAppend([s[0]], rest, key, k);
      InsertKeepsKeyOrder(x, s[1..], key, k);
      if key(x) == k {
        // s[0]'s key is strictly greater than x's, so it is not k
        assert KeyedAt([s[0]], key, k) == [];
        assert KeyedAt(s, key, k) == KeyedAt(s[1..], key, k);
      } else {
        assert KeyedAt(rest, key, k) == KeyedAt(s[1..], key, k);
      }
    }
  }

  /** The sort is stable: per key, the input order survives. */
  lemma {:induction false} SortKeepsKeyOrder<T>(s: seq<T>, key: T -> int, k: int)
    ensures KeyedAt(SortBy(s, key), key, k) == KeyedAt(s, key, k)
  {
    if s != [] {
      SortKeepsKeyOrder(s[1..], key, k);
      InsertKeepsKeyOrder(s[0], SortBy(s[1..], key), key, k);
    }
  }

  lemma SortIsStable<T>(s: seq<T>, key: T -> int)
    ensures StablySorted(s, SortBy(s, key), key)
  {
    SortIsSorted(s, key);
    forall k ensures KeyedAt(SortBy(s, key), key, k) == KeyedAt(s, key, k) {
      SortKeepsKeyOrder(s, key, k);
    }
  }

  lemma KeyedAtHead<T>(s: seq<T>, key: T -> int)
    requires s != []
    ensures KeyedAt(s, key, key(s[0])) == [s[0]] + KeyedAt(s[1..], key, key(s[0]))
  {
  }

  /** A sorted sequence holding an element with key `k` starts with an
      element whose key is at most `k`. */
  lemma {:induction false} SortedHeadBound<T>(s: seq<T>, key: T -> int, k: int)
    requires SortedBy(s, key) && KeyedAt(s, key, k) != []
    ensures s != [] && key(s[0]) <= k
  {
    if key(s[0]) != k {
      assert KeyedAt(s, key, k) == KeyedAt(s[1..], key, k);
      SortedHeadBound(s[1..], key, k);
      assert s[1..][0] == s[1];
    }
  }

  /** Two sorted sequences that agree on every key's elements start with the
      same element. */
  lemma HeadsAgree<T>(a: seq<T>, b: seq<T>, key: T -> int)
    requires SortedBy(a, key) && SortedBy(b, key) && a != [] && b != []
    requires forall k :: KeyedAt(a, key, k) == KeyedAt(b, key, k)
    ensures a[0] == b[0]
  {
    var ka, kb := key(a[0]), key(b[0]);
    KeyedAtHead(a, key);
    KeyedAtHead(b, key);
    assert KeyedAt(b, key, ka) == KeyedAt(a, key, ka);
    SortedHeadBound(b, key, ka);
    assert KeyedAt(a, key, kb) == KeyedAt(b, key, kb);
    SortedHeadBound(a, key, kb);
    assert ka == kb;
    assert KeyedAt(a, key, ka)[0] == a[0];
    assert KeyedAt(b, key, kb)[0] == b[0];
  }

  /** Two sorted sequences that agree on every key's elements are the same
      sequence. */
  lemma {:induction false} SortedDeterminedByKeys<T>(a: seq<T>, b: seq<T>, key: T -> int)
    requires SortedBy(a, key) && SortedBy(b, key)
    requires forall k :: KeyedAt(a, key, k) == KeyedAt(b, key, k)
    ensures a == b
    decreases |a| + |b|
  {
    if a == [] && b == [] {
    } else if a == [] {
      KeyedAtHead(b, key);
      assert false;
    } else if b == [] {
      KeyedAtHead(a, key);
      assert false;
    } else {
      HeadsAgree(a, b, key);
      var h := key(a[0]);
      forall k ensures KeyedAt(a[1..], key, k) == KeyedAt(b[1..], key, k) {
        assert KeyedAt(a, key, k) == KeyedAt(b, key, k);
        if k == h {
          KeyedAtHead(a, key);
          KeyedAtHead(b, key);
          assert KeyedAt(a[1..], key, k) == KeyedAt(a, key, k)[1..];
          assert KeyedAt(b[1..], key, k) == KeyedAt(b, key, k)[1..];
        } else {
          assert KeyedAt(a, key, k) == KeyedAt(a[1..], key, k);
          assert KeyedAt(b, key, k) == KeyedAt(b[1..], key, k);
        }
      }
      SortedDeterminedByKeys(a[1..], b[1..], key);
      assert a == [a[0]] + a[1..];
      assert b == [b[0]] + b[1..];
    }
  }

  /** The insertion sort is the only stable sort of its input: any other
      stable sorting algorithm produces the same sequence. */
  lemma StableSortIsUnique<T>(s: seq<T>, r: seq<T>, key: T -> int)
    requires StablySorted(s, r, key)
    ensures r == SortBy(s, key)
  {
    SortIsStable(s, key);
    SortedDeterminedByKeys(r, SortBy(s, key), key);
  }
}
