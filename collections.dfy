/** Sequence utilities shared by the catalogue queries, the geocoding cache and
    the manager views: distinctness, occurrence counts, and the stable insertion
    sort that stands for Python's `sorted(..., key=...)` and the ORM's `order_by`. */
module Collections {

  predicate Distinct<T(==)>(s: seq<T>) {
    forall i, j :: 0 <= i < j < |s| ==> s[i] != s[j]
  }

  /** Number of occurrences of `x` in `s`, counted from the back so that a loop
      that extends a prefix can keep it up to date. */
  function Count<T(==)>(s: seq<T>, x: T): nat {
    if s == [] then 0 else Count(s[..|s| - 1], x) + (if s[|s| - 1] == x then 1 else 0)
  }

  /** `le` relates every pair of keys one way or the other. */
  ghost predicate Connex<K(!new)>(le: (K, K) -> bool) {
    forall a, b :: le(a, b) || le(b, a)
  }

  /** Neighbours are in `le` order of their keys. */
  predicate SortedBy<T, K>(s: seq<T>, key: T -> K, le: (K, K) -> bool) {
    forall i :: 0 < i < |s| ==> le(key(s[i - 1]), key(s[i]))
  }

  /** Puts `x` in front of the first element whose key it does not exceed. */
  function InsertBy<T, K>(x: T, s: seq<T>, key: T -> K, le: (K, K) -> bool): seq<T> {
    if s == [] || le(key(x), key(s[0])) then [x] + s
    else [s[0]] + InsertBy(x, s[1..], key, le)
  }

  /** Stable insertion sort by `key`. */
  function SortBy<T, K>(s: seq<T>, key: T -> K, le: (K, K) -> bool): seq<T> {
    if s == [] then [] else InsertBy(s[0], SortBy(s[1..], key, le), key, le)
  }

  /** The elements of `s` whose key is `k`, in their order in `s`. */
  function KeyFilter<T, K(==)>(s: seq<T>, key: T -> K, k: K): seq<T> {
    if s == [] then [] else (if key(s[0]) == k then [s[0]] else []) + KeyFilter(s[1..], key, k)
  }

  lemma {:induction false} InsertByPermutes<T, K>(x: T, s: seq<T>, key: T -> K, le: (K, K) -> bool)
    ensures |InsertBy(x, s, key, le)| == |s| + 1
    ensures multiset(InsertBy(x, s, key, le)) == multiset([x] + s)
  {
    if s != [] && !le(key(x), key(s[0])) {
      InsertByPermutes(x, s[1..], key, le);
      assert s == [s[0]] + s[1..];
    }
  }

  lemma {:induction false} InsertBySorted<T, K(!new)>(x: T, s: seq<T>, key: T -> K, le: (K, K) -> bool)
    requires Connex(le) && SortedBy(s, key, le)
    ensures InsertBy(x, s, key, le)[0] == x || (s != [] && InsertBy(x, s, key, le)[0] == s[0])
    ensures SortedBy(InsertBy(x, s, key, le), key, le)
  {
    if s != [] && !le(key(x), key(s[0])) {
      var t := InsertBy(x, s[1..], key, le);
      assert SortedBy(s[1..], key, le) by {
        forall i | 0 < i < |s[1..]| ensures le(key(s[1..][i - 1]), key(s[1..][i])) {
          assert s[1..][i - 1] == s[i] && s[1..][i] == s[i + 1];
        }
      }
      InsertBySorted(x, s[1..], key, le);
      InsertByPermutes(x, s[1..], key, le);
      assert le(key(s[0]), key(x)) by { assert le(key(x), key(s[0])) || le(key(s[0]), key(x)); }
      assert le(key(s[0]), key(t[0]));
      var r := [s[0]] + t;
      forall i | 0 < i < |r| ensures le(key(r[i - 1]), key(r[i])) {
        if i > 1 { assert r[i - 1] == t[i - 2] && r[i] == t[i - 1]; }
      }
    }
  }

  lemma {:induction false} SortBySorted<T, K(!new)>(s: seq<T>, key: T -> K, le: (K, K) -> bool)
    requires Connex(le)
    ensures SortedBy(SortBy(s, key, le), key, le)
    ensures multiset(SortBy(s, key, le)) == multiset(s)
    ensures |SortBy(s, key, le)| == |s|
  {
    if s != [] {
      SortBySorted(s[1..], key, le);
      InsertBySorted(s[0], SortBy(s[1..], key, le), key, le);
      InsertByPermutes(s[0], SortBy(s[1..], key, le), key, le);
      assert s == [s[0]] + s[1..];
    }
  }

  lemma {:induction false} KeyFilterAppend<T, K>(a: seq<T>, b: seq<T>, key: T -> K, k: K)
    ensures KeyFilter(a + b, key, k) == KeyFilter(a, key, k) + KeyFilter(b, key, k)
  {
    if a == [] {
      assert a + b == b;
    } else {
      var c := a + b;
      assert c[0] == a[0] && c[1..] == a[1..] + b;
      KeyFilterAppend(a[1..], b, key, k);
      var f: seq<T> := if key(a[0]) == k then [a[0]] else [];
      assert KeyFilter(c, key, k) == f + KeyFilter(c[1..], key, k);
      assert KeyFilter(a, key, k) == f + KeyFilter(a[1..], key, k);
    }
  }

  lemma {:induction false} InsertByStable<T, K(!new)>(x: T, s: seq<T>, key: T -> K, le: (K, K) -> bool, k: K)
    requires Connex(le)
    ensures KeyFilter(InsertBy(x, s, key, le), key, k) == KeyFilter([x] + s, key, k)
  {
    if s == [] || le(key(x), key(s[0])) {
    } else {
      assert key(x) != key(s[0]) by { assert le(key(x), key(x)) || le(key(x), key(x)); }
      InsertByStable(x, s[1..], key, le, k);
      var t := InsertBy(x, s[1..], key, le);
      assert ([s[0]] + t)[1..] == t;
      assert ([x] + s[1..])[1..] == s[1..];
      assert ([x] + s)[1..] == s;
      var fx: seq<T> := if key(x) == k then [x] else [];
      var f0: seq<T> := if key(s[0]) == k then [s[0]] else [];
      assert KeyFilter(t, key, k) == fx + KeyFilter(s[1..], key, k);
      assert KeyFilter([s[0]] + t, key, k) == f0 + KeyFilter(t, key, k);
      assert KeyFilter(s, key, k) == f0 + KeyFilter(s[1..], key, k);
      assert f0 + fx == fx + f0;
    }
  }

  /** Stability: for every key, the elements carrying it keep their relative order. */
  lemma {:induction false} SortByStable<T, K(!new)>(s: seq<T>, key: T -> K, le: (K, K) -> bool, k: K)
    requires Connex(le)
    ensures KeyFilter(SortBy(s, key, le), key, k) == KeyFilter(s, key, k)
  {
    if s != [] {
      SortByStable(s[1..], key, le, k);
      InsertByStable(s[0], SortBy(s[1..], key, le), key, le, k);
      KeyFilterAppend([s[0]], SortBy(s[1..], key, le), key, k);
      KeyFilterAppend([s[0]], s[1..], key, k);
      assert [s[0]] + s[1..] == s;
    }
  }

  function IntLe(a: int, b: int): bool { a <= b }

  lemma IntLeTotal()
    ensures Connex(IntLe)
  {
  }

  /** With integer keys, neighbour order gives order between any two positions. */
  lemma {:induction false} SortedByIntOrdered<T>(s: seq<T>, key: T -> int, i: nat, j: nat)
    requires SortedBy(s, key, IntLe) && i <= j < |s|
    ensures key(s[i]) <= key(s[j])
    decreases j - i
  {
    if i < j {
      SortedByIntOrdered(s, key, i + 1, j);
      assert IntLe(key(s[i]), key(s[i + 1]));
    }
  }

  /** Lexicographic order on code points, as Python compares `str` values. */
  function StringLe(a: string, b: string): bool {
    if a == [] then true
    else if b == [] then false
    else if a[0] != b[0] then a[0] < b[0]
    else StringLe(a[1..], b[1..])
  }

  lemma {:induction false} StringLeTotalAt(a: string, b: string)
    ensures StringLe(a, b) || StringLe(b, a)
  {
    if a != [] && b != [] && a[0] == b[0] {
      StringLeTotalAt(a[1..], b[1..]);
    }
  }

  lemma StringLeTotal()
    ensures Connex(StringLe)
  {
    forall a: string, b: string ensures StringLe(a, b) || StringLe(b, a) {
      StringLeTotalAt(a, b);
    }
  }

  lemma {:induction false} DistinctAtMostOnce<T>(s: seq<T>, x: T)
    requires Distinct(s)
    ensures multiset(s)[x] <= 1
  {
    if s != [] {
      assert s == [s[0]] + s[1..];
      assert Distinct(s[1..]) by {
        forall i, j | 0 <= i < j < |s[1..]| ensures s[1..][i] != s[1..][j] {
          assert s[1..][i] == s[i + 1] && s[1..][j] == s[j + 1];
        }
      }
      DistinctAtMostOnce(s[1..], x);
      if s[0] == x {
        assert x !in s[1..] by {
          forall k | 0 <= k < |s[1..]| ensures s[1..][k] != x { assert s[1..][k] == s[k + 1]; }
        }
      }
    }
  }

  /** A rearrangement of a sequence without repeats has none either. */
  lemma DistinctPermutation<T>(a: seq<T>, b: seq<T>)
    requires multiset(a) == multiset(b) && Distinct(a)
    ensures Distinct(b)
  {
    forall i, j | 0 <= i < j < |b| ensures b[i] != b[j] {
      if b[i] == b[j] {
        var x := b[i];
        assert b == b[..j] + b[j..];
        assert x in b[..j];
        assert b[j..][0] == x;
        assert multiset(b[..j])[x] >= 1 && multiset(b[j..])[x] >= 1;
        DistinctAtMostOnce(a, x);
        assert false;
      }
    }
  }
}
