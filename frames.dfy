/** Order-preserving row selections over a table held as a sequence of records:
    the boolean-mask selection and the keep-first de-duplication the scripts apply to
    their data frames. */
module Frames {

  /** `a` is obtained from `b` by deleting rows and keeping the order of the rest. */
  predicate Subseq<T(==, !new)>(a: seq<T>, b: seq<T>)
    decreases |b|
  {
    a == [] || (b != [] && ((a[0] == b[0] && Subseq(a[1..], b[1..])) || Subseq(a, b[1..])))
  }

  lemma {:induction false} SubseqTransitive<T(!new)>(a: seq<T>, b: seq<T>, c: seq<T>)
    requires Subseq(a, b) && Subseq(b, c)
    ensures Subseq(a, c)
    decreases |c|
  {
    if a == [] || c == [] {
    } else if Subseq(b, c[1..]) {
      SubseqTransitive(a, b, c[1..]);
    } else if a[0] == b[0] && Subseq(a[1..], b[1..]) {
      SubseqTransitive(a[1..], b[1..], c[1..]);
    } else {
      SubseqTransitive(a, b[1..], c[1..]);
    }
  }

  /** The rows of `s` on which the mask `p` holds, in their original order. */
  function Filter<T(==, !new)>(s: seq<T>, p: T -> bool): (r: seq<T>)
    ensures |r| <= |s|
    ensures forall x :: x in r <==> x in s && p(x)
    ensures forall x :: multiset(r)[x] == if p(x) then multiset(s)[x] else 0
  {
    if s == [] then []
    else
      assert s == [s[0]] + s[1..];
      if p(s[0]) then [s[0]] + Filter(s[1..], p)
      else Filter(s[1..], p)
  }

  lemma {:induction false} FilterIsSubseq<T(!new)>(s: seq<T>, p: T -> bool)
    ensures Subseq(Filter(s, p), s)
  {
    if s != [] {
      FilterIsSubseq(s[1..], p);
    }
  }

  /** A mask that every row passes removes nothing. */
  lemma {:induction false} FilterKeepsAll<T(!new)>(s: seq<T>, p: T -> bool)
    requires forall x :: x in s ==> p(x)
    ensures Filter(s, p) == s
  {
    if s != [] {
      FilterKeepsAll(s[1..], p);
    }
  }

  /** Two masks applied one after the other select what their conjunction selects. */
  lemma {:induction false} FilterTwice<T(!new)>(s: seq<T>, p: T -> bool, q: T -> bool, both: T -> bool)
    requires forall x :: both(x) == (p(x) && q(x))
    ensures Filter(Filter(s, p), q) == Filter(s, both)
  {
    if s != [] {
      FilterTwice(s[1..], p, q, both);
    }
  }

  /** No two rows of `s` share a key. */
  predicate UniqueKeys<T(!new), K(==)>(s: seq<T>, key: T -> K)
  {
    forall i, j :: 0 <= i < j < |s| ==> key(s[i]) != key(s[j])
  }

  /** The set of keys occurring in `s`. */
  function Keys<T(!new), K(==)>(s: seq<T>, key: T -> K): (ks: set<K>)
    ensures forall i :: 0 <= i < |s| ==> key(s[i]) in ks
  {
    if s == [] then {} else {key(s[0])} + Keys(s[1..], key)
  }

  /** The position of the first row of `s` whose key is `k`. */
  function FirstIndex<T(!new), K(==)>(s: seq<T>, key: T -> K, k: K): (i: nat)
    requires k in Keys(s, key)
    ensures i < |s| && key(s[i]) == k
    ensures forall j :: 0 <= j < i ==> key(s[j]) != k
  {
    if key(s[0]) == k then 0 else 1 + FirstIndex(s[1..], key, k)
  }

  /** Keep-first de-duplication continuing after the keys in `seen` have been taken. */
  function KeepFirstFrom<T(==, !new), K(==)>(s: seq<T>, key: T -> K, seen: set<K>): (r: seq<T>)
    ensures forall x :: x in r ==> x in s && key(x) !in seen
  {
    if s == [] then []
    else if key(s[0]) in seen then KeepFirstFrom(s[1..], key, seen)
    else [s[0]] + KeepFirstFrom(s[1..], key, seen + {key(s[0])})
  }

  /** `drop_duplicates(subset=key, keep='first')`. */
  function KeepFirst<T(==, !new), K(==)>(s: seq<T>, key: T -> K): seq<T>
  {
    KeepFirstFrom(s, key, {})
  }

  lemma {:induction false} KeepFirstFromIsSubseq<T(!new), K>(s: seq<T>, key: T -> K, seen: set<K>)
    ensures Subseq(KeepFirstFrom(s, key, seen), s)
  {
    if s != [] {
      if key(s[0]) in seen {
        KeepFirstFromIsSubseq(s[1..], key, seen);
      } else {
        KeepFirstFromIsSubseq(s[1..], key, seen + {key(s[0])});
      }
    }
  }

  lemma {:induction false} KeepFirstFromUnique<T(!new), K>(s: seq<T>, key: T -> K, seen: set<K>)
    ensures UniqueKeys(KeepFirstFrom(s, key, seen), key)
  {
    if s != [] {
      if key(s[0]) in seen {
        KeepFirstFromUnique(s[1..], key, seen);
      } else {
        var rest := KeepFirstFrom(s[1..], key, seen + {key(s[0])});
        KeepFirstFromUnique(s[1..], key, seen + {key(s[0])});
        assert forall j :: 0 <= j < |rest| ==> rest[j] in rest;
      }
    }
  }

  lemma {:induction false} KeepFirstFromKeys<T(!new), K>(s: seq<T>, key: T -> K, seen: set<K>)
    ensures Keys(KeepFirstFrom(s, key, seen), key) == Keys(s, key) - seen
  {
    if s != [] {
      if key(s[0]) in seen {
        KeepFirstFromKeys(s[1..], key, seen);
      } else {
        var rest := KeepFirstFrom(s[1..], key, seen + {key(s[0])});
        KeepFirstFromKeys(s[1..], key, seen + {key(s[0])});
        assert ([s[0]] + rest)[1..] == rest;
      }
    }
  }

  lemma {:induction false} KeepFirstFromAreFirst<T(!new), K>(s: seq<T>, key: T -> K, seen: set<K>)
    ensures forall x :: x in KeepFirstFrom(s, key, seen) ==>
      key(x) in Keys(s, key) && x == s[FirstIndex(s, key, key(x))]
  {
    if s != [] {
      var seen' := if key(s[0]) in seen then seen else seen + {key(s[0])};
      KeepFirstFromAreFirst(s[1..], key, seen');
      forall x | x in KeepFirstFrom(s, key, seen)
        ensures key(x) in Keys(s, key) && x == s[FirstIndex(s, key, key(x))]
      {
        if x != s[0] {
          assert x in KeepFirstFrom(s[1..], key, seen');
          FirstIndexTail(s, key, key(x));
        }
      }
    }
  }

  /** A key absent from the first row is first found one place later than in the tail. */
  lemma FirstIndexTail<T(!new), K>(s: seq<T>, key: T -> K, k: K)
    requires s != [] && key(s[0]) != k && k in Keys(s[1..], key)
    ensures k in Keys(s, key)
    ensures FirstIndex(s, key, k) == 1 + FirstIndex(s[1..], key, k)
    ensures s[FirstIndex(s, key, k)] == s[1..][FirstIndex(s[1..], key, k)]
  {
  }

  /** The de-duplicated table is a subsequence of its input, in the input order. */
  lemma KeepFirstIsSubseq<T(!new), K>(s: seq<T>, key: T -> K)
    ensures Subseq(KeepFirst(s, key), s)
  {
    KeepFirstFromIsSubseq(s, key, {});
  }

  /** No two rows of the de-duplicated table share a key. */
  lemma KeepFirstUnique<T(!new), K>(s: seq<T>, key: T -> K)
    ensures UniqueKeys(KeepFirst(s, key), key)
  {
    KeepFirstFromUnique(s, key, {});
  }

  /** Every key of the input survives de-duplication. */
  lemma KeepFirstKeys<T(!new), K>(s: seq<T>, key: T -> K)
    ensures Keys(KeepFirst(s, key), key) == Keys(s, key)
  {
    KeepFirstFromKeys(s, key, {});
  }

  /** Each kept row is the first row of the input carrying its key. */
  lemma KeepFirstAreFirst<T(!new), K>(s: seq<T>, key: T -> K)
    ensures forall x :: x in KeepFirst(s, key) ==>
      key(x) in Keys(s, key) && x == s[FirstIndex(s, key, key(x))]
  {
    KeepFirstFromAreFirst(s, key, {});
  }

  /** Row `i` passes the mask `p` and no earlier row passing it has the same key. */
  predicate FirstWhere<T(!new), K(==)>(s: seq<T>, p: T -> bool, key: T -> K, i: int)
  {
    0 <= i < |s| && p(s[i]) && forall k :: 0 <= k < i && p(s[k]) ==> key(s[k]) != key(s[i])
  }

  lemma {:induction false} FirstWhereIsKeptFrom<T(!new), K>(s: seq<T>, p: T -> bool, key: T -> K, seen: set<K>, i: int)
    requires FirstWhere(s, p, key, i) && key(s[i]) !in seen
    ensures s[i] in KeepFirstFrom(Filter(s, p), key, seen)
  {
    if i > 0 {
      var seen' := if p(s[0]) && key(s[0]) !in seen then seen + {key(s[0])} else seen;
      assert FirstWhere(s[1..], p, key, i - 1) by {
        forall k | 0 <= k < i - 1 && p(s[1..][k]) ensures key(s[1..][k]) != key(s[1..][i - 1]) {
          assert s[1..][k] == s[k + 1];
        }
      }
      assert key(s[i]) !in seen' by {
        assert p(s[0]) ==> key(s[0]) != key(s[i]);
      }
      assert s[1..][i - 1] == s[i];
      FirstWhereIsKeptFrom(s[1..], p, key, seen', i - 1);
      var f := Filter(s[1..], p);
      if p(s[0]) {
        var g := [s[0]] + f;
        assert Filter(s, p) == g;
        assert g[0] == s[0] && g[1..] == f;
        if key(s[0]) in seen {
          assert KeepFirstFrom(g, key, seen) == KeepFirstFrom(f, key, seen');
        } else {
          assert KeepFirstFrom(g, key, seen) == [s[0]] + KeepFirstFrom(f, key, seen');
        }
      }
    } else {
      var g := [s[0]] + Filter(s[1..], p);
      assert Filter(s, p) == g;
      assert g[0] == s[0] && g[1..] == Filter(s[1..], p);
      assert KeepFirstFrom(g, key, seen) == [s[0]] + KeepFirstFrom(g[1..], key, seen + {key(s[0])});
    }
  }

  lemma {:induction false} KeptFromIsFirstWhere<T(!new), K>(s: seq<T>, p: T -> bool, key: T -> K, seen: set<K>, x: T)
    requires x in KeepFirstFrom(Filter(s, p), key, seen)
    ensures exists i :: FirstWhere(s, p, key, i) && s[i] == x
  {
    if p(s[0]) && key(s[0]) !in seen && x == s[0] {
      assert FirstWhere(s, p, key, 0);
    } else {
      var seen' := if p(s[0]) && key(s[0]) !in seen then seen + {key(s[0])} else seen;
      assert x in KeepFirstFrom(Filter(s[1..], p), key, seen');
      KeptFromIsFirstWhere(s[1..], p, key, seen', x);
      var i :| FirstWhere(s[1..], p, key, i) && s[1..][i] == x;
      assert FirstWhere(s, p, key, i + 1) by {
        forall k | 0 <= k < i + 1 && p(s[k]) ensures key(s[k]) != key(s[i + 1]) {
          if k > 0 {
            assert s[k] == s[1..][k - 1];
          }
        }
      }
    }
  }

  /** Masking then de-duplicating keeps exactly the rows that pass the mask before any
      other passing row with their key. */
  lemma FilterKeepFirstIff<T(!new), K>(s: seq<T>, p: T -> bool, key: T -> K, x: T)
    ensures x in KeepFirst(Filter(s, p), key) <==> exists i :: FirstWhere(s, p, key, i) && s[i] == x
  {
    if x in KeepFirst(Filter(s, p), key) {
      KeptFromIsFirstWhere(s, p, key, {}, x);
    }
    if exists i :: FirstWhere(s, p, key, i) && s[i] == x {
      var i :| FirstWhere(s, p, key, i) && s[i] == x;
      FirstWhereIsKeptFrom(s, p, key, {}, i);
    }
  }

  /** The loop behind `drop_duplicates(keep='first')`: one pass with a set of names seen. */
  method DropDuplicates<T(==, !new), K(==)>(s: seq<T>, key: T -> K) returns (r: seq<T>)
    ensures r == KeepFirst(s, key)
  {
    r := [];
    var seen: set<K> := {};
    var i := 0;
    while i < |s|
      invariant 0 <= i <= |s|
      invariant r + KeepFirstFrom(s[i..], key, seen) == KeepFirst(s, key)
    {
      assert s[i..][1..] == s[i + 1..];
      if key(s[i]) !in seen {
        r := r + [s[i]];
        seen := seen + {key(s[i])};
      }
      i := i + 1;
    }
  }
}
