/**
 * Sequences of records compared by identity key.
 *
 * A record's identity is `key(record)`, the value found at the table's `idAccessor`
 * path; the model keeps the key function abstract. The two collection helpers the
 * table imports from its utilities are defined here with their usual lodash meaning:
 * `uniqBy` keeps the first record of each key, in order, and `differenceBy` keeps the
 * records of its first list whose key does not occur in its second, in order.
 */
module KeyedSeq {

  /** The keys of `s`, position by position (`s.map(key)`). */
  function KeysOf<T, K>(key: T -> K, s: seq<T>): (ks: seq<K>)
    ensures |ks| == |s|
    ensures forall i :: 0 <= i < |s| ==> ks[i] == key(s[i])
  {
    seq(|s|, i requires 0 <= i < |s| => key(s[i]))
  }

  /** No two records of `s` share a key. */
  ghost predicate NoDupKeys<T, K>(key: T -> K, s: seq<T>)
  {
    forall i, j :: 0 <= i < j < |s| ==> key(s[i]) != key(s[j])
  }

  /** `r` is `s` with some elements dropped and the rest left in their order. */
  ghost predicate SubsequenceOf<T>(r: seq<T>, s: seq<T>)
    decreases |s|
  {
    if r == [] then true
    else if s == [] then false
    else (r[|r| - 1] == s[|s| - 1] && SubsequenceOf(r[..|r| - 1], s[..|s| - 1]))
         || SubsequenceOf(r, s[..|s| - 1])
  }

  /** `Array.prototype.filter` with a predicate that also sees the element's index. */
  function Filter<T>(s: seq<T>, keep: (T, nat) -> bool): (r: seq<T>)
    ensures |r| <= |s|
    decreases |s|
  {
    if s == [] then []
    else
      var n := |s| - 1;
      Filter(s[..n], keep) + (if keep(s[n], n) then [s[n]] else [])
  }

  /** The records of `s` whose key is not among `ks`, in order. */
  function Without<T, K(==)>(key: T -> K, s: seq<T>, ks: seq<K>): (r: seq<T>)
    decreases |s|
  {
    if s == [] then []
    else
      var n := |s| - 1;
      Without(key, s[..n], ks) + (if key(s[n]) in ks then [] else [s[n]])
  }

  /** lodash `differenceBy(a, b, key)`. */
  function DifferenceBy<T, K(==)>(key: T -> K, a: seq<T>, b: seq<T>): (r: seq<T>)
  {
    Without(key, a, KeysOf(key, b))
  }

  /** lodash `uniqBy(s, key)`: a record is kept unless an earlier one has its key. */
  function UniqBy<T, K(==)>(key: T -> K, s: seq<T>): (r: seq<T>)
    decreases |s|
  {
    if s == [] then []
    else
      var n := |s| - 1;
      var prefix := UniqBy(key, s[..n]);
      if key(s[n]) in KeysOf(key, prefix) then prefix else prefix + [s[n]]
  }

  // ---------------------------------------------------------------------------
  // Subsequences

  lemma {:induction false} SubsequenceRefl<T>(s: seq<T>)
    ensures SubsequenceOf(s, s)
    decreases |s|
  {
    if s != [] {
      SubsequenceRefl(s[..|s| - 1]);
    }
  }

  /** Every element of a subsequence is an element of the whole. */
  lemma {:induction false} SubsequenceMembers<T>(r: seq<T>, s: seq<T>)
    requires SubsequenceOf(r, s)
    ensures forall x :: x in r ==> x in s
    decreases |s|
  {
    if r != [] {
      var m, n := |r| - 1, |s| - 1;
      if r[m] == s[n] && SubsequenceOf(r[..m], s[..n]) {
        SubsequenceMembers(r[..m], s[..n]);
        assert r == r[..m] + [r[m]];
        assert s == s[..n] + [s[n]];
      } else {
        SubsequenceMembers(r, s[..n]);
        assert s == s[..n] + [s[n]];
      }
    }
  }

  /** A subsequence of a sequence without repeated keys has none either. */
  lemma {:induction false} SubsequenceNoDup<T, K>(key: T -> K, r: seq<T>, s: seq<T>)
    requires SubsequenceOf(r, s) && NoDupKeys(key, s)
    ensures NoDupKeys(key, r)
    decreases |s|
  {
    if r != [] {
      var m, n := |r| - 1, |s| - 1;
      assert NoDupKeys(key, s[..n]);
      if r[m] == s[n] && SubsequenceOf(r[..m], s[..n]) {
        SubsequenceNoDup(key, r[..m], s[..n]);
        SubsequenceMembers(r[..m], s[..n]);
        forall i, j | 0 <= i < j < |r| ensures key(r[i]) != key(r[j]) {
          if j == m {
            assert r[i] in r[..m];
            var i' :| 0 <= i' < n && s[..n][i'] == r[i];
            assert key(s[i']) != key(s[n]);
          } else {
            assert r[i] == r[..m][i] && r[j] == r[..m][j];
          }
        }
      } else {
        SubsequenceNoDup(key, r, s[..n]);
      }
    }
  }

  // ---------------------------------------------------------------------------
  // Filter

  /** `Filter` keeps exactly the elements whose (element, index) pair passes. */
  lemma {:induction false} FilterMembers<T>(s: seq<T>, keep: (T, nat) -> bool)
    ensures forall x :: x in Filter(s, keep) <==>
              exists i :: 0 <= i < |s| && keep(s[i], i) && s[i] == x
    decreases |s|
  {
    if s != [] {
      var n := |s| - 1;
      FilterMembers(s[..n], keep);
      forall x ensures x in Filter(s, keep) <==> exists i :: 0 <= i < |s| && keep(s[i], i) && s[i] == x {
        if x in Filter(s[..n], keep) {
          var i :| 0 <= i < n && keep(s[..n][i], i) && s[..n][i] == x;
          assert s[i] == x;
        }
        if exists i :: 0 <= i < |s| && keep(s[i], i) && s[i] == x {
          var i :| 0 <= i < |s| && keep(s[i], i) && s[i] == x;
          if i < n {
            assert s[..n][i] == x;
          }
        }
      }
    }
  }

  /** `Filter` drops elements and never reorders the ones it keeps. */
  lemma {:induction false} FilterSubsequence<T>(s: seq<T>, keep: (T, nat) -> bool)
    ensures SubsequenceOf(Filter(s, keep), s)
    decreases |s|
  {
    if s != [] {
      var n := |s| - 1;
      var r := Filter(s, keep);
      FilterSubsequence(s[..n], keep);
      if keep(s[n], n) {
        assert r[..|r| - 1] == Filter(s[..n], keep);
        assert r[|r| - 1] == s[n];
      } else {
        assert r == Filter(s[..n], keep);
      }
      assert s[..|s| - 1] == s[..n];
    }
  }

  /** Two predicates that agree on every (element, index) pair of `s` filter it alike. */
  lemma {:induction false} FilterCongruent<T>(s: seq<T>, keep1: (T, nat) -> bool, keep2: (T, nat) -> bool)
    requires forall i :: 0 <= i < |s| ==> keep1(s[i], i) == keep2(s[i], i)
    ensures Filter(s, keep1) == Filter(s, keep2)
    decreases |s|
  {
    if s != [] {
      var n := |s| - 1;
      FilterCongruent(s[..n], keep1, keep2);
    }
  }

  // ---------------------------------------------------------------------------
  // Without / DifferenceBy

  /** `Without` distributes over concatenation. */
  lemma {:induction false} WithoutAppend<T, K>(key: T -> K, a: seq<T>, b: seq<T>, ks: seq<K>)
    ensures Without(key, a + b, ks) == Without(key, a, ks) + Without(key, b, ks)
    decreases |b|
  {
    if b != [] {
      var n := |b| - 1;
      assert (a + b)[..|a + b| - 1] == a + b[..n];
      WithoutAppend(key, a, b[..n], ks);
    } else {
      assert a + b == a;
    }
  }

  /** `Without` keeps exactly the records whose key is not excluded. */
  lemma {:induction false} WithoutMembers<T, K>(key: T -> K, s: seq<T>, ks: seq<K>)
    ensures forall x :: x in Without(key, s, ks) <==> x in s && key(x) !in ks
    decreases |s|
  {
    if s != [] {
      var n := |s| - 1;
      WithoutMembers(key, s[..n], ks);
      assert s == s[..n] + [s[n]];
    }
  }

  /** `Without` drops records and never reorders the ones it keeps. */
  lemma {:induction false} WithoutSubsequence<T, K>(key: T -> K, s: seq<T>, ks: seq<K>)
    ensures SubsequenceOf(Without(key, s, ks), s)
    decreases |s|
  {
    if s != [] {
      var n := |s| - 1;
      var r := Without(key, s, ks);
      WithoutSubsequence(key, s[..n], ks);
      if key(s[n]) !in ks {
        assert r[..|r| - 1] == Without(key, s[..n], ks);
        assert r[|r| - 1] == s[n];
      } else {
        assert r == Without(key, s[..n], ks);
      }
      assert s[..|s| - 1] == s[..n];
    }
  }

  /** `Without` keeps every copy of a record whose key is not excluded and no copy of the others. */
  lemma {:induction false} WithoutCount<T, K>(key: T -> K, s: seq<T>, ks: seq<K>)
    ensures forall x :: multiset(Without(key, s, ks))[x] == if key(x) in ks then 0 else multiset(s)[x]
    decreases |s|
  {
    if s != [] {
      var n := |s| - 1;
      WithoutCount(key, s[..n], ks);
      assert s == s[..n] + [s[n]];
    }
  }

  /** When no record of `s` has an excluded key, `Without` returns `s` itself. */
  lemma {:induction false} WithoutNothing<T, K>(key: T -> K, s: seq<T>, ks: seq<K>)
    requires forall i :: 0 <= i < |s| ==> key(s[i]) !in ks
    ensures Without(key, s, ks) == s
    decreases |s|
  {
    if s != [] {
      var n := |s| - 1;
      WithoutNothing(key, s[..n], ks);
      assert s == s[..n] + [s[n]];
    }
  }

  /** When every record of `s` has an excluded key, `Without` returns nothing. */
  lemma {:induction false} WithoutEverything<T, K>(key: T -> K, s: seq<T>, ks: seq<K>)
    requires forall i :: 0 <= i < |s| ==> key(s[i]) in ks
    ensures Without(key, s, ks) == []
    decreases |s|
  {
    if s != [] {
      WithoutEverything(key, s[..|s| - 1], ks);
    }
  }

  /** Key-level view of `Without`: a key survives iff it occurs in `s` and is not excluded. */
  lemma WithoutHasKey<T, K>(key: T -> K, s: seq<T>, ks: seq<K>, k: K)
    ensures k in KeysOf(key, Without(key, s, ks)) <==> k in KeysOf(key, s) && k !in ks
  {
    var r := Without(key, s, ks);
    WithoutMembers(key, s, ks);
    if k in KeysOf(key, r) {
      var i :| 0 <= i < |r| && KeysOf(key, r)[i] == k;
      assert r[i] in r;
      var j :| 0 <= j < |s| && s[j] == r[i];
      assert KeysOf(key, s)[j] == k;
    }
    if k in KeysOf(key, s) && k !in ks {
      var j :| 0 <= j < |s| && KeysOf(key, s)[j] == k;
      assert s[j] in s;
      var i :| 0 <= i < |r| && r[i] == s[j];
      assert KeysOf(key, r)[i] == k;
    }
  }

  /**
   * `differenceBy(a, b)` only removes records of `a`, keeps the survivors' order, and
   * keeps exactly those whose key does not occur in `b`, every copy of each.
   */
  lemma DifferenceBySpec<T, K>(key: T -> K, a: seq<T>, b: seq<T>)
    ensures SubsequenceOf(DifferenceBy(key, a, b), a)
    ensures forall x :: x in DifferenceBy(key, a, b) <==> x in a && key(x) !in KeysOf(key, b)
    ensures forall x :: multiset(DifferenceBy(key, a, b))[x] == if key(x) in KeysOf(key, b) then 0 else multiset(a)[x]
    ensures NoDupKeys(key, a) ==> NoDupKeys(key, DifferenceBy(key, a, b))
  {
    WithoutSubsequence(key, a, KeysOf(key, b));
    WithoutMembers(key, a, KeysOf(key, b));
    WithoutCount(key, a, KeysOf(key, b));
    if NoDupKeys(key, a) {
      SubsequenceNoDup(key, DifferenceBy(key, a, b), a);
    }
  }

  // ---------------------------------------------------------------------------
  // UniqBy

  /** A key occurs in a concatenation iff it occurs in one of the parts. */
  lemma KeysOfAppend<T, K>(key: T -> K, a: seq<T>, b: seq<T>, k: K)
    ensures k in KeysOf(key, a + b) <==> k in KeysOf(key, a) || k in KeysOf(key, b)
  {
    assert KeysOf(key, a + b) == KeysOf(key, a) + KeysOf(key, b);
  }


  /** `uniqBy` yields a key iff its input has it. */
  lemma {:induction false} UniqByHasKey<T, K>(key: T -> K, s: seq<T>, k: K)
    ensures k in KeysOf(key, UniqBy(key, s)) <==> k in KeysOf(key, s)
    decreases |s|
  {
    if s != [] {
      var n := |s| - 1;
      var p := UniqBy(key, s[..n]);
      UniqByHasKey(key, s[..n], k);
      KeysOfAppend(key, s[..n], [s[n]], k);
      KeysOfAppend(key, p, [s[n]], k);
      assert s == s[..n] + [s[n]];
    }
  }

  /** `uniqBy` never yields two records with the same key. */
  lemma {:induction false} UniqByNoDupKeys<T, K>(key: T -> K, s: seq<T>)
    ensures NoDupKeys(key, UniqBy(key, s))
    decreases |s|
  {
    if s != [] {
      var n := |s| - 1;
      var p := UniqBy(key, s[..n]);
      UniqByNoDupKeys(key, s[..n]);
      if key(s[n]) !in KeysOf(key, p) {
        forall i, j | 0 <= i < j < |p| + 1 ensures key((p + [s[n]])[i]) != key((p + [s[n]])[j]) {
          if j == |p| {
            assert KeysOf(key, p)[i] == key(p[i]);
          }
        }
      }
    }
  }

  /** `uniqBy` yields every key of its input, and no other, exactly once. */
  lemma UniqByKeys<T, K>(key: T -> K, s: seq<T>)
    ensures NoDupKeys(key, UniqBy(key, s))
    ensures forall k :: k in KeysOf(key, UniqBy(key, s)) <==> k in KeysOf(key, s)
  {
    UniqByNoDupKeys(key, s);
    forall k ensures k in KeysOf(key, UniqBy(key, s)) <==> k in KeysOf(key, s) {
      UniqByHasKey(key, s, k);
    }
  }

  /** A sequence without repeated keys is left alone by `uniqBy`. */
  lemma {:induction false} UniqByNoDup<T, K>(key: T -> K, s: seq<T>)
    requires NoDupKeys(key, s)
    ensures UniqBy(key, s) == s
    decreases |s|
  {
    if s != [] {
      var n := |s| - 1;
      assert NoDupKeys(key, s[..n]);
      UniqByNoDup(key, s[..n]);
      assert key(s[n]) !in KeysOf(key, s[..n]) by {
        forall i | 0 <= i < n ensures KeysOf(key, s[..n])[i] != key(s[n]) {
          assert key(s[i]) != key(s[n]);
        }
      }
      assert s == s[..n] + [s[n]];
    }
  }

  /**
   * `uniqBy` is exactly "keep each record that no earlier record shares a key with":
   * the first occurrence of every key, in the input order.
   */
  lemma {:induction false} UniqByFirstOccurrences<T, K>(key: T -> K, s: seq<T>)
    ensures UniqBy(key, s) == Filter(s, (x: T, i: nat) => i <= |s| && key(x) !in KeysOf(key, s[..i]))
    decreases |s|
  {
    if s != [] {
      var n := |s| - 1;
      var p := s[..n];
      var keepS := (x: T, i: nat) => i <= |s| && key(x) !in KeysOf(key, s[..i]);
      var keepP := (x: T, i: nat) => i <= |p| && key(x) !in KeysOf(key, p[..i]);
      assert Filter(p, keepP) == Filter(p, keepS) by {
        forall i | 0 <= i < |p| ensures keepS(p[i], i) == keepP(p[i], i) {
          assert s[..i] == p[..i];
        }
        FilterCongruent(p, keepS, keepP);
      }
      assert UniqBy(key, p) == Filter(p, keepP) by {
        UniqByFirstOccurrences(key, p);
      }
      assert key(s[n]) in KeysOf(key, UniqBy(key, p)) <==> key(s[n]) in KeysOf(key, p) by {
        UniqByHasKey(key, p, key(s[n]));
      }
      assert keepS(s[n], n) == (key(s[n]) !in KeysOf(key, p));
      assert Filter(s, keepS) == Filter(p, keepS) + (if keepS(s[n], n) then [s[n]] else []);
    }
  }

  /** The keys of `uniqBy(a ++ b)` are those of `a` together with those of `b`. */
  lemma UniqByAppendHasKey<T, K>(key: T -> K, a: seq<T>, b: seq<T>, k: K)
    ensures k in KeysOf(key, UniqBy(key, a + b)) <==> k in KeysOf(key, a) || k in KeysOf(key, b)
  {
    UniqByHasKey(key, a + b, k);
    KeysOfAppend(key, a, b, k);
  }

  /**
   * `uniqBy(a ++ b)` is `uniqBy(a)` followed by the first occurrences in `b` of the keys
   * `a` does not have, in `b`'s order.
   */
  lemma {:induction false} UniqByAppend<T, K>(key: T -> K, a: seq<T>, b: seq<T>)
    ensures UniqBy(key, a + b) == UniqBy(key, a) + Without(key, UniqBy(key, b), KeysOf(key, a))
    decreases |b|
  {
    if b == [] {
      assert a + b == a;
    } else {
      var n := |b| - 1;
      var y := b[n];
      var b' := b[..n];
      var ka := KeysOf(key, a);
      var left := UniqBy(key, a + b');
      var ub' := UniqBy(key, b');
      assert left == UniqBy(key, a) + Without(key, ub', ka) by {
        UniqByAppend(key, a, b');
      }
      assert UniqBy(key, a + b) == if key(y) in KeysOf(key, left) then left else left + [y] by {
        assert (a + b)[..|a + b| - 1] == a + b';
        assert (a + b)[|a + b| - 1] == y;
      }
      assert UniqBy(key, b) == if key(y) in KeysOf(key, ub') then ub' else ub' + [y];
      assert key(y) in KeysOf(key, left) <==> key(y) in ka || key(y) in KeysOf(key, ub') by {
        UniqByHasKey(key, a + b', key(y));
        UniqByHasKey(key, b', key(y));
        KeysOfAppend(key, a, b', key(y));
      }
      assert Without(key, ub' + [y], ka) == Without(key, ub', ka) + (if key(y) in ka then [] else [y]) by {
        WithoutAppend(key, ub', [y], ka);
        assert [y][..0] == [];
      }
    }
  }

  /** Appending a record whose key is new, after a sequence without repeated keys. */
  lemma UniqByAppendFresh<T, K>(key: T -> K, s: seq<T>, x: T)
    requires NoDupKeys(key, s) && key(x) !in KeysOf(key, s)
    ensures UniqBy(key, s + [x]) == s + [x]
  {
    UniqByAppend(key, s, [x]);
    UniqByNoDup(key, s);
    assert UniqBy(key, [x]) == [x] by {
      assert [x][..0] == [];
    }
    assert [x][..0] == [];
  }
}
