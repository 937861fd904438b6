/**
 * Sequence operations behind the relationship queries: first-occurrence
 * deduplication (the `if x not in acc: acc.append(x)` loops), the index of the
 * first occurrence, and the filter of keys that occur more than n times.
 */
module Sequences {

  predicate NoDuplicates<T(==)>(s: seq<T>) {
    forall i, j :: 0 <= i < j < |s| ==> s[i] != s[j]
  }

  /** The elements of s without repetitions, each kept at its first occurrence. */
  function Distinct<T(==)>(s: seq<T>): (r: seq<T>)
    ensures |r| <= |s|
  {
    if s == [] then []
    else
      var d := Distinct(s[..|s| - 1]);
      assert s == s[..|s| - 1] + [s[|s| - 1]];
      if s[|s| - 1] in d then d else d + [s[|s| - 1]]
  }

  /** Distinct keeps exactly the elements of s. */
  lemma {:induction false} DistinctMembers<T>(s: seq<T>, x: T)
    ensures x in Distinct(s) <==> x in s
  {
    if s != [] {
      var p := s[..|s| - 1];
      assert s == p + [s[|s| - 1]];
      DistinctMembers(p, x);
    }
  }

  /** Distinct repeats no element. */
  lemma {:induction false} DistinctNoDuplicates<T>(s: seq<T>)
    ensures NoDuplicates(Distinct(s))
  {
    if s != [] {
      var p, x := s[..|s| - 1], s[|s| - 1];
      assert s == p + [x];
      DistinctNoDuplicates(p);
    }
  }

  /** Distinct grows by x exactly when x is new. */
  lemma DistinctSnoc<T>(s: seq<T>, x: T)
    ensures Distinct(s + [x]) == if x in Distinct(s) then Distinct(s) else Distinct(s) + [x]
  {
    assert (s + [x])[..|s|] == s;
  }

  /** The position of the first occurrence of x in s. */
  function IndexOf<T(==)>(s: seq<T>, x: T): (k: nat)
    requires x in s
    ensures k < |s| && s[k] == x
    ensures forall j :: 0 <= j < k ==> s[j] != x
  {
    if s[0] == x then 0 else 1 + IndexOf(s[1..], x)
  }

  /** Every element of r occurs in s, and r lists them in the order of their first occurrence in s. */
  predicate FirstOccurrenceOrder<T(==)>(r: seq<T>, s: seq<T>) {
    && (forall i :: 0 <= i < |r| ==> r[i] in s)
    && forall i, j :: 0 <= i < j < |r| && r[i] in s && r[j] in s ==> IndexOf(s, r[i]) < IndexOf(s, r[j])
  }

  /** The keys, in their order, that occur more than n times in s. */
  function Frequent<T(==)>(keys: seq<T>, s: seq<T>, n: nat): (r: seq<T>)
    ensures |r| <= |keys|
  {
    if keys == [] then []
    else
      var k := keys[|keys| - 1];
      assert keys == keys[..|keys| - 1] + [k];
      Frequent(keys[..|keys| - 1], s, n) + if multiset(s)[k] > n then [k] else []
  }

  /** Frequent keeps exactly the keys that occur more than n times. */
  lemma {:induction false} FrequentMembers<T>(keys: seq<T>, s: seq<T>, n: nat, x: T)
    ensures x in Frequent(keys, s, n) <==> x in keys && multiset(s)[x] > n
  {
    if keys != [] {
      var p := keys[..|keys| - 1];
      assert keys == p + [keys[|keys| - 1]];
      FrequentMembers(p, s, n, x);
    }
  }

  lemma IndexOfExtend<T>(s: seq<T>, t: seq<T>, x: T)
    requires x in s
    ensures x in s + t && IndexOf(s + t, x) == IndexOf(s, x)
  {
    var k := IndexOf(s, x);
    assert (s + t)[k] == x;
  }

  /** Distinct keeps the order of first occurrences. */
  lemma {:induction false} DistinctOrder<T>(s: seq<T>)
    ensures FirstOccurrenceOrder(Distinct(s), s)
  {
    if s != [] {
      var p, x := s[..|s| - 1], s[|s| - 1];
      assert s == p + [x];
      DistinctOrder(p);
      var d := Distinct(p);
      var r := Distinct(s);
      DistinctSnoc(p, x);
      forall i | 0 <= i < |r| ensures r[i] in s {
        DistinctMembers(s, r[i]);
      }
      forall i, j | 0 <= i < j < |r| && r[i] in s && r[j] in s
        ensures IndexOf(s, r[i]) < IndexOf(s, r[j])
      {
        DistinctMembers(p, r[i]);
        IndexOfExtend(p, [x], r[i]);
        if j < |d| {
          DistinctMembers(p, r[j]);
          IndexOfExtend(p, [x], r[j]);
        } else {
          DistinctMembers(p, x);
          assert r[j] == x && x !in p;
          assert IndexOf(s, x) == |p|;
        }
      }
    }
  }

  lemma OrderPrefix<T>(r: seq<T>, s: seq<T>, m: nat)
    requires m <= |r| && FirstOccurrenceOrder(r, s)
    ensures FirstOccurrenceOrder(r[..m], s)
  {
    var p := r[..m];
    forall i, j | 0 <= i < j < |p| && p[i] in s && p[j] in s
      ensures IndexOf(s, p[i]) < IndexOf(s, p[j])
    {
      assert r[i] == p[i] && r[j] == p[j];
    }
  }

  lemma OrderAppend<T>(f: seq<T>, k: T, s: seq<T>)
    requires FirstOccurrenceOrder(f, s) && k in s
    requires forall i :: 0 <= i < |f| ==> IndexOf(s, f[i]) < IndexOf(s, k)
    ensures FirstOccurrenceOrder(f + [k], s)
  {
    var r := f + [k];
    forall i, j | 0 <= i < j < |r| && r[i] in s && r[j] in s
      ensures IndexOf(s, r[i]) < IndexOf(s, r[j])
    {
      if j < |f| {
        assert r[i] == f[i] && r[j] == f[j];
      } else {
        assert r[i] == f[i] && r[j] == k;
      }
    }
  }

  /** Frequent keeps the relative order of its keys. */
  lemma {:induction false} FrequentOrder<T>(keys: seq<T>, s: seq<T>, n: nat)
    requires FirstOccurrenceOrder(keys, s)
    ensures FirstOccurrenceOrder(Frequent(keys, s, n), s)
  {
    if keys != [] {
      var p, k := keys[..|keys| - 1], keys[|keys| - 1];
      OrderPrefix(keys, s, |p|);
      FrequentOrder(p, s, n);
      var f := Frequent(p, s, n);
      if multiset(s)[k] > n {
        assert Frequent(keys, s, n) == f + [k];
        assert k in s by { assert keys[|p|] == k; }
        forall i | 0 <= i < |f|
          ensures IndexOf(s, f[i]) < IndexOf(s, k)
        {
          FrequentMembers(p, s, n, f[i]);
          var i' :| 0 <= i' < |p| && p[i'] == f[i];
          assert keys[i'] == f[i] && keys[|p|] == k;
        }
        OrderAppend(f, k, s);
      } else {
        assert Frequent(keys, s, n) == f;
      }
    }
  }

  /** Frequent of duplicate-free keys is duplicate-free. */
  lemma {:induction false} FrequentNoDuplicates<T>(keys: seq<T>, s: seq<T>, n: nat)
    requires NoDuplicates(keys)
    ensures NoDuplicates(Frequent(keys, s, n))
  {
    if keys != [] {
      var p, k := keys[..|keys| - 1], keys[|keys| - 1];
      assert keys == p + [k];
      assert NoDuplicates(p) by {
        forall i, j | 0 <= i < j < |p| ensures p[i] != p[j] {
          assert keys[i] == p[i] && keys[j] == p[j];
        }
      }
      FrequentNoDuplicates(p, s, n);
      assert k !in p;
      FrequentMembers(p, s, n, k);
    }
  }

  /**
   * The distinct elements of s that occur in it more than n times, in order of
   * first occurrence: each once, exactly those, and none at all exactly when
   * no element occurs more than n times.
   */
  lemma FrequentOfDistinct<T>(s: seq<T>, n: nat)
    ensures NoDuplicates(Frequent(Distinct(s), s, n))
    ensures FirstOccurrenceOrder(Frequent(Distinct(s), s, n), s)
    ensures forall x :: x in Frequent(Distinct(s), s, n) <==> multiset(s)[x] > n
    ensures Frequent(Distinct(s), s, n) == [] <==> forall x :: multiset(s)[x] <= n
  {
    var r := Frequent(Distinct(s), s, n);
    DistinctNoDuplicates(s);
    FrequentNoDuplicates(Distinct(s), s, n);
    DistinctOrder(s);
    FrequentOrder(Distinct(s), s, n);
    forall x ensures x in r <==> multiset(s)[x] > n {
      FrequentMembers(Distinct(s), s, n, x);
      DistinctMembers(s, x);
    }
    if r == [] {
      forall x ensures multiset(s)[x] <= n {
        assert x !in r;
      }
    } else {
      assert r[0] in r;
    }
  }

  /** How often each element occurs in s: the dictionary a counting loop over s builds. */
  function Tally<T>(s: seq<T>): map<T, nat> {
    if s == [] then map[]
    else
      var m, x := Tally(s[..|s| - 1]), s[|s| - 1];
      m[x := if x in m then m[x] + 1 else 1]
  }

  /** Counting one more element. */
  lemma TallySnoc<T>(s: seq<T>, x: T)
    ensures Tally(s + [x]) == Tally(s)[x := if x in Tally(s) then Tally(s)[x] + 1 else 1]
  {
    assert (s + [x])[..|s|] == s;
  }

  /** The tally has a key for exactly the elements of s, and counts each one's occurrences. */
  lemma {:induction false} TallyCounts<T>(s: seq<T>, x: T)
    ensures x in Tally(s) <==> x in s
    ensures x in Tally(s) ==> Tally(s)[x] == multiset(s)[x]
  {
    if s != [] {
      var p, y := s[..|s| - 1], s[|s| - 1];
      assert s == p + [y];
      TallyCounts(p, x);
    }
  }

  /** The keys, in their order, whose count in counts exceeds n. */
  function Above<T>(keys: seq<T>, counts: map<T, nat>, n: nat): (r: seq<T>)
    requires forall i :: 0 <= i < |keys| ==> keys[i] in counts
    ensures |r| <= |keys|
  {
    if keys == [] then []
    else
      var k := keys[|keys| - 1];
      Above(keys[..|keys| - 1], counts, n) + if counts[k] > n then [k] else []
  }

  /** Filtering the keys of a tally of s by their counts keeps those that occur in s more than n times. */
  lemma {:induction false} AboveTally<T>(keys: seq<T>, s: seq<T>, n: nat)
    requires forall i :: 0 <= i < |keys| ==> keys[i] in s
    ensures forall i :: 0 <= i < |keys| ==> keys[i] in Tally(s)
    ensures Above(keys, Tally(s), n) == Frequent(keys, s, n)
  {
    forall i | 0 <= i < |keys|
      ensures keys[i] in Tally(s)
    {
      TallyCounts(s, keys[i]);
    }
    if keys != [] {
      var p, k := keys[..|keys| - 1], keys[|keys| - 1];
      assert keys == p + [k];
      AboveTally(p, s, n);
      TallyCounts(s, k);
    }
  }
}
