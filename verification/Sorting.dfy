// The stable sort by name that the manifest writer applies to directory entries
// and to extended attributes.

module Sorting {
  import opened Wire

  function InsertBy<T>(x: T, s: seq<T>, key: T -> Bytes): (r: seq<T>)
    ensures multiset(r) == multiset{x} + multiset(s)
  {
    if s == [] then [x]
    else if !Less(key(s[0]), key(x)) then
      assert multiset([x] + s) == multiset{x} + multiset(s);
      [x] + s
    else
      assert s == [s[0]] + s[1..];
      [s[0]] + InsertBy(x, s[1..], key)
  }

  /** A stable ascending sort: equal keys keep their order. */
  function SortBy<T>(s: seq<T>, key: T -> Bytes): (r: seq<T>)
    ensures multiset(r) == multiset(s)
    ensures |r| == |s|
    ensures forall x :: x in r ==> x in s
    ensures forall x :: x in s ==> x in r
  {
    if s == [] then [] else
    var t := SortBy(s[1..], key);
    assert s == [s[0]] + s[1..];
    var r := InsertBy(s[0], t, key);
    MultisetFacts(r, s);
    r
  }

  lemma {:induction false} MultisetFacts<T>(r: seq<T>, s: seq<T>)
    requires multiset(r) == multiset(s)
    ensures |r| == |s|
    ensures forall x :: x in r ==> x in s
    ensures forall x :: x in s ==> x in r
  {
    assert |multiset(r)| == |multiset(s)|;
    forall x ensures x in r <==> x in s {
      assert x in r <==> x in multiset(r);
      assert x in s <==> x in multiset(s);
    }
  }

  /** Keys strictly increase from each element to the next. */
  predicate Increasing<T>(s: seq<T>, key: T -> Bytes) {
    forall i :: 0 <= i < |s| - 1 ==> Less(key(s[i]), key(s[i + 1]))
  }

  predicate DistinctKeys<T>(s: seq<T>, key: T -> Bytes) {
    forall i, j :: 0 <= i < j < |s| ==> key(s[i]) != key(s[j])
  }

  lemma {:induction false} IncreasingBetween<T>(s: seq<T>, key: T -> Bytes, i: nat, j: nat)
    requires Increasing(s, key) && i < j < |s|
    ensures Less(key(s[i]), key(s[j]))
    decreases j - i
  {
    if i + 1 < j {
      IncreasingBetween(s, key, i + 1, j);
      LessTransitive(key(s[i]), key(s[i + 1]), key(s[j]));
    }
  }

  lemma {:induction false} IncreasingDistinct<T>(s: seq<T>, key: T -> Bytes)
    requires Increasing(s, key)
    ensures DistinctKeys(s, key)
  {
    forall i, j | 0 <= i < j < |s| ensures key(s[i]) != key(s[j]) {
      IncreasingBetween(s, key, i, j);
      LessIrreflexive(key(s[i]));
    }
  }

  /** A sequence already in strictly increasing order is what the sort returns. */
  lemma {:induction false} SortOfIncreasing<T>(s: seq<T>, key: T -> Bytes)
    requires Increasing(s, key)
    ensures SortBy(s, key) == s
  {
    if s != [] {
      SortOfIncreasing(s[1..], key);
      if |s| > 1 && Less(key(s[1]), key(s[0])) {
        LessTransitive(key(s[0]), key(s[1]), key(s[0]));
        LessIrreflexive(key(s[0]));
      }
      assert s == [s[0]] + s[1..];
    }
  }

  lemma {:induction false} InsertIncreasing<T>(x: T, s: seq<T>, key: T -> Bytes)
    requires Increasing(s, key)
    requires forall y :: y in s ==> key(y) != key(x)
    ensures Increasing(InsertBy(x, s, key), key)
  {
    hide Less;
    if s != [] {
      LessTotal(key(s[0]), key(x));
      assert s[0] in s;
      if Less(key(s[0]), key(x)) {
        assert forall y :: y in s[1..] ==> y in s;
        IncreasingRest(s, key);
        InsertIncreasing(x, s[1..], key);
        InsertFirst(x, s[1..], key);
        IncreasingCons(s[0], InsertBy(x, s[1..], key), key);
      } else {
        IncreasingCons(x, s, key);
      }
    }
  }

  lemma {:induction false} IncreasingRest<T>(s: seq<T>, key: T -> Bytes)
    requires Increasing(s, key) && s != []
    ensures Increasing(s[1..], key) && (|s| > 1 ==> Less(key(s[0]), key(s[1])))
  {
    hide Less;
    var t := s[1..];
    forall i | 0 <= i < |t| - 1 ensures Less(key(t[i]), key(t[i + 1])) {
      assert t[i] == s[i + 1] && t[i + 1] == s[i + 1 + 1];
    }
    if |s| > 1 {
      assert Less(key(s[0]), key(s[0 + 1]));
    }
  }

  lemma {:induction false} InsertFirst<T>(x: T, s: seq<T>, key: T -> Bytes)
    ensures InsertBy(x, s, key) != [] && (InsertBy(x, s, key)[0] == x || (s != [] && InsertBy(x, s, key)[0] == s[0]))
  {
    hide Less;
  }

  lemma {:induction false} IncreasingCons<T>(x: T, s: seq<T>, key: T -> Bytes)
    requires Increasing(s, key) && (s != [] ==> Less(key(x), key(s[0])))
    ensures Increasing([x] + s, key)
  {
    hide Less;
    var t := [x] + s;
    forall i | 0 <= i < |t| - 1 ensures Less(key(t[i]), key(t[i + 1])) {
      if i > 0 {
        assert t[i] == s[i - 1] && t[i + 1] == s[i - 1 + 1];
      }
    }
  }

  /** Over distinct keys the sorted sequence strictly increases. */
  lemma {:induction false} SortIncreasing<T>(s: seq<T>, key: T -> Bytes)
    requires DistinctKeys(s, key)
    ensures Increasing(SortBy(s, key), key)
  {
    if s != [] {
      SortIncreasing(s[1..], key);
      InsertIncreasing(s[0], SortBy(s[1..], key), key);
    }
  }

  predicate HasKey<T>(s: seq<T>, key: T -> Bytes, k: Bytes) {
    exists i :: 0 <= i < |s| && key(s[i]) == k
  }

  predicate KeysWithin<T>(s: seq<T>, t: seq<T>, key: T -> Bytes) {
    forall i :: 0 <= i < |s| ==> HasKey(t, key, key(s[i]))
  }

  /** The key at each place of an increasing sequence is determined by the set of keys. */
  lemma {:induction false} SameKeysSamePlaces<T>(s: seq<T>, t: seq<T>, key: T -> Bytes)
    requires Increasing(s, key) && Increasing(t, key)
    requires KeysWithin(s, t, key) && KeysWithin(t, s, key)
    ensures |s| == |t|
    ensures forall i :: 0 <= i < |s| ==> key(s[i]) == key(t[i])
  {
    assert s != [] ==> HasKey(t, key, key(s[0]));
    assert t != [] ==> HasKey(s, key, key(t[0]));
    if s != [] {
      LeastKeysAgree(s, t, key);
      RestKeys(s, t, key);
      RestKeys(t, s, key);
      SameKeysSamePlaces(s[1..], t[1..], key);
      forall i | 0 <= i < |s| ensures key(s[i]) == key(t[i]) {
        if i > 0 { assert s[i] == s[1..][i - 1] && t[i] == t[1..][i - 1]; }
      }
    }
  }

  lemma {:induction false} LeastKeysAgree<T>(s: seq<T>, t: seq<T>, key: T -> Bytes)
    requires s != [] && t != [] && Increasing(s, key) && Increasing(t, key)
    requires KeysWithin(s, t, key) && KeysWithin(t, s, key)
    ensures key(s[0]) == key(t[0])
  {
    assert HasKey(t, key, key(s[0])) && HasKey(s, key, key(t[0]));
    var j :| 0 <= j < |t| && key(t[j]) == key(s[0]);
    var i :| 0 <= i < |s| && key(s[i]) == key(t[0]);
    if i > 0 && j > 0 {
      IncreasingBetween(t, key, 0, j);
      IncreasingBetween(s, key, 0, i);
      LessTransitive(key(t[0]), key(s[0]), key(t[0]));
      LessIrreflexive(key(t[0]));
    }
  }

  lemma {:induction false} RestKeys<T>(s: seq<T>, t: seq<T>, key: T -> Bytes)
    requires s != [] && t != [] && Increasing(s, key)
    requires key(s[0]) == key(t[0])
    requires KeysWithin(s, t, key)
    ensures KeysWithin(s[1..], t[1..], key)
    ensures Increasing(s[1..], key)
  {
    forall i | 0 <= i < |s[1..]| ensures HasKey(t[1..], key, key(s[1..][i])) {
      IncreasingBetween(s, key, 0, i + 1);
      LessIrreflexive(key(s[0]));
      assert HasKey(t, key, key(s[i + 1]));
      var j :| 0 <= j < |t| && key(t[j]) == key(s[i + 1]);
      assert t[1..][j - 1] == t[j];
    }
  }

  lemma {:induction false} WithinIfMembers<T>(s: seq<T>, t: seq<T>, key: T -> Bytes)
    requires forall x :: x in s ==> x in t
    ensures KeysWithin(s, t, key)
  {
    forall i | 0 <= i < |s| ensures HasKey(t, key, key(s[i])) {
      assert s[i] in t;
      var j :| 0 <= j < |t| && t[j] == s[i];
    }
  }

  lemma {:induction false} WithinTransitive<T>(s: seq<T>, t: seq<T>, u: seq<T>, key: T -> Bytes)
    requires KeysWithin(s, t, key) && KeysWithin(t, u, key)
    ensures KeysWithin(s, u, key)
  {
    forall i | 0 <= i < |s| ensures HasKey(u, key, key(s[i])) {
      assert HasKey(t, key, key(s[i]));
      var j :| 0 <= j < |t| && key(t[j]) == key(s[i]);
      assert HasKey(u, key, key(t[j]));
    }
  }

  /** Over distinct keys the sort sees only which elements there are, not their order. */
  lemma {:induction false} SortOfPermutation<T>(s: seq<T>, t: seq<T>, key: T -> Bytes)
    requires multiset(s) == multiset(t)
    requires DistinctKeys(s, key) && DistinctKeys(t, key)
    ensures SortBy(s, key) == SortBy(t, key)
  {
    hide SortBy;
    var a, b := SortBy(s, key), SortBy(t, key);
    SortIncreasing(s, key);
    SortIncreasing(t, key);
    MultisetFacts(s, t);
    WithinIfMembers(a, b, key);
    WithinIfMembers(b, a, key);
    SameKeysSamePlaces(a, b, key);
    forall i | 0 <= i < |a| ensures a[i] == b[i] {
      assert a[i] in t && b[i] in t;
    }
  }
}
