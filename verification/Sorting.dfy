/** Lexicographic order and sorting by a key. The library sorts the program calls are taken to
    return a sorted permutation; insertion stands in for them here. */
module Sorting {

  /** Strict lexicographic order, a proper prefix first. */
  predicate Less(a: seq<int>, b: seq<int>) {
    if b == [] then false
    else if a == [] then true
    else a[0] < b[0] || (a[0] == b[0] && Less(a[1..], b[1..]))
  }

  lemma {:induction false} LessIsStrict(a: seq<int>, b: seq<int>)
    ensures Less(a, b) ==> !Less(b, a) && a != b
  {
    if a != [] && b != [] && a[0] == b[0] {
      LessIsStrict(a[1..], b[1..]);
    }
  }

  lemma {:induction false} LessIsTotal(a: seq<int>, b: seq<int>)
    ensures a == b || Less(a, b) || Less(b, a)
  {
    if a != [] && b != [] && a[0] == b[0] {
      LessIsTotal(a[1..], b[1..]);
      assert a == [a[0]] + a[1..] && b == [b[0]] + b[1..];
    }
  }

  lemma {:induction false} LessIsTransitive(a: seq<int>, b: seq<int>, c: seq<int>)
    requires Less(a, b) && Less(b, c)
    ensures Less(a, c)
  {
    if a != [] && a[0] == b[0] == c[0] {
      LessIsTransitive(a[1..], b[1..], c[1..]);
    }
  }

  /** No element comes after one with a greater key. */
  predicate Sorted<T>(s: seq<T>, key: T -> seq<int>) {
    forall i, j :: 0 <= i < j < |s| ==> !Less(key(s[j]), key(s[i]))
  }

  function Insert<T>(x: T, s: seq<T>, key: T -> seq<int>): (r: seq<T>)
    ensures |r| == |s| + 1
  {
    if s == [] || !Less(key(s[0]), key(x)) then [x] + s else [s[0]] + Insert(x, s[1..], key)
  }

  function Sort<T>(s: seq<T>, key: T -> seq<int>): (r: seq<T>)
    ensures |r| == |s|
  {
    if s == [] then [] else Insert(s[0], Sort(s[1..], key), key)
  }

  lemma {:induction false} InsertKeeps<T>(x: T, s: seq<T>, key: T -> seq<int>)
    ensures multiset(Insert(x, s, key)) == multiset{x} + multiset(s)
  {
    if s != [] {
      assert s == [s[0]] + s[1..];
      InsertKeeps(x, s[1..], key);
    }
  }

  lemma {:induction false} InsertSorted<T>(x: T, s: seq<T>, key: T -> seq<int>)
    requires Sorted(s, key)
    ensures Sorted(Insert(x, s, key), key)
  {
    hide Less;
    if s == [] {
    } else if !Less(key(s[0]), key(x)) {
      forall j | 0 <= j < |s|
        ensures !Less(key(s[j]), key(x))
      {
        if Less(key(s[j]), key(x)) && j > 0 {
          LessIsTotal(key(s[0]), key(s[j]));
          if Less(key(s[0]), key(s[j])) {
            LessIsTransitive(key(s[0]), key(s[j]), key(x));
          }
        }
      }
    } else {
      InsertSorted(x, s[1..], key);
      InsertKeeps(x, s[1..], key);
      var r := Insert(x, s[1..], key);
      LessIsStrict(key(s[0]), key(x));
      forall j | 0 <= j < |r|
        ensures !Less(key(r[j]), key(s[0]))
      {
        assert r[j] in multiset(r);
        if r[j] != x {
          assert r[j] in s[1..];
        }
      }
    }
  }

  /** Sorting is a sorted permutation. */
  lemma {:induction false} SortIsSortedPermutation<T>(s: seq<T>, key: T -> seq<int>)
    ensures Sorted(Sort(s, key), key) && multiset(Sort(s, key)) == multiset(s)
  {
    if s != [] {
      SortIsSortedPermutation(s[1..], key);
      InsertSorted(s[0], Sort(s[1..], key), key);
      InsertKeeps(s[0], Sort(s[1..], key), key);
      assert s == [s[0]] + s[1..];
    }
  }

  lemma SameElements<T>(s: seq<T>, t: seq<T>)
    requires multiset(s) == multiset(t)
    ensures |s| == |t| && forall x :: x in s <==> x in t
  {
    assert |multiset(s)| == |s| && |multiset(t)| == |t|;
    forall x
      ensures x in s <==> x in t
    {
      assert x in s <==> x in multiset(s);
      assert x in t <==> x in multiset(t);
    }
  }

  function Codes(s: string): (r: seq<int>)
    ensures |r| == |s|
  {
    seq(|s|, i requires 0 <= i < |s| => s[i] as int)
  }

  lemma CodesInjective(s: string, t: string)
    requires Codes(s) == Codes(t)
    ensures s == t
  {
    assert |Codes(s)| == |Codes(t)|;
    forall i | 0 <= i < |s|
      ensures s[i] == t[i]
    {
      assert Codes(s)[i] == Codes(t)[i];
    }
  }

  // ---- Strictly ascending sequences ----

  predicate Ascending<T>(s: seq<T>, key: T -> seq<int>) {
    forall i, j :: 0 <= i < j < |s| ==> Less(key(s[i]), key(s[j]))
  }

  /** There is only one strictly ascending sequence of given elements. */
  lemma {:induction false} AscendingIsUnique<T>(s: seq<T>, t: seq<T>, key: T -> seq<int>)
    requires Ascending(s, key) && Ascending(t, key) && SameMembers(s, t)
    ensures s == t
    decreases |s|
  {
    hide Less, SameMembers, Ascending;
    SameEmptiness(s, t);
    if s != [] {
      SameFirst(s, t, key);
      AscendingTail(s, key);
      AscendingTail(t, key);
      SameTails(s, t, key);
      AscendingIsUnique(s[1..], t[1..], key);
      assert s == [s[0]] + s[1..] && t == [t[0]] + t[1..];
    }
  }

  ghost predicate SameMembers<T>(s: seq<T>, t: seq<T>) {
    (forall i :: 0 <= i < |s| ==> s[i] in t) && (forall i :: 0 <= i < |t| ==> t[i] in s)
  }

  lemma SameEmptiness<T>(s: seq<T>, t: seq<T>)
    requires SameMembers(s, t)
    ensures s == [] <==> t == []
  {
    if s != [] {
      assert s[0] in t;
    }
    if t != [] {
      assert t[0] in s;
    }
  }

  lemma SameFirst<T>(s: seq<T>, t: seq<T>, key: T -> seq<int>)
    requires Ascending(s, key) && Ascending(t, key) && SameMembers(s, t) && s != [] && t != []
    ensures s[0] == t[0]
  {
    hide Less;
    assert s[0] in t && t[0] in s;
    LessIsStrict(key(s[0]), key(t[0]));
  }

  lemma AscendingTail<T>(s: seq<T>, key: T -> seq<int>)
    requires Ascending(s, key) && s != []
    ensures Ascending(s[1..], key) && s[0] !in s[1..]
  {
    hide Less;
    if s[0] in s[1..] {
      var j :| 1 <= j < |s| && s[j] == s[0];
      LessIsStrict(key(s[0]), key(s[j]));
    }
  }

  lemma SameTails<T>(s: seq<T>, t: seq<T>, key: T -> seq<int>)
    requires SameMembers(s, t) && s != [] && t != [] && s[0] == t[0] && s[0] !in s[1..] && t[0] !in t[1..]
    ensures SameMembers(s[1..], t[1..])
  {
    forall i | 0 <= i < |s| - 1
      ensures s[1..][i] in t[1..]
    {
      assert s[i + 1] in t && s[i + 1] in s[1..];
    }
    forall i | 0 <= i < |t| - 1
      ensures t[1..][i] in s[1..]
    {
      assert t[i + 1] in s && t[i + 1] in t[1..];
    }
  }

  /** No two elements share a key. */
  predicate DistinctKeys<T>(s: seq<T>, key: T -> seq<int>) {
    forall i, j :: 0 <= i < j < |s| ==> key(s[i]) != key(s[j])
  }

  lemma {:induction false} InsertAscending<T(!new)>(x: T, s: seq<T>, key: T -> seq<int>)
    requires Ascending(s, key) && forall i :: 0 <= i < |s| ==> key(s[i]) != key(x)
    ensures Ascending(Insert(x, s, key), key)
    ensures forall y :: y in Insert(x, s, key) <==> y == x || y in s
  {
    hide Less;
    if s != [] {
      LessIsTotal(key(s[0]), key(x));
      if Less(key(s[0]), key(x)) {
        InsertAscending(x, s[1..], key);
        var r := Insert(x, s[1..], key);
        forall i | 0 <= i < |r|
          ensures Less(key(s[0]), key(r[i]))
        {
          assert r[i] in r;
          if r[i] != x {
            var j :| 0 <= j < |s[1..]| && s[1..][j] == r[i];
            assert s[j + 1] == r[i];
          }
        }
        assert s == [s[0]] + s[1..];
      } else {
        forall i | 0 <= i < |s|
          ensures Less(key(x), key(s[i]))
        {
          if i > 0 {
            LessIsTransitive(key(x), key(s[0]), key(s[i]));
          }
        }
      }
    }
  }

  /** Sorting elements with distinct keys puts them in strictly ascending order. */
  lemma {:induction false} SortAscending<T(!new)>(s: seq<T>, key: T -> seq<int>)
    requires DistinctKeys(s, key)
    ensures Ascending(Sort(s, key), key)
    ensures forall y :: y in Sort(s, key) <==> y in s
  {
    hide Less, Insert, Ascending;
    if s == [] {
      NothingAscending(key);
    } else {
      SortAscending(s[1..], key);
      assert s == [s[0]] + s[1..];
      forall i | 0 <= i < |Sort(s[1..], key)|
        ensures key(Sort(s[1..], key)[i]) != key(s[0])
      {
        assert Sort(s[1..], key)[i] in Sort(s[1..], key);
        var j :| 0 <= j < |s[1..]| && s[1..][j] == Sort(s[1..], key)[i];
        assert s[j + 1] == s[1..][j];
      }
      InsertAscending(s[0], Sort(s[1..], key), key);
    }
  }

  lemma NothingAscending<T>(key: T -> seq<int>)
    ensures Ascending<T>([], key)
  {
  }
}
