/** The stable sort of the language's library, by a text key: what it promises, and that this fixes its result. */
module Sorting {

  /** Texts in order of their characters. */
  predicate TextLeq(a: string, b: string) {
    if a == "" then true
    else if b == "" then false
    else a[0] < b[0] || (a[0] == b[0] && TextLeq(a[1..], b[1..]))
  }

  lemma {:induction false} TextLeqTotal(a: string, b: string)
    ensures TextLeq(a, b) || TextLeq(b, a)
    ensures TextLeq(a, b) && TextLeq(b, a) <==> a == b
  {
    if a != "" && b != "" {
      TextLeqTotal(a[1..], b[1..]);
      assert a == [a[0]] + a[1..] && b == [b[0]] + b[1..];
    }
  }

  lemma {:induction false} TextLeqTransitive(a: string, b: string, c: string)
    requires TextLeq(a, b) && TextLeq(b, c)
    ensures TextLeq(a, c)
  {
    if a != "" && a[0] == b[0] && b[0] == c[0] {
      TextLeqTransitive(a[1..], b[1..], c[1..]);
    }
  }

  predicate Sorted<T>(s: seq<T>, key: T -> string) {
    forall i, j | 0 <= i < j < |s| :: TextLeq(key(s[i]), key(s[j]))
  }

  /** The elements with key k, in order. */
  function WithKey<T>(s: seq<T>, key: T -> string, k: string): (r: seq<T>)
    ensures forall x | x in r :: x in s && key(x) == k
    ensures forall x | x in s && key(x) == k :: x in r
  {
    if s == [] then []
    else if key(s[0]) == k then [s[0]] + WithKey(s[1..], key, k)
    else WithKey(s[1..], key, k)
  }

  /** Both lists have, for every key, the same elements in the same order. */
  ghost predicate SameByKey<T>(a: seq<T>, b: seq<T>, key: T -> string) {
    forall k :: WithKey(a, key, k) == WithKey(b, key, k)
  }

  /** x before the elements that are not smaller. */
  function Insert<T>(x: T, s: seq<T>, key: T -> string): seq<T> {
    if s == [] || TextLeq(key(x), key(s[0])) then [x] + s else [s[0]] + Insert(x, s[1..], key)
  }

  function Sort<T>(s: seq<T>, key: T -> string): seq<T> {
    if s == [] then [] else Insert(s[0], Sort(s[1..], key), key)
  }

  lemma {:induction false} InsertMultiset<T>(x: T, s: seq<T>, key: T -> string)
    ensures multiset(Insert(x, s, key)) == multiset([x]) + multiset(s)
  {
    if s != [] && !TextLeq(key(x), key(s[0])) {
      InsertMultiset(x, s[1..], key);
      assert s == [s[0]] + s[1..];
    }
  }

  lemma {:induction false} InsertSorted<T>(x: T, s: seq<T>, key: T -> string)
    requires Sorted(s, key)
    ensures Sorted(Insert(x, s, key), key)
  {
    if s != [] {
      TextLeqTotal(key(x), key(s[0]));
      if TextLeq(key(x), key(s[0])) {
        forall j | 0 < j < |s|
          ensures TextLeq(key(x), key(s[j]))
        {
          TextLeqTransitive(key(x), key(s[0]), key(s[j]));
        }
      } else {
        var rest := Insert(x, s[1..], key);
        InsertSorted(x, s[1..], key);
        InsertMultiset(x, s[1..], key);
        forall j | 0 <= j < |rest|
          ensures TextLeq(key(s[0]), key(rest[j]))
        {
          assert rest[j] in multiset(rest);
          assert rest[j] == x || rest[j] in s[1..];
        }
      }
    }
  }

  lemma {:induction false} InsertByKey<T>(x: T, s: seq<T>, key: T -> string, k: string)
    ensures WithKey(Insert(x, s, key), key, k) == WithKey([x] + s, key, k)
  {
    assert ([x] + s)[1..] == s;
    if s != [] && !TextLeq(key(x), key(s[0])) {
      InsertByKey(x, s[1..], key, k);
      TextLeqTotal(key(x), key(s[0]));
      assert ([x] + s[1..])[1..] == s[1..];
      var rest := Insert(x, s[1..], key);
      assert ([s[0]] + rest)[1..] == rest;
      assert WithKey([s[0]] + rest, key, k) == if key(s[0]) == k then [s[0]] + WithKey(rest, key, k) else WithKey(rest, key, k);
    }
  }

  /** Sorting is ordered, loses and invents nothing, and keeps the order of elements with equal keys. */
  lemma {:induction false} SortIsStableSort<T>(s: seq<T>, key: T -> string)
    ensures Sorted(Sort(s, key), key)
    ensures multiset(Sort(s, key)) == multiset(s)
    ensures SameByKey(Sort(s, key), s, key)
  {
    if s != [] {
      var rest := Sort(s[1..], key);
      SortIsStableSort(s[1..], key);
      InsertSorted(s[0], rest, key);
      InsertMultiset(s[0], rest, key);
      assert s == [s[0]] + s[1..];
      forall k
        ensures WithKey(Sort(s, key), key, k) == WithKey(s, key, k)
      {
        InsertByKey(s[0], rest, key, k);
        assert ([s[0]] + rest)[1..] == rest;
      }
    }
  }

  /** A stable sort has only one possible result. */
  lemma {:induction false} StableSortUnique<T>(a: seq<T>, b: seq<T>, key: T -> string)
    requires Sorted(a, key) && Sorted(b, key) && SameByKey(a, b, key)
    ensures a == b
  {
    if a == [] {
      var k := if b == [] then "" else key(b[0]);
      assert WithKey(b, key, k) == WithKey(a, key, k);
    } else {
      assert a[0] in WithKey(b, key, key(a[0]));
      FirstKeys(a, b, key);
      var k := key(a[0]);
      assert WithKey(a, key, k)[0] == a[0] && WithKey(b, key, k)[0] == b[0];
      forall k'
        ensures WithKey(a[1..], key, k') == WithKey(b[1..], key, k')
      {
        assert WithKey(a, key, k') == WithKey(b, key, k');
        if k' == k {
          assert WithKey(a[1..], key, k') == WithKey(a, key, k')[1..];
          assert WithKey(b[1..], key, k') == WithKey(b, key, k')[1..];
        }
      }
      StableSortUnique(a[1..], b[1..], key);
      assert a == [a[0]] + a[1..] && b == [b[0]] + b[1..];
    }
  }

  lemma FirstKeys<T>(a: seq<T>, b: seq<T>, key: T -> string)
    requires Sorted(a, key) && Sorted(b, key) && SameByKey(a, b, key)
    requires a != [] && b != []
    ensures key(a[0]) == key(b[0])
  {
    assert a[0] in WithKey(b, key, key(a[0])) && b[0] in WithKey(a, key, key(b[0]));
    var i :| 0 <= i < |b| && b[i] == a[0];
    var j :| 0 <= j < |a| && a[j] == b[0];
    TextLeqTotal(key(a[0]), key(b[0]));
  }

  lemma SortDependsOnKeysOnly<T>(a: seq<T>, b: seq<T>, key: T -> string)
    requires SameByKey(a, b, key)
    ensures Sort(a, key) == Sort(b, key)
  {
    SortIsStableSort(a, key);
    SortIsStableSort(b, key);
    assert SameByKey(Sort(a, key), Sort(b, key), key) by {
      forall k
        ensures WithKey(Sort(a, key), key, k) == WithKey(Sort(b, key), key, k)
      {
        assert WithKey(Sort(a, key), key, k) == WithKey(a, key, k);
        assert WithKey(Sort(b, key), key, k) == WithKey(b, key, k);
      }
    }
    StableSortUnique(Sort(a, key), Sort(b, key), key);
  }

  lemma {:induction false} WithKeyConcat<T>(a: seq<T>, b: seq<T>, key: T -> string, k: string)
    ensures WithKey(a + b, key, k) == WithKey(a, key, k) + WithKey(b, key, k)
  {
    if a == [] {
      assert a + b == b;
    } else {
      assert (a + b)[1..] == a[1..] + b;
      WithKeyConcat(a[1..], b, key, k);
    }
  }

  /** Taking one element out of a list takes it out of the list's multiset. */
  lemma RemoveAt<T>(s: seq<T>, i: nat)
    requires i < |s|
    ensures multiset(s) == multiset(s[..i] + s[i + 1..]) + multiset{s[i]}
  {
    assert s == s[..i] + [s[i]] + s[i + 1..];
  }

  /** Reorderings of each other stay so when the same element is taken out of both. */
  lemma RestsReordered<T>(a: seq<T>, i: nat, b: seq<T>, j: nat)
    requires i < |a| && j < |b| && a[i] == b[j]
    requires multiset(a) == multiset(b)
    ensures multiset(a[..i] + a[i + 1..]) == multiset(b[..j] + b[j + 1..])
  {
    var x, m, n := a[i], multiset(a[..i] + a[i + 1..]), multiset(b[..j] + b[j + 1..]);
    RemoveAt(a, i);
    RemoveAt(b, j);
    assert m == (m + multiset{x}) - multiset{x} && n == (n + multiset{x}) - multiset{x};
  }

  /** Every element of a list is somewhere in its reorderings. */
  lemma FindReordered<T>(a: seq<T>, i: nat, b: seq<T>) returns (j: nat)
    requires i < |a| && multiset(a) == multiset(b)
    ensures j < |b| && b[j] == a[i]
  {
    assert a[i] in multiset(b);
    j :| j < |b| && b[j] == a[i];
  }

  lemma TailReordered<T>(a: seq<T>, b: seq<T>, j: nat)
    requires a != [] && j < |b| && a[0] == b[j]
    requires multiset(a) == multiset(b)
    ensures multiset(a[1..]) == multiset(b[..j] + b[j + 1..])
  {
    RestsReordered(a, 0, b, j);
    assert a[..0] + a[1..] == a[1..];
  }

  lemma TailsReordered<T>(a: seq<T>, b: seq<T>)
    requires a != [] && b != [] && a[0] == b[0]
    requires multiset(a) == multiset(b)
    ensures multiset(a[1..]) == multiset(b[1..])
  {
    TailReordered(a, b, 0);
    assert b[..0] + b[1..] == b[1..];
  }

  lemma SameLength<T>(a: seq<T>, b: seq<T>)
    requires multiset(a) == multiset(b)
    ensures |a| == |b|
  {
    assert |multiset(a)| == |a| && |multiset(b)| == |b|;
  }

  /** The texts agree up to i, and there a ends or has the smaller character. */
  predicate LowerAt(a: string, b: string, i: nat) {
    && i <= |a| && i < |b| && a[..i] == b[..i]
    && (i == |a| || a[i] < b[i])
  }

  lemma SameFirst(a: string, b: string, i: nat)
    requires LowerAt(a, b, i) && i > 0
    ensures a[0] == b[0]
  {
    assert a[..i][0] == b[..i][0];
  }

  /** The order is that of the first difference, a prefix coming first. */
  lemma {:induction false} TextLeqIff(a: string, b: string)
    ensures TextLeq(a, b) <==> a == b || exists i: nat :: LowerAt(a, b, i)
  {
    if a == "" {
      assert b != "" ==> LowerAt(a, b, 0);
    } else if b != "" && a[0] == b[0] {
      TextLeqIff(a[1..], b[1..]);
      assert a == [a[0]] + a[1..] && b == [b[0]] + b[1..];
      if i: nat :| LowerAt(a[1..], b[1..], i) {
        assert a[..i + 1] == [a[0]] + a[1..][..i] && b[..i + 1] == [b[0]] + b[1..][..i];
        assert LowerAt(a, b, i + 1);
      }
      if i: nat :| LowerAt(a, b, i) {
        assert a[..i][1..] == a[1..][..i - 1] && b[..i][1..] == b[1..][..i - 1];
        assert LowerAt(a[1..], b[1..], i - 1);
      }
    } else if b != "" {
      assert a[0] < b[0] ==> LowerAt(a, b, 0);
      if i: nat :| LowerAt(a, b, i) && i > 0 {
        SameFirst(a, b, i);
        assert false;
      }
    }
  }
}
