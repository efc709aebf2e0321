/** The stable sort by a descending key that the forum uses twice: `sorted(..., key=lambda t:
    -t.nb_views)` on the thread listing and `Counter.most_common` on the frequent posters.
    Python's sort is stable; the insertion sort below keeps that order too, since an element
    goes after every element already placed with a key at least as large. */
module Sorting {

  /** An element together with the key it is sorted by. */
  datatype Keyed<T> = Keyed(item: T, key: int)

  /** Keys never increase along `s`. */
  predicate SortedDesc<T>(s: seq<Keyed<T>>) {
    forall i, j :: 0 <= i < j < |s| ==> s[i].key >= s[j].key
  }

  /** Every key of `s` is at least `k`. */
  predicate AllAtLeast<T>(s: seq<Keyed<T>>, k: int) {
    forall i :: 0 <= i < |s| ==> s[i].key >= k
  }

  /** Places `x` before the first element of `s` with a smaller key. */
  function Insert<T>(x: Keyed<T>, s: seq<Keyed<T>>): (r: seq<Keyed<T>>)
    ensures multiset(r) == multiset(s) + multiset{x}
  {
    if |s| == 0 then [x]
    else if s[0].key < x.key then [x] + s
    else
      assert s == [s[0]] + s[1..];
      [s[0]] + Insert(x, s[1..])
  }

  /** An element whose key is no larger than any other goes last. */
  lemma {:induction false} InsertLast<T>(x: Keyed<T>, s: seq<Keyed<T>>)
    requires AllAtLeast(s, x.key)
    ensures Insert(x, s) == s + [x]
  {
    if |s| > 0 {
      var t := s[1..];
      assert AllAtLeast(t, x.key) by {
        forall i | 0 <= i < |t| ensures t[i].key >= x.key {
          assert t[i] == s[i + 1];
        }
      }
      InsertLast(x, t);
      assert s == [s[0]] + t;
    }
  }

  /** Inserting into a sorted sequence keeps it sorted. */
  lemma {:induction false} InsertSorted<T>(x: Keyed<T>, s: seq<Keyed<T>>)
    requires SortedDesc(s)
    ensures SortedDesc(Insert(x, s))
  {
    if |s| > 0 && s[0].key >= x.key {
      var t := s[1..];
      assert SortedDesc(t) by {
        forall i, j | 0 <= i < j < |t| ensures t[i].key >= t[j].key {
          assert t[i] == s[i + 1] && t[j] == s[j + 1];
        }
      }
      InsertSorted(x, t);
      var rest := Insert(x, t);
      assert AllAtMost(rest, s[0].key) by {
        forall i | 0 <= i < |rest| ensures rest[i].key <= s[0].key {
          assert rest[i] in multiset(t) + multiset{x};
          if rest[i] != x {
            var k :| 0 <= k < |t| && t[k] == rest[i];
            assert t[k] == s[k + 1];
          }
        }
      }
      var r := [s[0]] + rest;
      forall i, j | 0 <= i < j < |r| ensures r[i].key >= r[j].key {
        assert r[j] == rest[j - 1];
        if i > 0 {
          assert r[i] == rest[i - 1];
        }
      }
    }
  }

  /** Every key of `s` is at most `k`. */
  predicate AllAtMost<T>(s: seq<Keyed<T>>, k: int) {
    forall i :: 0 <= i < |s| ==> s[i].key <= k
  }

  /** The input rearranged so that the keys never increase. */
  function SortDesc<T>(s: seq<Keyed<T>>): (r: seq<Keyed<T>>)
    ensures multiset(r) == multiset(s)
  {
    if |s| == 0 then []
    else
      assert s == s[..|s| - 1] + [s[|s| - 1]];
      Insert(s[|s| - 1], SortDesc(s[..|s| - 1]))
  }

  lemma {:induction false} SortDescSortedDesc<T>(s: seq<Keyed<T>>)
    ensures SortedDesc(SortDesc(s))
  {
    if |s| > 0 {
      SortDescSortedDesc(s[..|s| - 1]);
      InsertSorted(s[|s| - 1], SortDesc(s[..|s| - 1]));
    }
  }

  /** Sorting a sequence already in order leaves it as it is: ties keep their order. */
  lemma {:induction false} SortDescSorted<T>(s: seq<Keyed<T>>)
    requires SortedDesc(s)
    ensures SortDesc(s) == s
  {
    if |s| > 0 {
      var init := s[..|s| - 1];
      var last := s[|s| - 1];
      SortedInit(s);
      SortDescSorted(init);
      assert SortDesc(s) == Insert(last, SortDesc(init));
      InsertLast(last, init);
      assert s == init + [last];
    }
  }

  /** Dropping the last element of a sorted sequence leaves a sorted sequence whose keys
      are all at least the last one. */
  lemma SortedInit<T>(s: seq<Keyed<T>>)
    requires |s| > 0 && SortedDesc(s)
    ensures SortedDesc(s[..|s| - 1]) && AllAtLeast(s[..|s| - 1], s[|s| - 1].key)
  {
    var init := s[..|s| - 1];
    forall i, j | 0 <= i < j < |init| ensures init[i].key >= init[j].key {
      assert init[i] == s[i] && init[j] == s[j];
    }
    forall i | 0 <= i < |init| ensures init[i].key >= s[|s| - 1].key {
      assert init[i] == s[i];
    }
  }

  /** The same elements, and so the same length. */
  lemma SortDescElements<T>(s: seq<Keyed<T>>, x: Keyed<T>)
    ensures |SortDesc(s)| == |s|
    ensures x in SortDesc(s) <==> x in s
  {
    var r := SortDesc(s);
    assert |r| == |multiset(r)| == |multiset(s)| == |s|;
    assert x in r <==> x in multiset(r);
    assert x in s <==> x in multiset(s);
  }
}
