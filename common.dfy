/** Small shared vocabulary: an optional value and duplicate-freedom of a list. */
module Common {

  /** A value that may be absent (a lookup that raised and was caught, a missing key). */
  datatype Option<+T> = None | Some(value: T)

  /** No element of `s` occurs twice. */
  predicate NoDup<T(==)>(s: seq<T>)
  {
    forall i, j :: 0 <= i < j < |s| ==> s[i] != s[j]
  }

  /** Python's `list.index(x)`: the position of the first occurrence of `x`. */
  function FirstIndex<T(==)>(s: seq<T>, x: T): (k: nat)
    requires x in s
    ensures k < |s| && s[k] == x && x !in s[..k]
    decreases |s|
  {
    if s[0] == x then 0
    else
      assert x in s[1..] by { assert s == [s[0]] + s[1..]; }
      var k' := FirstIndex(s[1..], x);
      assert s[..k' + 1] == [s[0]] + s[1..][..k'];
      k' + 1
  }

  /** The elements of `r` from position `from` on occur in `s`, and they come in the order
      of their first occurrence there. */
  predicate InFirstOccurrenceOrder<T(==)>(r: seq<T>, s: seq<T>, from: nat)
  {
    && (forall i :: from <= i < |r| ==> r[i] in s)
    && (forall i, j :: from <= i < j < |r| ==> FirstIndex(s, r[i]) < FirstIndex(s, r[j]))
  }

  /** Python's `list.remove(x)`: drop the first occurrence of `x` (only called when `x in s`),
      keeping the others in their order. */
  function RemoveFirst<T(==)>(s: seq<T>, x: T): (r: seq<T>)
    requires x in s
    ensures r == s[..FirstIndex(s, x)] + s[FirstIndex(s, x) + 1..]
    ensures |r| == |s| - 1
    ensures multiset(r) == multiset(s) - multiset{x}
    decreases |s|
  {
    assert s == [s[0]] + s[1..];
    if s[0] == x then s[1..]
    else
      var t := s[1..];
      var r' := RemoveFirst(t, x);
      RemoveFirstCons(s, x, FirstIndex(t, x), r');
      [s[0]] + r'
  }

  /** The recursive case of `RemoveFirst`: the first occurrence is one further on, and
      the element in front is kept. */
  lemma RemoveFirstCons<T>(s: seq<T>, x: T, k': nat, r': seq<T>)
    requires s != [] && s[0] != x && x in s[1..] && k' == FirstIndex(s[1..], x)
    requires r' == s[1..][..k'] + s[1..][k' + 1..]
    requires multiset(r') == multiset(s[1..]) - multiset{x}
    ensures x in s && FirstIndex(s, x) == k' + 1
    ensures [s[0]] + r' == s[..k' + 1] + s[k' + 2..]
    ensures multiset([s[0]] + r') == multiset(s) - multiset{x}
  {
    FirstIndexCons(s, x);
    SliceCons(s, k');
    MultisetCons(s, x, r');
  }

  lemma FirstIndexCons<T>(s: seq<T>, x: T)
    requires s != [] && s[0] != x && x in s[1..]
    ensures x in s && FirstIndex(s, x) == FirstIndex(s[1..], x) + 1
  {
    assert s == [s[0]] + s[1..];
  }

  lemma SliceCons<T>(s: seq<T>, k': nat)
    requires k' + 1 < |s|
    ensures [s[0]] + (s[1..][..k'] + s[1..][k' + 1..]) == s[..k' + 1] + s[k' + 2..]
  {
    assert s[..k' + 1] == [s[0]] + s[1..][..k'];
    assert s[k' + 2..] == s[1..][k' + 1..];
  }

  lemma MultisetCons<T>(s: seq<T>, x: T, r': seq<T>)
    requires s != [] && s[0] != x
    requires multiset(r') == multiset(s[1..]) - multiset{x}
    ensures multiset([s[0]] + r') == multiset(s) - multiset{x}
  {
    assert s == [s[0]] + s[1..];
    assert multiset(s) == multiset{s[0]} + multiset(s[1..]);
    assert multiset([s[0]] + r') == multiset{s[0]} + multiset(r');
  }

  /** On a duplicate-free list, removing the first occurrence removes `x` altogether,
      keeps every other element and keeps the list duplicate-free. */
  lemma RemoveFirstNoDup<T>(s: seq<T>, x: T)
    requires x in s && NoDup(s)
    ensures x !in RemoveFirst(s, x)
    ensures forall y :: y in s && y != x ==> y in RemoveFirst(s, x)
    ensures NoDup(RemoveFirst(s, x))
  {
    var r := RemoveFirst(s, x);
    assert multiset(r) == multiset(s) - multiset{x};
    assert multiset(s)[x] == 1 by {
      var k :| 0 <= k < |s| && s[k] == x;
      CountOne(s, k);
    }
    assert x !in r by {
      assert multiset(r)[x] == 0;
    }
    forall y | y in s && y != x ensures y in r {
      assert y in multiset(s);
      assert y in multiset(r);
    }
    forall i, j | 0 <= i < j < |r| ensures r[i] != r[j] {
      if r[i] == r[j] {
        MultisetTwo(r, i, j);
        assert multiset(r)[r[i]] <= multiset(s)[r[i]];
        CountAtMostOne(s, r[i]);
        assert false;
      }
    }
  }

  lemma CountOne<T>(s: seq<T>, k: nat)
    requires k < |s| && NoDup(s)
    ensures multiset(s)[s[k]] == 1
  {
    CountAtMostOne(s, s[k]);
    assert s[k] in multiset(s);
  }

  /** In a duplicate-free list every value is counted at most once. */
  lemma {:induction false} CountAtMostOne<T>(s: seq<T>, x: T)
    requires NoDup(s)
    ensures multiset(s)[x] <= 1
    decreases |s|
  {
    if s != [] {
      assert s == [s[0]] + s[1..];
      assert NoDup(s[1..]) by {
        forall i, j | 0 <= i < j < |s[1..]| ensures s[1..][i] != s[1..][j] {
          assert s[1..][i] == s[i + 1] && s[1..][j] == s[j + 1];
        }
      }
      CountAtMostOne(s[1..], x);
      if s[0] == x {
        assert x !in s[1..] by {
          forall k | 0 <= k < |s[1..]| ensures s[1..][k] != x {
            assert s[1..][k] == s[k + 1];
          }
        }
        assert multiset(s[1..])[x] == 0;
      }
    }
  }

  /** Two positions holding the same value make it counted at least twice. */
  lemma MultisetTwo<T>(s: seq<T>, i: nat, j: nat)
    requires i < j < |s| && s[i] == s[j]
    ensures multiset(s)[s[i]] >= 2
  {
    assert s == s[..j] + s[j..];
    assert s[i] in multiset(s[..j]) by { assert s[..j][i] == s[i]; }
    assert s[j..] == [s[j]] + s[j + 1..];
    assert multiset(s) == multiset(s[..j]) + multiset(s[j..]);
  }

  /** The suffix from `i` is the element at `i` followed by the suffix from `i + 1`. */
  lemma SuffixCons<T>(s: seq<T>, i: nat)
    requires i < |s|
    ensures s[i..] == [s[i]] + s[i + 1..] && s[i..][0] == s[i] && s[i..][1..] == s[i + 1..]
  {
  }
}
