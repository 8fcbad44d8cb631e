/**
 * A stable sort by a comparison, as JavaScript's `Array.prototype.sort` is
 * (stable since ES2019). The grid mappers sort with it; `le(a, b)` means
 * "a may come before b", i.e. the JavaScript comparator returns <= 0.
 */
module Sorting {
  import opened Sequences

  /** `le` is total and transitive: a comparator that orders every pair consistently. */
  ghost predicate TotalPreorder<T(!new)>(le: (T, T) -> bool) {
    && (forall a, b :: le(a, b) || le(b, a))
    && (forall a, b, c :: le(a, b) && le(b, c) ==> le(a, c))
  }

  predicate Sorted<T>(s: seq<T>, le: (T, T) -> bool) {
    forall i, j :: 0 <= i < j < |s| ==> le(s[i], s[j])
  }

  /** Inserts `x` after every element it may not precede (so after its equals). */
  function Insert<T(!new)>(x: T, s: seq<T>, le: (T, T) -> bool): (r: seq<T>)
    requires TotalPreorder(le) && Sorted(s, le)
    ensures multiset(r) == multiset(s) + multiset{x}
    ensures Sorted(r, le)
  {
    if s == [] then [x]
    else if !le(s[0], x) then
      PrependBeforeHead(x, s, le);
      [x] + s
    else
      var rest := Insert(x, s[1..], le);
      assert s == [s[0]] + s[1..];
      HeadThenRest(x, s, rest, le);
      [s[0]] + rest
  }

  /** An element that may not follow the head of a sorted `s` may precede all of it. */
  lemma PrependBeforeHead<T(!new)>(x: T, s: seq<T>, le: (T, T) -> bool)
    requires TotalPreorder(le) && Sorted(s, le)
    requires s != [] && !le(s[0], x)
    ensures Sorted([x] + s, le)
  {
    var r := [x] + s;
    forall i, j | 0 <= i < j < |r|
      ensures le(r[i], r[j])
    {
      assert r[j] == s[j - 1];
      if i == 0 {
        assert le(x, s[0]);
        assert j == 1 || le(s[0], s[j - 1]);
      } else {
        assert r[i] == s[i - 1];
      }
    }
  }

  /** The head of a sorted `s` may go before a sorted permutation of its tail with `x` added. */
  lemma HeadThenRest<T>(x: T, s: seq<T>, rest: seq<T>, le: (T, T) -> bool)
    requires Sorted(s, le) && s != [] && le(s[0], x)
    requires Sorted(rest, le) && multiset(rest) == multiset(s[1..]) + multiset{x}
    ensures Sorted([s[0]] + rest, le)
  {
    var r := [s[0]] + rest;
    forall i, j | 0 <= i < j < |r|
      ensures le(r[i], r[j])
    {
      var e := rest[j - 1];
      assert r[j] == e;
      if i == 0 {
        assert e in multiset(rest);
        if e != x {
          var k := IndexOf(s[1..], e);
          assert s[k + 1] == e;
        }
      } else {
        assert r[i] == rest[i - 1];
      }
    }
  }

  /** Insertion sort, taking the input from left to right. */
  function InsertionSort<T(!new)>(s: seq<T>, le: (T, T) -> bool): (r: seq<T>)
    requires TotalPreorder(le)
    ensures multiset(r) == multiset(s)
    ensures Sorted(r, le)
    ensures |r| == |s|
  {
    if s == [] then []
    else
      var n := |s| - 1;
      assert s == s[..n] + [s[n]];
      var r := Insert(s[n], InsertionSort(s[..n], le), le);
      assert |multiset(r)| == |r|;
      r
  }

  /** Inserting an element that every element may precede appends it. */
  lemma {:induction false} InsertAfterAll<T(!new)>(x: T, s: seq<T>, le: (T, T) -> bool)
    requires TotalPreorder(le) && Sorted(s, le)
    requires forall j :: 0 <= j < |s| ==> le(s[j], x)
    ensures Insert(x, s, le) == s + [x]
  {
    if s != [] {
      InsertAfterAll(x, s[1..], le);
      assert s == [s[0]] + s[1..];
    }
  }

  /** Sorting an already sorted sequence leaves it as it is. */
  lemma {:induction false} InsertionSortOfSorted<T(!new)>(s: seq<T>, le: (T, T) -> bool)
    requires TotalPreorder(le) && Sorted(s, le)
    ensures InsertionSort(s, le) == s
  {
    if s != [] {
      var n := |s| - 1;
      var front := s[..n];
      assert s == front + [s[n]];
      InsertionSortOfSorted(front, le);
      InsertAfterAll(s[n], front, le);
      calc {
        InsertionSort(s, le);
        Insert(s[n], InsertionSort(front, le), le);
        Insert(s[n], front, le);
        front + [s[n]];
      }
    }
  }

  /** The elements of `s` equivalent to `k` under `le`, in their order in `s`. */
  function EquivalentTo<T>(s: seq<T>, le: (T, T) -> bool, k: T): seq<T> {
    if s == [] then []
    else (if le(s[0], k) && le(k, s[0]) then [s[0]] else []) + EquivalentTo(s[1..], le, k)
  }

  lemma {:induction false} EquivalentToAppend<T>(s: seq<T>, t: seq<T>, le: (T, T) -> bool, k: T)
    ensures EquivalentTo(s + t, le, k) == EquivalentTo(s, le, k) + EquivalentTo(t, le, k)
  {
    if s == [] {
      assert s + t == t;
    } else {
      var head := if le(s[0], k) && le(k, s[0]) then [s[0]] else [];
      assert (s + t)[0] == s[0];
      assert (s + t)[1..] == s[1..] + t;
      EquivalentToAppend(s[1..], t, le, k);
      calc {
        EquivalentTo(s + t, le, k);
        head + EquivalentTo(s[1..] + t, le, k);
        head + (EquivalentTo(s[1..], le, k) + EquivalentTo(t, le, k));
        (head + EquivalentTo(s[1..], le, k)) + EquivalentTo(t, le, k);
      }
    }
  }

  /** No element of `s` is equivalent to `k` when every element is strictly after `x ~ k`. */
  lemma {:induction false} NoneEquivalent<T(!new)>(x: T, s: seq<T>, le: (T, T) -> bool, k: T)
    requires TotalPreorder(le)
    requires forall j :: 0 <= j < |s| ==> !le(s[j], x)
    requires le(x, k) && le(k, x)
    ensures EquivalentTo(s, le, k) == []
  {
    if s != [] {
      NoneEquivalent(x, s[1..], le, k);
    }
  }

  /** When `x` may not follow the head of a sorted `s`, it may follow no element of `s`. */
  lemma AllAfter<T(!new)>(x: T, s: seq<T>, le: (T, T) -> bool)
    requires TotalPreorder(le) && Sorted(s, le)
    requires s != [] && !le(s[0], x)
    ensures forall j :: 0 <= j < |s| ==> !le(s[j], x)
  {
    forall j | 0 <= j < |s|
      ensures !le(s[j], x)
    {
      assert j == 0 || le(s[0], s[j]);
    }
  }

  /** Inserting `x` appends it to its own equivalence class and leaves the others alone. */
  lemma {:induction false} InsertKeepsClassOrder<T(!new)>(x: T, s: seq<T>, le: (T, T) -> bool, k: T)
    requires TotalPreorder(le) && Sorted(s, le)
    ensures EquivalentTo(Insert(x, s, le), le, k)
         == EquivalentTo(s, le, k) + (if le(x, k) && le(k, x) then [x] else [])
  {
    if s == [] {
    } else if !le(s[0], x) {
      assert Insert(x, s, le) == [x] + s;
      EquivalentToAppend([x], s, le, k);
      assert [x][1..] == [];
      if le(x, k) && le(k, x) {
        AllAfter(x, s, le);
        NoneEquivalent(x, s, le, k);
      }
    } else {
      var rest := Insert(x, s[1..], le);
      assert Insert(x, s, le) == [s[0]] + rest;
      assert s == [s[0]] + s[1..];
      InsertKeepsClassOrder(x, s[1..], le, k);
      EquivalentToAppend([s[0]], rest, le, k);
      EquivalentToAppend([s[0]], s[1..], le, k);
    }
  }

  /**
   * Stability: for every key `k`, the elements equivalent to `k` come out of the
   * sort in the order they went in.
   */
  lemma {:induction false} InsertionSortIsStable<T(!new)>(s: seq<T>, le: (T, T) -> bool, k: T)
    requires TotalPreorder(le)
    ensures EquivalentTo(InsertionSort(s, le), le, k) == EquivalentTo(s, le, k)
  {
    if s != [] {
      var n := |s| - 1;
      var prefix, x := s[..n], s[n];
      var sorted := InsertionSort(prefix, le);
      var tail := if le(x, k) && le(k, x) then [x] else [];
      assert s == prefix + [x];
      calc {
        EquivalentTo(InsertionSort(s, le), le, k);
        EquivalentTo(Insert(x, sorted, le), le, k);
        { InsertKeepsClassOrder(x, sorted, le, k); }
        EquivalentTo(sorted, le, k) + tail;
        { InsertionSortIsStable(prefix, le, k); }
        EquivalentTo(prefix, le, k) + tail;
        { assert EquivalentTo([x], le, k) == tail + EquivalentTo([], le, k); }
        EquivalentTo(prefix, le, k) + EquivalentTo([x], le, k);
        { EquivalentToAppend(prefix, [x], le, k); }
        EquivalentTo(s, le, k);
      }
    }
  }
}

/** Element-wise mapping of sequences (which carries permutations along) and sums. */
module Sequences {

  function MapSeq<A, B>(f: A -> B, s: seq<A>): (r: seq<B>)
    ensures |r| == |s|
    ensures forall i :: 0 <= i < |s| ==> r[i] == f(s[i])
  {
    seq(|s|, i requires 0 <= i < |s| => f(s[i]))
  }

  lemma MapSeqAppend<A, B>(f: A -> B, s: seq<A>, t: seq<A>)
    ensures MapSeq(f, s + t) == MapSeq(f, s) + MapSeq(f, t)
  {
  }

  /** Taking out the element at `j` takes one copy of it out of the multiset. */
  lemma MultisetRemove<T>(t: seq<T>, j: nat)
    requires j < |t|
    ensures multiset(t[..j] + t[j + 1..]) == multiset(t) - multiset{t[j]}
  {
    assert t == t[..j] + [t[j]] + t[j + 1..];
  }

  /** An element of the multiset of `t` sits at some index of `t`. */
  lemma IndexOf<T>(t: seq<T>, x: T) returns (j: nat)
    requires x in multiset(t)
    ensures j < |t| && t[j] == x
  {
    assert x in t;
    j :| j < |t| && t[j] == x;
  }

  /** Removing the head of `s` and a copy of it from `t` leaves two permutations of each other. */
  lemma PermutationTail<T>(s: seq<T>, t: seq<T>, j: nat)
    requires multiset(s) == multiset(t) && s != [] && j < |t| && t[j] == s[0]
    ensures multiset(s[1..]) == multiset(t[..j] + t[j + 1..])
  {
    MultisetRemove(t, j);
    assert s == [s[0]] + s[1..];
  }

  /** Taking out the element at `j` takes one copy of its image out of the mapped multiset. */
  lemma MapSeqRemove<A, B>(f: A -> B, t: seq<A>, j: nat)
    requires j < |t|
    ensures multiset(MapSeq(f, t)) == multiset(MapSeq(f, t[..j] + t[j + 1..])) + multiset{f(t[j])}
  {
    assert t == t[..j] + [t[j]] + t[j + 1..];
    MapSeqAppend(f, t[..j] + [t[j]], t[j + 1..]);
    MapSeqAppend(f, t[..j], [t[j]]);
    MapSeqAppend(f, t[..j], t[j + 1..]);
    assert MapSeq(f, [t[j]]) == [f(t[j])];
  }

  /** The image of the head plus the image of the tail is the image of the whole. */
  lemma MapSeqHead<A, B>(f: A -> B, s: seq<A>)
    requires s != []
    ensures multiset(MapSeq(f, s)) == multiset(MapSeq(f, s[1..])) + multiset{f(s[0])}
  {
    assert s == [s[0]] + s[1..];
    MapSeqAppend(f, [s[0]], s[1..]);
    assert MapSeq(f, [s[0]]) == [f(s[0])];
  }

  /** Mapping two permutations of each other gives two permutations of each other. */
  lemma {:induction false} MapSeqPermutation<A, B>(f: A -> B, s: seq<A>, t: seq<A>)
    requires multiset(s) == multiset(t)
    ensures multiset(MapSeq(f, s)) == multiset(MapSeq(f, t))
  {
    if s == [] {
      assert |t| == |multiset(t)| == 0;
    } else {
      var j := IndexOf(t, s[0]);
      PermutationTail(s, t, j);
      MapSeqPermutation(f, s[1..], t[..j] + t[j + 1..]);
      MapSeqRemove(f, t, j);
      MapSeqHead(f, s);
    }
  }

  /** The sum of a sequence of integers. */
  function Sum(s: seq<int>): int {
    if s == [] then 0 else Sum(s[..|s| - 1]) + s[|s| - 1]
  }

  lemma SumAppend(s: seq<int>, x: int)
    ensures Sum(s + [x]) == Sum(s) + x
  {
    assert (s + [x])[..|s|] == s;
  }

  lemma {:induction false} SumFront(r: seq<int>)
    requires r != []
    ensures Sum(r) == r[0] + Sum(r[1..])
  {
    var n := |r| - 1;
    if n > 0 {
      SumFront(r[..n]);
      assert r[..n][1..] == r[1..][..n - 1];
      assert r[..n][0] == r[0];
    }
  }
}
