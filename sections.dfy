/**
 * The data preparation and the section traversal of the scroller template's
 * visualization (src/graphics/template/scroller/js/sections.js): the word
 * records read from the TSV file, the filler-word filter, the per-word counts
 * behind the bar chart, and `chart.activate`, which runs the activate function
 * of every section between the last active one and the new one.
 */
module Sections {
  import opened Sorting
  import opened Sequences

  // ---------------------------------------------------------------------------
  // Section traversal
  // ---------------------------------------------------------------------------

  /**
   * `d3.range(start, stop, step)` for a step of 1 or -1: the integers from
   * `start` moving by `step` while they have not reached `stop`.
   */
  function Range(start: int, stop: int, step: int): seq<int>
    requires step == 1 || step == -1
  {
    var n := if step == 1 then stop - start else start - stop;
    seq(if n > 0 then n else 0, i => if step == 1 then start + i else start - i)
  }

  /** The sections `activate` runs when moving from `last` to `active`. */
  function Traversal(last: int, active: int): seq<int> {
    var sign := if active - last < 0 then -1 else 1;
    Range(last + sign, active + sign, sign)
  }

  /** Scrolling down runs last+1, …, active, in ascending order. */
  lemma TraversalForward(last: int, active: int)
    requires last < active
    ensures |Traversal(last, active)| == active - last
    ensures forall i :: 0 <= i < active - last ==> Traversal(last, active)[i] == last + 1 + i
  {
  }

  /** Scrolling up runs last-1, …, active, in descending order. */
  lemma TraversalBackward(last: int, active: int)
    requires active < last
    ensures |Traversal(last, active)| == last - active
    ensures forall i :: 0 <= i < last - active ==> Traversal(last, active)[i] == last - 1 - i
  {
  }

  /** Nothing runs exactly when the section does not change. */
  lemma TraversalEmpty(last: int, active: int)
    ensures Traversal(last, active) == [] <==> last == active
  {
    if last < active {
      TraversalForward(last, active);
    } else if active < last {
      TraversalBackward(last, active);
    }
  }

  /** Each section strictly past `last` up to and including `active` runs, and no other. */
  lemma TraversalMembers(last: int, active: int, x: int)
    ensures x in Traversal(last, active) <==> (last < x <= active || active <= x < last)
  {
    var t := Traversal(last, active);
    if last < x <= active {
      assert t[x - last - 1] == x;
    } else if active <= x < last {
      assert t[last - 1 - x] == x;
    }
  }

  /**
   * Moving in one direction in two steps runs the same sections, in the same
   * order, as moving there at once: a fast scroll misses no section.
   */
  lemma {:induction false} TraversalConcat(a: int, b: int, c: int)
    requires a <= b <= c || c <= b <= a
    ensures Traversal(a, c) == Traversal(a, b) + Traversal(b, c)
  {
    var whole, first, second := Traversal(a, c), Traversal(a, b), Traversal(b, c);
    if a <= b <= c {
      assert |whole| == |first| + |second|;
      forall i | 0 <= i < |whole|
        ensures whole[i] == (first + second)[i]
      {
        if i >= |first| {
          assert second[i - |first|] == b + 1 + (i - |first|);
        }
      }
    } else {
      assert |whole| == |first| + |second|;
      forall i | 0 <= i < |whole|
        ensures whole[i] == (first + second)[i]
      {
        if i >= |first| {
          assert second[i - |first|] == b - 1 - (i - |first|);
        }
      }
    }
  }

  /** With `lastIndex` starting at -1, the first `activate(0)` runs section 0 alone. */
  lemma FirstActivation()
    ensures Traversal(-1, 0) == [0]
  {
  }

  /** The chart's traversal state: the closure variables `activeIndex` and `lastIndex`. */
  class Chart {
    var activeIndex: int
    var lastIndex: int
    /** The sections whose activate function has run, in call order. */
    var activated: seq<int>

    constructor ()
      ensures activeIndex == 0 && lastIndex == -1 && activated == []
    {
      activeIndex := 0;
      lastIndex := -1;
      activated := [];
    }

    /** `chart.activate(index)`. */
    method Activate(index: int)
      modifies this
      ensures activeIndex == index && lastIndex == index
      ensures activated == old(activated) + Traversal(old(lastIndex), index)
    {
      activeIndex := index;
      var sign := if activeIndex - lastIndex < 0 then -1 else 1;
      var scrolledSections := Range(lastIndex + sign, activeIndex + sign, sign);
      var k := 0;
      while k < |scrolledSections|
        invariant 0 <= k <= |scrolledSections|
        invariant activeIndex == index && lastIndex == old(lastIndex)
        invariant activated == old(activated) + scrolledSections[..k]
      {
        activated := activated + [scrolledSections[k]];
        k := k + 1;
      }
      assert scrolledSections[..k] == scrolledSections;
      lastIndex := activeIndex;
    }
  }

  // ---------------------------------------------------------------------------
  // Word records
  // ---------------------------------------------------------------------------

  /** A row of the TSV file: the word, its raw `filler` field and the time it was spoken, in seconds. */
  datatype RawWord = RawWord(word: string, filler: string, time: real)

  /** A prepared word: whether it is a filler word and the minute it was spoken in. */
  datatype Word = Word(word: string, filler: bool, time: real, minute: int)

  /** The fields `getWords` sets on one record. */
  function Prepare(raw: RawWord): (w: Word)
    ensures w.word == raw.word && w.time == raw.time
    ensures w.filler <==> raw.filler == "1"
    ensures w.minute as real * 60.0 <= raw.time < (w.minute + 1) as real * 60.0
  {
    Word(raw.word, raw.filler == "1", raw.time, (raw.time / 60.0).Floor)
  }

  /**
   * `getWords`: every row prepared, in order: the word and time are kept, a
   * word is a filler exactly when its field reads "1", and its minute is the
   * whole minute its time falls in.
   */
  function GetWords(rawData: seq<RawWord>): (words: seq<Word>)
    ensures |words| == |rawData|
    ensures forall i :: 0 <= i < |rawData| ==> words[i].word == rawData[i].word && words[i].time == rawData[i].time
    ensures forall i :: 0 <= i < |rawData| ==> (words[i].filler <==> rawData[i].filler == "1")
    ensures forall i :: 0 <= i < |rawData| ==>
      words[i].minute as real * 60.0 <= rawData[i].time < (words[i].minute + 1) as real * 60.0
  {
    MapSeq(Prepare, rawData)
  }

  // ---------------------------------------------------------------------------
  // Filler words
  // ---------------------------------------------------------------------------

  /** `getFillerWords`: the filler words, in their original order. */
  function GetFillerWords(data: seq<Word>): (r: seq<Word>)
    ensures forall w :: w in r ==> w.filler && w in data
    ensures |r| <= |data|
  {
    if data == [] then []
    else (if data[0].filler then [data[0]] else []) + GetFillerWords(data[1..])
  }

  /** Every filler word is kept as many times as it occurs, and no other word is kept. */
  lemma {:induction false} GetFillerWordsCount(data: seq<Word>, w: Word)
    ensures multiset(GetFillerWords(data))[w] == if w.filler then multiset(data)[w] else 0
  {
    if data != [] {
      assert data == [data[0]] + data[1..];
      GetFillerWordsCount(data[1..], w);
    }
  }

  /** The filter works piecewise, so it keeps the original order. */
  lemma {:induction false} GetFillerWordsAppend(a: seq<Word>, b: seq<Word>)
    ensures GetFillerWords(a + b) == GetFillerWords(a) + GetFillerWords(b)
  {
    if a != [] {
      assert (a + b)[1..] == a[1..] + b;
      GetFillerWordsAppend(a[1..], b);
    } else {
      assert a + b == b;
    }
  }

  // ---------------------------------------------------------------------------
  // Counts per word
  // ---------------------------------------------------------------------------

  /** One bar: a word and how many times it occurs. */
  datatype Group = Group(key: string, count: nat)

  /** The distinct spellings among the words. */
  function Spellings(words: seq<Word>): set<string> {
    set w | w in words :: w.word
  }

  /** How many of the words are spelt `k`. */
  function Occurrences(words: seq<Word>, k: string): nat {
    if words == [] then 0
    else Occurrences(words[..|words| - 1], k) + (if words[|words| - 1].word == k then 1 else 0)
  }

  function KeySet(g: seq<Group>): set<string> {
    set e | e in g :: e.key
  }

  predicate DistinctKeys(g: seq<Group>) {
    forall i, j :: 0 <= i < j < |g| ==> g[i].key != g[j].key
  }

  /** The count recorded for `k`, or 0 when no group has that key. */
  function Lookup(g: seq<Group>, k: string): nat {
    if g == [] then 0
    else if g[0].key == k then g[0].count
    else Lookup(g[1..], k)
  }

  /** The sum of the counts. */
  function Total(g: seq<Group>): int {
    if g == [] then 0 else g[0].count + Total(g[1..])
  }

  /** Adds one occurrence of `key`: its group's count grows, or a group with count 1 is appended. */
  function AddOne(g: seq<Group>, key: string): (r: seq<Group>)
    ensures KeySet(r) == KeySet(g) + {key}
    ensures forall k :: Lookup(r, k) == Lookup(g, k) + (if k == key then 1 else 0)
  {
    if g == [] then [Group(key, 1)]
    else if g[0].key == key then
      assert KeySet(g) == {g[0].key} + KeySet(g[1..]);
      [Group(key, g[0].count + 1)] + g[1..]
    else
      var rest := AddOne(g[1..], key);
      assert KeySet(g) == {g[0].key} + KeySet(g[1..]);
      assert KeySet([g[0]] + rest) == {g[0].key} + KeySet(rest);
      [g[0]] + rest
  }

  /** Adding an occurrence adds one to the total. */
  lemma {:induction false} AddOneTotal(g: seq<Group>, key: string)
    ensures Total(AddOne(g, key)) == Total(g) + 1
  {
    if g == [] {
      assert AddOne(g, key)[1..] == [];
    } else if g[0].key == key {
      assert AddOne(g, key)[1..] == g[1..];
    } else {
      assert AddOne(g, key)[1..] == AddOne(g[1..], key);
      AddOneTotal(g[1..], key);
    }
  }

  /** Adding an occurrence keeps every count positive. */
  lemma {:induction false} AddOnePositive(g: seq<Group>, key: string)
    requires forall e :: e in g ==> e.count >= 1
    ensures forall e :: e in AddOne(g, key) ==> e.count >= 1
  {
    if g != [] && g[0].key != key {
      assert AddOne(g, key) == [g[0]] + AddOne(g[1..], key);
      AddOnePositive(g[1..], key);
    }
  }

  /** Adding an occurrence keeps the keys distinct. */
  lemma {:induction false} AddOneDistinct(g: seq<Group>, key: string)
    requires DistinctKeys(g)
    ensures DistinctKeys(AddOne(g, key))
  {
    var r := AddOne(g, key);
    if g == [] {
    } else if g[0].key == key {
      forall i, j | 0 <= i < j < |r|
        ensures r[i].key != r[j].key
      {
        assert r[i].key == g[i].key && r[j].key == g[j].key;
      }
    } else {
      var rest := AddOne(g[1..], key);
      assert r == [g[0]] + rest;
      AddOneDistinct(g[1..], key);
      forall i, j | 0 <= i < j < |r|
        ensures r[i].key != r[j].key
      {
        assert r[j] in rest && r[j].key in KeySet(rest);
        if i > 0 {
          assert r[i] == rest[i - 1] && r[j] == rest[j - 1];
        }
      }
    }
  }

  /**
   * `d3.group(words, d => d.word)` turned into `{key, value}` pairs: one group
   * per distinct spelling, in order of first occurrence, whose count is the
   * number of words with that spelling.
   */
  function Groups(words: seq<Word>): (g: seq<Group>)
    ensures DistinctKeys(g)
    ensures KeySet(g) == Spellings(words)
    ensures forall e :: e in g ==> e.count >= 1
    ensures forall k :: Lookup(g, k) == Occurrences(words, k)
    ensures Total(g) == |words|
  {
    if words == [] then []
    else
      var init := words[..|words| - 1];
      var last := words[|words| - 1];
      assert words == init + [last];
      assert Spellings(words) == Spellings(init) + {last.word};
      AddOneTotal(Groups(init), last.word);
      AddOnePositive(Groups(init), last.word);
      AddOneDistinct(Groups(init), last.word);
      AddOne(Groups(init), last.word)
  }

  /** The position of the first word spelt `k`, or the number of words when none is. */
  function FirstIndex(words: seq<Word>, k: string): (n: nat)
    ensures n <= |words|
    ensures n < |words| ==> words[n].word == k
    ensures forall i :: 0 <= i < n ==> words[i].word != k
  {
    if words == [] then 0
    else if words[0].word == k then 0
    else 1 + FirstIndex(words[1..], k)
  }

  /**
   * Adding an occurrence of a key already present keeps the keys where they
   * are; a new key is appended as a group of one.
   */
  lemma {:induction false} AddOneKeys(g: seq<Group>, key: string)
    ensures |AddOne(g, key)| == if key in KeySet(g) then |g| else |g| + 1
    ensures forall i :: 0 <= i < |g| ==> AddOne(g, key)[i].key == g[i].key
    ensures key !in KeySet(g) ==> AddOne(g, key)[|g|] == Group(key, 1)
  {
    if g != [] {
      assert KeySet(g) == {g[0].key} + KeySet(g[1..]);
      if g[0].key != key {
        AddOneKeys(g[1..], key);
        assert AddOne(g, key) == [g[0]] + AddOne(g[1..], key);
      }
    }
  }

  /** A spelling occurs exactly when it is first seen at some position. */
  lemma SpeltFirstIndex(words: seq<Word>, k: string)
    ensures k in Spellings(words) <==> FirstIndex(words, k) < |words|
  {
    if k in Spellings(words) {
      var w :| w in words && w.word == k;
      var m :| 0 <= m < |words| && words[m] == w;
    }
    if FirstIndex(words, k) < |words| {
      assert words[FirstIndex(words, k)] in words;
    }
  }

  /** Appending a word moves no first occurrence, and a new spelling is first seen at the end. */
  lemma FirstIndexAppend(init: seq<Word>, last: Word, k: string)
    ensures FirstIndex(init, k) < |init| ==> FirstIndex(init + [last], k) == FirstIndex(init, k)
    ensures FirstIndex(init, k) == |init| && k == last.word ==> FirstIndex(init + [last], k) == |init|
  {
    var words := init + [last];
    assert forall i :: 0 <= i < |init| ==> words[i] == init[i];
    assert words[|init|] == last;
  }

  /** Every key of `g` is spelt by some word, and the keys come in order of their first occurrence. */
  ghost predicate FirstOccurrenceOrder(g: seq<Group>, words: seq<Word>) {
    && (forall i :: 0 <= i < |g| ==> FirstIndex(words, g[i].key) < |words|)
    && (forall i, j :: 0 <= i < j < |g| ==> FirstIndex(words, g[i].key) < FirstIndex(words, g[j].key))
  }

  /**
   * Adding the next word's occurrence keeps the groups in order of first
   * occurrence: stated for any `r` whose keys are those of `g`, followed by
   * the word when it is new, as `AddOneKeys` shows for `AddOne`.
   */
  lemma AddOneOrder(g: seq<Group>, r: seq<Group>, init: seq<Word>, last: Word)
    requires FirstOccurrenceOrder(g, init)
    requires |r| == |g| || (|r| == |g| + 1 && FirstIndex(init, last.word) == |init| && r[|g|].key == last.word)
    requires forall i :: 0 <= i < |g| ==> r[i].key == g[i].key
    ensures FirstOccurrenceOrder(r, init + [last])
  {
    var words := init + [last];
    forall i | 0 <= i < |r|
      ensures FirstIndex(words, r[i].key) < |words|
    {
      if i < |g| {
        FirstIndexAppend(init, last, g[i].key);
      } else {
        FirstIndexAppend(init, last, last.word);
      }
    }
    forall i, j | 0 <= i < j < |r|
      ensures FirstIndex(words, r[i].key) < FirstIndex(words, r[j].key)
    {
      FirstIndexAppend(init, last, g[i].key);
      if j < |g| {
        FirstIndexAppend(init, last, g[j].key);
      } else {
        FirstIndexAppend(init, last, last.word);
      }
    }
  }

  /** The groups come in order of the first occurrence of their words. */
  lemma {:induction false} GroupsFirstOccurrenceOrder(words: seq<Word>)
    ensures FirstOccurrenceOrder(Groups(words), words)
  {
    if words != [] {
      var init := words[..|words| - 1];
      var last := words[|words| - 1];
      assert words == init + [last];
      var g0 := Groups(init);
      assert Groups(words) == AddOne(g0, last.word);
      GroupsFirstOccurrenceOrder(init);
      SpeltFirstIndex(init, last.word);
      AddOneKeys(g0, last.word);
      AddOneOrder(g0, AddOne(g0, last.word), init, last);
    }
  }

  /** With distinct keys, a group's count is the one recorded for its key. */
  lemma {:induction false} LookupFinds(g: seq<Group>, e: Group)
    requires DistinctKeys(g) && e in g
    ensures Lookup(g, e.key) == e.count
  {
    if g[0] != e {
      assert g[0].key != e.key by {
        var j :| 0 <= j < |g| && g[j] == e;
        assert j > 0;
      }
      LookupFinds(g[1..], e);
    }
  }

  /** The comparator `(a, b) => b.value - a.value`: larger counts first. */
  function CountAtLeast(a: Group, b: Group): bool {
    a.count >= b.count
  }

  lemma CountAtLeastIsTotalPreorder()
    ensures TotalPreorder(CountAtLeast)
  {
  }

  /** `groupByWord`: the groups sorted by count, largest first, ties in order of first occurrence. */
  function GroupByWord(words: seq<Word>): (r: seq<Group>)
    ensures multiset(r) == multiset(Groups(words))
    ensures forall i, j :: 0 <= i < j < |r| ==> r[i].count >= r[j].count
  {
    CountAtLeastIsTotalPreorder();
    InsertionSort(Groups(words), CountAtLeast)
  }

  lemma {:induction false} TotalAppend(a: seq<Group>, b: seq<Group>)
    ensures Total(a + b) == Total(a) + Total(b)
  {
    if a != [] {
      assert (a + b)[1..] == a[1..] + b;
      TotalAppend(a[1..], b);
    } else {
      assert a + b == b;
    }
  }

  /** Taking out the group at `j` takes its count off the total. */
  lemma TotalRemove(t: seq<Group>, j: nat)
    requires j < |t|
    ensures Total(t) == Total(t[..j] + t[j + 1..]) + t[j].count
  {
    var before, after := t[..j], t[j + 1..];
    assert t == before + ([t[j]] + after);
    TotalAppend(before, [t[j]] + after);
    assert ([t[j]] + after)[1..] == after;
    TotalAppend(before, after);
  }

  /** Reordering the groups does not change the total. */
  lemma {:induction false} TotalPermutation(s: seq<Group>, t: seq<Group>)
    requires multiset(s) == multiset(t)
    ensures Total(s) == Total(t)
  {
    if s == [] {
      assert |t| == |multiset(t)| == 0;
    } else {
      var j := IndexOf(t, s[0]);
      PermutationTail(s, t, j);
      TotalPermutation(s[1..], t[..j] + t[j + 1..]);
      TotalRemove(t, j);
    }
  }

  /** Groups with distinct keys hold each group at most once. */
  lemma {:induction false} DistinctKeysOnce(s: seq<Group>, e: Group)
    requires DistinctKeys(s)
    ensures multiset(s)[e] <= 1
  {
    if s != [] {
      var n := |s| - 1;
      assert s == s[..n] + [s[n]];
      DistinctKeysOnce(s[..n], e);
      assert s[n] == e ==> e !in s[..n];
    }
  }

  lemma TwiceCounted<T>(t: seq<T>, i: nat, j: nat)
    requires i < j < |t|
    ensures multiset(t)[t[i]] >= (if t[i] == t[j] then 2 else 1)
  {
    assert t == t[..i] + [t[i]] + t[i + 1..j] + [t[j]] + t[j + 1..];
  }

  /** A permutation of groups with distinct keys has distinct keys. */
  lemma {:induction false} DistinctKeysPermutation(s: seq<Group>, t: seq<Group>)
    requires DistinctKeys(s) && multiset(s) == multiset(t)
    ensures DistinctKeys(t)
  {
    forall i, j | 0 <= i < j < |t|
      ensures t[i].key != t[j].key
    {
      assert t[i] in multiset(s) && t[j] in multiset(s);
      LookupFinds(s, t[i]);
      LookupFinds(s, t[j]);
      DistinctKeysOnce(s, t[i]);
      TwiceCounted(t, i, j);
    }
  }

  /**
   * The bar chart's data: one entry per distinct word, whose count is the
   * number of times the word occurs (so at least one), the counts adding up
   * to the number of words, and the entries ordered by count, largest first.
   */
  lemma GroupByWordProperties(words: seq<Word>)
    ensures DistinctKeys(GroupByWord(words))
    ensures KeySet(GroupByWord(words)) == Spellings(words)
    ensures forall e :: e in GroupByWord(words) ==> e.count == Occurrences(words, e.key) >= 1
    ensures Total(GroupByWord(words)) == |words|
    ensures forall i, j :: 0 <= i < j < |GroupByWord(words)| ==>
      GroupByWord(words)[i].count >= GroupByWord(words)[j].count
  {
    var g, r := Groups(words), GroupByWord(words);
    DistinctKeysPermutation(g, r);
    assert forall e :: e in r <==> e in g by {
      forall e
        ensures e in r <==> e in g
      {
        assert e in r <==> e in multiset(r);
        assert e in g <==> e in multiset(g);
      }
    }
    forall e | e in r
      ensures e.count == Occurrences(words, e.key) >= 1
    {
      LookupFinds(g, e);
    }
    TotalPermutation(g, r);
  }

  /** Words with the same count keep their order of first occurrence. */
  lemma GroupByWordStable(words: seq<Word>, k: Group)
    ensures EquivalentTo(GroupByWord(words), CountAtLeast, k) == EquivalentTo(Groups(words), CountAtLeast, k)
  {
    CountAtLeastIsTotalPreorder();
    InsertionSortIsStable(Groups(words), CountAtLeast, k);
  }

  /** The rows whose raw `filler` field is "1". */
  function FillerRows(rawData: seq<RawWord>): seq<RawWord> {
    if rawData == [] then []
    else (if rawData[0].filler == "1" then [rawData[0]] else []) + FillerRows(rawData[1..])
  }

  lemma {:induction false} FillerRowsMatch(rawData: seq<RawWord>)
    ensures |GetFillerWords(GetWords(rawData))| == |FillerRows(rawData)|
  {
    if rawData != [] {
      var words := GetWords(rawData);
      assert words[1..] == GetWords(rawData[1..]);
      FillerRowsMatch(rawData[1..]);
    }
  }

  /**
   * The data set up when the rows arrive: the filler-word counts add up to
   * the number of rows whose `filler` field is "1".
   */
  lemma FillerCountsTotal(rawData: seq<RawWord>)
    ensures Total(GroupByWord(GetFillerWords(GetWords(rawData)))) == |FillerRows(rawData)|
  {
    GroupByWordProperties(GetFillerWords(GetWords(rawData)));
    FillerRowsMatch(rawData);
  }
}
