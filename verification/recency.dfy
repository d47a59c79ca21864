/**
 * Ordering notes by recency. Both the note list and the start-up selection
 * sort a copy of the collection with the comparator
 * `(a, b) => b.updatedAt - a.updatedAt`, and the sort of the host language
 * is stable. `SortByRecency` is a stable insertion sort with that order.
 */
module Recency {
  import opened NoteTypes

  /** Newest first: `updatedAt` never increases along the sequence. */
  predicate NewestFirst(s: seq<Note>) {
    forall i, j :: 0 <= i < j < |s| ==> s[i].updatedAt >= s[j].updatedAt
  }

  /**
   * Places `x` in front of the first note that is not strictly newer than
   * it, so that among equally recent notes `x` keeps its earlier position.
   */
  function Insert(x: Note, s: seq<Note>): (r: seq<Note>)
    ensures multiset(r) == multiset(s) + multiset{x}
    ensures |r| == |s| + 1
  {
    if s == [] || x.updatedAt >= s[0].updatedAt then
      [x] + s
    else
      assert s == [s[0]] + s[1..];
      [s[0]] + Insert(x, s[1..])
  }

  lemma {:induction false} InsertKeepsNewestFirst(x: Note, s: seq<Note>)
    requires NewestFirst(s)
    ensures NewestFirst(Insert(x, s))
  {
    if s != [] && x.updatedAt < s[0].updatedAt {
      var rest := Insert(x, s[1..]);
      InsertKeepsNewestFirst(x, s[1..]);
      forall j | 0 <= j < |rest|
        ensures rest[j].updatedAt <= s[0].updatedAt
      {
        assert rest[j] in multiset(s[1..]) + multiset{x};
        if rest[j] != x {
          assert rest[j] in s[1..];
        }
      }
    }
  }

  /** The recency-ordered copy of the collection. */
  function SortByRecency(s: seq<Note>): (r: seq<Note>)
    ensures multiset(r) == multiset(s)
    ensures |r| == |s|
    ensures NewestFirst(r)
  {
    if s == [] then
      []
    else
      assert s == [s[0]] + s[1..];
      var rest := SortByRecency(s[1..]);
      InsertKeepsNewestFirst(s[0], rest);
      Insert(s[0], rest)
  }

  /** The position of the first note whose `updatedAt` is the greatest. */
  function FirstNewest(s: seq<Note>): (i: nat)
    requires s != []
    ensures i < |s|
    ensures forall j :: 0 <= j < |s| ==> s[j].updatedAt <= s[i].updatedAt
    ensures forall j :: 0 <= j < i ==> s[j].updatedAt < s[i].updatedAt
  {
    if |s| == 1 then
      0
    else
      var k := 1 + FirstNewest(s[1..]);
      if s[0].updatedAt >= s[k].updatedAt then 0 else k
  }

  /**
   * Because the sort is stable, the head of the sorted copy is the FIRST
   * note, in collection order, among those last updated most recently.
   */
  lemma {:induction false} SortHeadIsFirstNewest(s: seq<Note>)
    requires s != []
    ensures |SortByRecency(s)| == |s|
    ensures SortByRecency(s)[0] == s[FirstNewest(s)]
  {
    if |s| > 1 {
      SortHeadIsFirstNewest(s[1..]);
    }
  }

  /** A collection that is already newest-first comes back unchanged. */
  lemma {:induction false} SortKeepsNewestFirst(s: seq<Note>)
    requires NewestFirst(s)
    ensures SortByRecency(s) == s
  {
    if s != [] {
      SortKeepsNewestFirst(s[1..]);
      assert s == [s[0]] + s[1..];
    }
  }

  lemma {:induction false} InsertKeepsDistinctIds(x: Note, s: seq<Note>)
    requires DistinctIds(s)
    requires forall y :: y in s ==> y.id != x.id
    ensures DistinctIds(Insert(x, s))
  {
    if s != [] && x.updatedAt < s[0].updatedAt {
      InsertKeepsDistinctIds(x, s[1..]);
      var rest := Insert(x, s[1..]);
      forall y | y in rest
        ensures y.id != s[0].id
      {
        assert y in multiset(rest);
        if y != x {
          assert y in multiset(s[1..]);
          var j :| 0 <= j < |s[1..]| && s[1..][j] == y;
          assert s[1 + j] == y;
        }
      }
    }
  }

  /** Sorting a collection with distinct ids gives one with distinct ids. */
  lemma {:induction false} SortKeepsDistinctIds(s: seq<Note>)
    requires DistinctIds(s)
    ensures DistinctIds(SortByRecency(s))
  {
    if s != [] {
      SortKeepsDistinctIds(s[1..]);
      var rest := SortByRecency(s[1..]);
      forall y | y in rest
        ensures y.id != s[0].id
      {
        assert y in multiset(rest);
        var j :| 0 <= j < |s[1..]| && s[1..][j] == y;
        assert s[1 + j] == y;
      }
      InsertKeepsDistinctIds(s[0], rest);
    }
  }
}
