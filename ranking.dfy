/** The top-N selection of wikipedia.py (get_html_answers, lines 70-74):
    pandas' nlargest on the 'score' column with keep='first'.  The rows with
    the largest scores are kept, highest first; among equal scores the row
    that comes first in the table comes first and is preferred.  A count of
    zero or less selects nothing. */
module Ranking {
  import opened Answers

  /** Row i ranks before row j: a higher score, or the same score and an
      earlier position. */
  predicate Before(rows: seq<Answer>, i: nat, j: nat)
    requires i < |rows| && j < |rows|
  {
    rows[i].score > rows[j].score || (rows[i].score == rows[j].score && i < j)
  }

  /** s lists positions of rows in rank order. */
  predicate Ranked(rows: seq<Answer>, s: seq<nat>) {
    (forall k :: 0 <= k < |s| ==> s[k] < |rows|) &&
    forall a, b :: 0 <= a < b < |s| ==> Before(rows, s[a], s[b])
  }

  /** Insert position x into the ranked list s. */
  function Insert(rows: seq<Answer>, x: nat, s: seq<nat>): seq<nat>
    requires x < |rows| && forall k :: 0 <= k < |s| ==> s[k] < |rows|
  {
    if s == [] then [x]
    else if Before(rows, x, s[0]) then [x] + s
    else [s[0]] + Insert(rows, x, s[1..])
  }

  /** Positions 0 .. m-1 of rows, in rank order. */
  function Order(rows: seq<Answer>, m: nat): (r: seq<nat>)
    requires m <= |rows|
    ensures |r| == m && forall k :: 0 <= k < |r| ==> r[k] < m
  {
    if m == 0 then []
    else
      var prev := Order(rows, m - 1);
      InsertFacts(rows, m - 1, prev);
      var r := Insert(rows, m - 1, prev);
      assert forall k :: 0 <= k < |r| ==> r[k] in r;
      r
  }

  function Min(a: int, b: int): int { if a <= b then a else b }

  /** How many rows nlargest(n) keeps. */
  function KeptRows(rows: seq<Answer>, n: int): nat {
    if n <= 0 then 0 else Min(n, |rows|)
  }

  /** The positions nlargest(n) keeps, in the order it returns them. */
  function TopPositions(rows: seq<Answer>, n: int): seq<nat> {
    Order(rows, |rows|)[..KeptRows(rows, n)]
  }

  /** df.nlargest(n, 'score') with keep='first'. */
  function NLargest(rows: seq<Answer>, n: int): (r: seq<Answer>)
    ensures |r| == KeptRows(rows, n)
    ensures forall k :: 0 <= k < |r| ==> r[k] in rows
  {
    var top := TopPositions(rows, n);
    seq(|top|, k requires 0 <= k < |top| => rows[top[k]])
  }

  lemma {:induction false} InsertFacts(rows: seq<Answer>, x: nat, s: seq<nat>)
    requires x < |rows| && forall k :: 0 <= k < |s| ==> s[k] < |rows|
    ensures |Insert(rows, x, s)| == |s| + 1
    ensures forall i :: i in Insert(rows, x, s) <==> i == x || i in s
    ensures forall k :: 0 <= k < |Insert(rows, x, s)| ==> Insert(rows, x, s)[k] < |rows|
    decreases |s|
  {
    if s != [] && !Before(rows, x, s[0]) {
      InsertFacts(rows, x, s[1..]);
      assert s == [s[0]] + s[1..];
    }
  }

  /** Inserting keeps the list ranked. */
  lemma {:induction false} InsertRanked(rows: seq<Answer>, x: nat, s: seq<nat>)
    requires x < |rows| && Ranked(rows, s) && x !in s
    ensures Ranked(rows, Insert(rows, x, s))
    decreases |s|
  {
    InsertFacts(rows, x, s);
    if s != [] && !Before(rows, x, s[0]) {
      assert x != s[0];
      assert Before(rows, s[0], x);
      InsertRanked(rows, x, s[1..]);
      InsertFacts(rows, x, s[1..]);
      var r := Insert(rows, x, s);
      assert r == [s[0]] + Insert(rows, x, s[1..]);
      forall b | 0 < b < |r| ensures Before(rows, s[0], r[b]) {
        assert r[b] in Insert(rows, x, s[1..]);
        if r[b] != x {
          var q :| 0 <= q < |s[1..]| && s[1..][q] == r[b];
          assert s[q + 1] == r[b];
        }
      }
    }
  }

  /** Order lists every position below m exactly once, in rank order. */
  lemma {:induction false} OrderRanked(rows: seq<Answer>, m: nat)
    requires m <= |rows|
    ensures Ranked(rows, Order(rows, m))
    ensures forall i :: i in Order(rows, m) <==> 0 <= i < m
  {
    if m > 0 {
      OrderRanked(rows, m - 1);
      var prev := Order(rows, m - 1);
      InsertFacts(rows, m - 1, prev);
      InsertRanked(rows, m - 1, prev);
    }
  }

  /** nlargest keeps min(n, number of rows) rows (none for n <= 0), each one
      an input row; they come highest score first, equal scores in table
      order; and every row left out ranks after every row kept: its score is
      no higher, and when equal it comes later in the table. */
  lemma NLargestSpec(rows: seq<Answer>, n: int)
    ensures |NLargest(rows, n)| == KeptRows(rows, n)
    ensures |TopPositions(rows, n)| == KeptRows(rows, n)
    ensures forall k :: 0 <= k < KeptRows(rows, n) ==>
              TopPositions(rows, n)[k] < |rows| &&
              NLargest(rows, n)[k] == rows[TopPositions(rows, n)[k]]
    ensures Ranked(rows, TopPositions(rows, n))
    ensures forall a, b :: 0 <= a < b < KeptRows(rows, n) ==>
              TopPositions(rows, n)[a] != TopPositions(rows, n)[b]
    ensures forall a, b :: 0 <= a < b < KeptRows(rows, n) ==>
              NLargest(rows, n)[a].score >= NLargest(rows, n)[b].score
    ensures forall i, k :: 0 <= i < |rows| && i !in TopPositions(rows, n) && 0 <= k < KeptRows(rows, n) ==>
              Before(rows, TopPositions(rows, n)[k], i)
  {
    var all := Order(rows, |rows|);
    OrderRanked(rows, |rows|);
    var top := TopPositions(rows, n);
    var kept := KeptRows(rows, n);
    assert top == all[..kept];
    forall i, k | 0 <= i < |rows| && i !in top && 0 <= k < kept
      ensures Before(rows, top[k], i)
    {
      assert i in all;
      var q :| 0 <= q < |all| && all[q] == i;
      assert q >= kept;
    }
    forall a, b | 0 <= a < b < kept
      ensures NLargest(rows, n)[a].score >= NLargest(rows, n)[b].score
    {
      assert Before(rows, top[a], top[b]);
    }
  }

  /** Asking for more rows than there are returns all of them, reordered by
      rank, without padding. */
  lemma NLargestAll(rows: seq<Answer>, n: int)
    requires n >= |rows|
    ensures |NLargest(rows, n)| == |rows|
    ensures forall i :: 0 <= i < |rows| ==> i in TopPositions(rows, n)
  {
    OrderRanked(rows, |rows|);
    assert Order(rows, |rows|)[..|rows|] == Order(rows, |rows|);
  }

  /** Inserting a position that ranks after every listed one appends it. */
  lemma {:induction false} InsertLast(rows: seq<Answer>, x: nat, s: seq<nat>)
    requires x < |rows| && forall k :: 0 <= k < |s| ==> s[k] < |rows| && Before(rows, s[k], x)
    ensures Insert(rows, x, s) == s + [x]
    decreases |s|
  {
    if s != [] {
      assert !Before(rows, x, s[0]);
      InsertLast(rows, x, s[1..]);
      assert s == [s[0]] + s[1..];
    }
  }

  predicate ScoresDescending(rows: seq<Answer>) {
    forall a, b :: 0 <= a < b < |rows| ==> rows[a].score >= rows[b].score
  }

  /** Rows already in rank order keep their order. */
  lemma {:induction false} OrderOfSorted(rows: seq<Answer>, m: nat)
    requires m <= |rows| && ScoresDescending(rows)
    ensures Order(rows, m) == seq(m, i => i)
  {
    if m > 0 {
      OrderOfSorted(rows, m - 1);
      var prev := Order(rows, m - 1);
      InsertLast(rows, m - 1, prev);
      assert seq(m - 1, i => i) + [m - 1] == seq(m, i => i);
    }
  }

  /** Selecting again from a selection changes nothing. */
  lemma NLargestIdempotent(rows: seq<Answer>, n: int)
    ensures NLargest(NLargest(rows, n), n) == NLargest(rows, n)
  {
    NLargestSpec(rows, n);
    var once := NLargest(rows, n);
    assert ScoresDescending(once);
    OrderOfSorted(once, |once|);
    var top := TopPositions(once, n);
    assert KeptRows(once, n) == |once|;
    assert top == seq(|once|, i => i);
  }

  /** Two rows with the same score and n = 1: the earlier row is the one
      kept. */
  lemma TieKeepsEarlier(rows: seq<Answer>)
    requires |rows| == 2 && rows[0].score == rows[1].score
    ensures NLargest(rows, 1) == [rows[0]]
  {
    NLargestSpec(rows, 1);
    var top := TopPositions(rows, 1);
    assert 0 !in top ==> Before(rows, top[0], 0);
    assert top[0] == 0;
  }
}
