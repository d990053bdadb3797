/** Assembly of the result table: pair every uploaded file's name with its
    score, sort the rows by score from high to low, then number the rows
    1..N in the new row order as the Rank column. */
module Assembly {

  /** A row of the table before the Rank column is added. */
  datatype Entry = Entry(resume: string, score: int)

  /** A row of the finished table. */
  datatype Row = Row(resume: string, score: int, rank: int)

  /** The table built from the two equally long columns. */
  function Pair(names: seq<string>, scores: seq<int>): seq<Entry>
    requires |names| == |scores|
  {
    seq(|names|, i requires 0 <= i < |names| => Entry(names[i], scores[i]))
  }

  /** The finished table without its Rank column. */
  function Unranked(table: seq<Row>): seq<Entry>
  {
    seq(|table|, i requires 0 <= i < |table| => Entry(table[i].resume, table[i].score))
  }

  /** The Score column. */
  function ScoreColumn(t: seq<Entry>): seq<int>
  {
    seq(|t|, i requires 0 <= i < |t| => t[i].score)
  }

  /** Scores never increase from one row to a later one. */
  predicate SortedByScore(t: seq<Entry>)
  {
    forall i, j :: 0 <= i < j < |t| ==> t[i].score >= t[j].score
  }

  predicate NonIncreasing(s: seq<int>)
  {
    forall i, j :: 0 <= i < j < |s| ==> s[i] >= s[j]
  }

  /** The Rank column is 1, 2, ..., N in row order. */
  predicate RankedInRowOrder(table: seq<Row>)
  {
    forall i :: 0 <= i < |table| ==> table[i].rank == i + 1
  }

  /** sort_values(by="Score", ascending=False). The order of rows with equal
      scores is left unspecified: the library's default sort is not stable. */
  method SortByScore(entries: seq<Entry>) returns (sorted: seq<Entry>)
    ensures SortedByScore(sorted)
    ensures multiset(sorted) == multiset(entries)
  {
    sorted := [];
    for n := 0 to |entries|
      invariant SortedByScore(sorted)
      invariant multiset(sorted) == multiset(entries[..n])
    {
      assert entries[..n + 1] == entries[..n] + [entries[n]];
      sorted := Insert(sorted, entries[n]);
    }
    assert entries[..|entries|] == entries;
  }

  /** Places `e` after every row whose score is at least its own. */
  method Insert(sorted: seq<Entry>, e: Entry) returns (r: seq<Entry>)
    requires SortedByScore(sorted)
    ensures SortedByScore(r)
    ensures multiset(r) == multiset(sorted) + multiset{e}
  {
    var j := 0;
    while j < |sorted| && sorted[j].score >= e.score
      invariant 0 <= j <= |sorted|
      invariant forall k :: 0 <= k < j ==> sorted[k].score >= e.score
    {
      j := j + 1;
    }
    InsertKeepsSorted(sorted, j, e);
    InsertAddsOne(sorted, j, e);
    r := sorted[..j] + [e] + sorted[j..];
  }

  lemma InsertKeepsSorted(t: seq<Entry>, j: nat, e: Entry)
    requires SortedByScore(t)
    requires j <= |t|
    requires forall k :: 0 <= k < j ==> t[k].score >= e.score
    requires j < |t| ==> t[j].score < e.score
    ensures SortedByScore(t[..j] + [e] + t[j..])
  {
  }

  lemma InsertAddsOne(t: seq<Entry>, j: nat, e: Entry)
    requires j <= |t|
    ensures multiset(t[..j] + [e] + t[j..]) == multiset(t) + multiset{e}
  {
    assert t == t[..j] + t[j..];
  }

  /** results["Rank"] = range(1, len(results) + 1). */
  method AssignRanks(sorted: seq<Entry>) returns (table: seq<Row>)
    ensures Unranked(table) == sorted
    ensures RankedInRowOrder(table)
  {
    table := [];
    for n := 0 to |sorted|
      invariant |table| == n
      invariant forall i :: 0 <= i < n ==> table[i] == Row(sorted[i].resume, sorted[i].score, i + 1)
    {
      table := table + [Row(sorted[n].resume, sorted[n].score, n + 1)];
    }
  }

  /** Lines 113-115: build the table, sort it, add the Rank column. */
  method Assemble(names: seq<string>, scores: seq<int>) returns (table: seq<Row>)
    requires |names| == |scores|
    ensures |table| == |names|
    ensures SortedByScore(Unranked(table))
    ensures RankedInRowOrder(table)
    ensures multiset(Unranked(table)) == multiset(Pair(names, scores))
  {
    var results := Pair(names, scores);
    var sorted := SortByScore(results);
    assert |sorted| == |results| by {
      assert |multiset(sorted)| == |multiset(results)|;
    }
    table := AssignRanks(sorted);
  }

  // ----- lemmas -----

  /** The set of values in the Rank column. */
  function RankSet(table: seq<Row>): set<int>
  {
    set i | 0 <= i < |table| :: table[i].rank
  }

  /** The ranks are exactly 1..N: every number in that range is the rank of
      some row, no row has a rank outside it, and no two rows share one. */
  lemma RanksAreOneToN(table: seq<Row>)
    requires RankedInRowOrder(table)
    ensures forall k :: k in RankSet(table) <==> 1 <= k <= |table|
    ensures forall i, j :: 0 <= i < j < |table| ==> table[i].rank != table[j].rank
  {
    forall k | 1 <= k <= |table| ensures k in RankSet(table) {
      assert table[k - 1].rank == k;
    }
  }

  /** A better rank never has a lower score, and a higher score always has
      the better rank. */
  lemma RankFollowsScore(table: seq<Row>, i: nat, j: nat)
    requires SortedByScore(Unranked(table)) && RankedInRowOrder(table)
    requires i < |table| && j < |table|
    ensures table[i].rank < table[j].rank ==> table[i].score >= table[j].score
    ensures table[i].score > table[j].score ==> table[i].rank < table[j].rank
  {
    var u := Unranked(table);
    if i < j { assert u[i].score >= u[j].score; }
    if j < i { assert u[j].score >= u[i].score; }
  }

  /** Every uploaded file appears in the table with its own score, and every
      row is some uploaded file with its score. */
  lemma EveryFileListed(names: seq<string>, scores: seq<int>, table: seq<Row>)
    requires |names| == |scores|
    requires multiset(Unranked(table)) == multiset(Pair(names, scores))
    ensures forall k :: 0 <= k < |names| ==> Entry(names[k], scores[k]) in Unranked(table)
    ensures forall e :: e in Unranked(table) ==> e in Pair(names, scores)
  {
    var p := Pair(names, scores);
    var u := Unranked(table);
    forall k | 0 <= k < |names| ensures Entry(names[k], scores[k]) in u {
      assert p[k] == Entry(names[k], scores[k]);
      assert p[k] in multiset(p);
    }
    forall e | e in u ensures e in p {
      assert e in multiset(u);
    }
  }

  lemma {:induction false} ScoreColumnConcat(a: seq<Entry>, b: seq<Entry>)
    ensures ScoreColumn(a + b) == ScoreColumn(a) + ScoreColumn(b)
  {
  }

  /** Reordering the rows reorders the Score column the same way. */
  lemma {:induction false} PermutedScores(a: seq<Entry>, b: seq<Entry>)
    requires multiset(a) == multiset(b)
    ensures multiset(ScoreColumn(a)) == multiset(ScoreColumn(b))
    decreases |a|
  {
    if a == [] {
      assert |multiset(b)| == 0;
      assert b == [];
    } else {
      var x := a[0];
      assert x in multiset(b);
      var j :| 0 <= j < |b| && b[j] == x;
      var b' := b[..j] + b[j + 1..];
      assert b == b[..j] + [x] + b[j + 1..];
      assert a == [x] + a[1..];
      calc {
        multiset(a[1..]);
        multiset(a) - multiset{x};
        multiset(b) - multiset{x};
        { assert multiset(b) == multiset(b[..j]) + multiset{x} + multiset(b[j + 1..]); }
        multiset(b');
      }
      PermutedScores(a[1..], b');
      ScoreColumnConcat([x], a[1..]);
      ScoreColumnConcat(b[..j] + [x], b[j + 1..]);
      ScoreColumnConcat(b[..j], [x]);
      ScoreColumnConcat(b[..j], b[j + 1..]);
    }
  }

  /** Two non-increasing sequences holding the same numbers are equal. */
  lemma {:induction false} SortedUnique(a: seq<int>, b: seq<int>)
    requires NonIncreasing(a) && NonIncreasing(b)
    requires multiset(a) == multiset(b)
    ensures a == b
    decreases |a|
  {
    if a == [] {
      assert |multiset(b)| == 0;
    } else {
      assert |b| > 0 by { assert |multiset(b)| == |multiset(a)|; }
      assert a[0] >= b[0] by {
        assert b[0] in multiset(a);
        var k :| 0 <= k < |a| && a[k] == b[0];
      }
      assert b[0] >= a[0] by {
        assert a[0] in multiset(b);
        var k :| 0 <= k < |b| && b[k] == a[0];
      }
      assert a == [a[0]] + a[1..];
      assert b == [b[0]] + b[1..];
      assert a[0] == b[0];
      assert NonIncreasing(a[1..]) by {
        forall i, j | 0 <= i < j < |a| - 1 ensures a[1..][i] >= a[1..][j] {
          assert a[1..][i] == a[i + 1] && a[1..][j] == a[j + 1];
        }
      }
      assert NonIncreasing(b[1..]) by {
        forall i, j | 0 <= i < j < |b| - 1 ensures b[1..][i] >= b[1..][j] {
          assert b[1..][i] == b[i + 1] && b[1..][j] == b[j + 1];
        }
      }
      calc {
        multiset(a[1..]);
        { assert multiset(a) == multiset([a[0]]) + multiset(a[1..]); }
        multiset(a) - multiset{a[0]};
        multiset(b) - multiset{b[0]};
        { assert multiset(b) == multiset([b[0]]) + multiset(b[1..]); }
        multiset(b[1..]);
      }
      SortedUnique(a[1..], b[1..]);
    }
  }

  /** However the sort orders rows with equal scores, the Score column of the
      table is the same: the input scores in non-increasing order. Only the
      names of rows with tied scores can appear in a different order. */
  lemma ScoreColumnDetermined(t1: seq<Entry>, t2: seq<Entry>)
    requires SortedByScore(t1) && SortedByScore(t2)
    requires multiset(t1) == multiset(t2)
    ensures ScoreColumn(t1) == ScoreColumn(t2)
  {
    PermutedScores(t1, t2);
    SortedUnique(ScoreColumn(t1), ScoreColumn(t2));
  }
}
