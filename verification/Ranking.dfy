/** Dense ranking by one pass over a list sorted by descending score. */
module Ranking {
  import opened Counting
  import opened Options

  datatype Entry<K> = Entry(key: K, score: real)

  predicate Descending<K>(entries: seq<Entry<K>>) {
    forall i, j :: 0 <= i < j < |entries| ==> entries[i].score >= entries[j].score
  }

  ghost predicate DistinctKeys<K>(entries: seq<Entry<K>>) {
    forall i, j :: 0 <= i < j < |entries| ==> entries[i].key != entries[j].key
  }

  ghost function Scores<K>(entries: seq<Entry<K>>): set<real> {
    set e | e in entries :: e.score
  }

  /** The scores strictly above a given one, each counted once. */
  function Higher(scores: set<real>, score: real): set<real> {
    set s | s in scores && s > score
  }

  /** The reference: one more than the number of distinct higher scores. */
  function DenseRank(scores: set<real>, score: real): nat {
    1 + |Higher(scores, score)|
  }

  // ---------------------------------------------------------------- the loop

  /** The scan: the rank grows by one whenever the score differs from the previous one. */
  method AssignDenseRanks<K>(ranked: seq<Entry<K>>) returns (ranks: seq<nat>)
    requires Descending(ranked)
    ensures |ranks| == |ranked|
    ensures forall i :: 0 <= i < |ranked| ==> ranks[i] == DenseRank(Scores(ranked), ranked[i].score)
  {
    ranks := [];
    var rank := 0;
    var previous: Option<real> := None;
    for i := 0 to |ranked|
      invariant previous == if i == 0 then None else Some(ranked[i - 1].score)
      invariant rank == DistinctBefore(ranked, i)
      invariant |ranks| == i
      invariant forall j :: 0 <= j < i ==> ranks[j] == DenseRank(Scores(ranked), ranked[j].score)
    {
      RankStep(ranked, i);
      var score := ranked[i].score;
      if previous == None || score != previous.value {
        rank := rank + 1;
      }
      ranks := ranks + [rank];
      previous := Some(score);
    }
  }

  /** Distinct scores among the first `n` entries. */
  ghost function DistinctBefore<K>(ranked: seq<Entry<K>>, n: nat): nat
    requires n <= |ranked|
  {
    |Scores(ranked[..n])|
  }

  lemma RankStep<K>(ranked: seq<Entry<K>>, i: nat)
    requires i < |ranked| && Descending(ranked)
    ensures DistinctBefore(ranked, i + 1) == DenseRank(Scores(ranked), ranked[i].score)
    ensures DistinctBefore(ranked, i + 1)
         == DistinctBefore(ranked, i) + (if i > 0 && ranked[i].score == ranked[i - 1].score then 0 else 1)
  {
    ScoresOfPrefix(ranked, i);
    RankIsPrefixCount(ranked, i);
  }

  lemma ScoresOfPrefix<K>(ranked: seq<Entry<K>>, i: nat)
    requires i < |ranked| && Descending(ranked)
    ensures Scores(ranked[..i + 1]) == Scores(ranked[..i]) + {ranked[i].score}
    ensures ranked[i].score in Scores(ranked[..i]) <==> i > 0 && ranked[i].score == ranked[i - 1].score
  {
    assert ranked[..i + 1] == ranked[..i] + [ranked[i]];
    if i > 0 {
      assert ranked[i - 1] in ranked[..i];
    }
    if ranked[i].score in Scores(ranked[..i]) {
      var e :| e in ranked[..i] && e.score == ranked[i].score;
      var j :| 0 <= j < i && ranked[j] == e;
      assert ranked[j].score >= ranked[i - 1].score >= ranked[i].score;
    }
  }

  lemma PrefixScores<K>(ranked: seq<Entry<K>>, i: nat)
    requires i < |ranked| && Descending(ranked)
    ensures Scores(ranked[..i + 1]) == Higher(Scores(ranked), ranked[i].score) + {ranked[i].score}
  {
    var score := ranked[i].score;
    var above := Higher(Scores(ranked), score);
    forall s | s in Scores(ranked[..i + 1]) ensures s in above + {score} {
      var e :| e in ranked[..i + 1] && e.score == s;
      var j :| 0 <= j <= i && ranked[j] == e;
    }
    forall s | s in above ensures s in Scores(ranked[..i + 1]) {
      var e :| e in ranked && e.score == s;
      var j :| 0 <= j < |ranked| && ranked[j] == e;
      assert ranked[..i + 1][j] == e;
    }
    assert ranked[..i + 1][i].score == score;
  }

  /** The number of distinct scores up to a position is the dense rank there. */
  lemma RankIsPrefixCount<K>(ranked: seq<Entry<K>>, i: nat)
    requires i < |ranked| && Descending(ranked)
    ensures |Scores(ranked[..i + 1])| == DenseRank(Scores(ranked), ranked[i].score)
  {
    PrefixScores(ranked, i);
    assert ranked[i].score !in Higher(Scores(ranked), ranked[i].score);
  }

  /** Equal ranks mean equal scores and a better rank a higher score. */
  lemma RankOrdersScores(scores: set<real>, a: real, b: real)
    requires a in scores && b in scores
    ensures DenseRank(scores, a) == DenseRank(scores, b) <==> a == b
    ensures DenseRank(scores, a) < DenseRank(scores, b) <==> a > b
  {
    if a > b {
      HigherShrinks(scores, a, b);
    } else if b > a {
      HigherShrinks(scores, b, a);
    }
  }

  lemma HigherShrinks(scores: set<real>, a: real, b: real)
    requires a in scores && a > b
    ensures |Higher(scores, a)| < |Higher(scores, b)|
  {
    assert Higher(scores, a) + {a} <= Higher(scores, b);
    SubsetSize(Higher(scores, a) + {a}, Higher(scores, b));
  }

  /** The ranks handed out are exactly 1, ..., k for k distinct scores. */
  lemma {:induction false} RanksAreContiguous(scores: set<real>, rank: nat) returns (score: real)
    requires 1 <= rank <= |scores|
    ensures score in scores && DenseRank(scores, score) == rank
    decreases |scores|
  {
    var top := Highest(scores);
    if rank == 1 {
      score := top;
      assert Higher(scores, top) == {};
    } else {
      var rest := scores - {top};
      score := RanksAreContiguous(rest, rank - 1);
      assert Higher(scores, score) == Higher(rest, score) + {top};
    }
  }

  lemma RanksStayInRange(scores: set<real>, score: real)
    requires score in scores
    ensures 1 <= DenseRank(scores, score) <= |scores|
  {
    SubsetSize(Higher(scores, score), scores - {score});
  }

  lemma {:induction false} Highest(scores: set<real>) returns (top: real)
    requires |scores| > 0
    ensures top in scores && forall s :: s in scores ==> s <= top
    decreases |scores|
  {
    if forall x :: x !in scores {
      assert false;
    }
    var x :| x in scores;
    if scores == {x} {
      top := x;
    } else {
      var rest := scores - {x};
      assert scores == rest + {x} && rest != {};
      var y := Highest(rest);
      top := if x > y then x else y;
    }
  }

  // ---------------------------------------------------------------- sorting

  lemma InsertedStaysBelow<K>(top: Entry<K>, e: Entry<K>, tail: seq<Entry<K>>, rest: seq<Entry<K>>)
    requires multiset(rest) == multiset(tail) + multiset{e}
    requires top.score >= e.score && forall i :: 0 <= i < |tail| ==> top.score >= tail[i].score
    ensures forall i :: 0 <= i < |rest| ==> top.score >= rest[i].score
  {
    forall i | 0 <= i < |rest| ensures top.score >= rest[i].score {
      assert rest[i] in multiset(rest);
      assert rest[i] == e || rest[i] in multiset(tail);
    }
  }

  /** A stable sort by descending score. */
  function InsertByScore<K>(e: Entry<K>, sorted: seq<Entry<K>>): (r: seq<Entry<K>>)
    requires Descending(sorted)
    ensures Descending(r) && multiset(r) == multiset(sorted) + multiset{e}
  {
    if sorted == [] || e.score >= sorted[0].score then [e] + sorted
    else
      assert sorted == [sorted[0]] + sorted[1..];
      var rest := InsertByScore(e, sorted[1..]);
      InsertedStaysBelow(sorted[0], e, sorted[1..], rest);
      [sorted[0]] + rest
  }

  function SortByScore<K>(entries: seq<Entry<K>>): (r: seq<Entry<K>>)
    ensures Descending(r) && multiset(r) == multiset(entries)
  {
    if entries == [] then []
    else
      assert entries == [entries[0]] + entries[1..];
      InsertByScore(entries[0], SortByScore(entries[1..]))
  }

  lemma SortKeepsEntries<K>(entries: seq<Entry<K>>)
    requires DistinctKeys(entries)
    ensures DistinctKeys(SortByScore(entries))
    ensures Scores(SortByScore(entries)) == Scores(entries)
  {
    var r := SortByScore(entries);
    PermutationKeepsMembers(r, entries);
    PermutationKeepsDistinct(r, entries);
    assert forall s :: s in Scores(r) <==> s in Scores(entries);
  }

  lemma PermutationKeepsMembers<T>(a: seq<T>, b: seq<T>)
    requires multiset(a) == multiset(b)
    ensures forall x :: x in a <==> x in b
    ensures |a| == |b|
  {
    assert forall x :: x in a <==> x in multiset(a);
    assert forall x :: x in b <==> x in multiset(b);
    assert |multiset(a)| == |multiset(b)|;
  }

  lemma PermutationKeepsDistinct<K>(a: seq<Entry<K>>, b: seq<Entry<K>>)
    requires multiset(a) == multiset(b) && DistinctKeys(b)
    ensures DistinctKeys(a)
  {
    PermutationKeepsMembers(a, b);
    forall i, j | 0 <= i < j < |a| ensures a[i].key != a[j].key {
      if a[i].key == a[j].key {
        assert a[i] in b && a[j] in b;
        assert a[i] == a[j];
        assert a == a[..j] + [a[j]] + a[j + 1..];
        assert multiset(a[..j])[a[i]] >= 1;
        assert multiset(a)[a[i]] >= 2;
        OnceInDistinct(b, a[i]);
      }
    }
  }

  lemma {:induction false} OnceInDistinct<K>(b: seq<Entry<K>>, e: Entry<K>)
    requires DistinctKeys(b)
    ensures multiset(b)[e] <= 1
  {
    if b != [] {
      assert b == [b[0]] + b[1..];
      OnceInDistinct(b[1..], e);
      if b[0] == e && e in b[1..] {
        assert false;
      }
    }
  }

  // ---------------------------------------------------------------- sort, scan and look up

  /** The rank at one key during the scan. */
  method ScanForKey(ranked: seq<Entry<nat>>, key: nat) returns (rank: Option<nat>)
    requires Descending(ranked) && DistinctKeys(ranked)
    ensures forall i :: 0 <= i < |ranked| && ranked[i].key == key
              ==> rank == Some(DenseRank(Scores(ranked), ranked[i].score))
    ensures (forall i :: 0 <= i < |ranked| ==> ranked[i].key != key) ==> rank == None
  {
    rank := None;
    var denseRank := 0;
    var previous: Option<real> := None;
    for i := 0 to |ranked|
      invariant previous == if i == 0 then None else Some(ranked[i - 1].score)
      invariant denseRank == DistinctBefore(ranked, i)
      invariant forall j :: 0 <= j < i && ranked[j].key == key
                  ==> rank == Some(DenseRank(Scores(ranked), ranked[j].score))
      invariant (forall j :: 0 <= j < i ==> ranked[j].key != key) ==> rank == None
    {
      RankStep(ranked, i);
      var score := ranked[i].score;
      if previous == None || score != previous.value {
        denseRank := denseRank + 1;
      }
      if ranked[i].key == key {
        rank := Some(denseRank);
      }
      previous := Some(score);
    }
  }

  /** The ranks of all keys as a table. */
  method TableOfRanks(ranked: seq<Entry<nat>>, ranks: seq<nat>) returns (table: map<nat, nat>)
    requires DistinctKeys(ranked) && |ranks| == |ranked|
    ensures forall j :: 0 <= j < |ranked| ==> ranked[j].key in table && table[ranked[j].key] == ranks[j]
    ensures forall k :: k in table ==> exists j :: 0 <= j < |ranked| && ranked[j].key == k
  {
    table := map[];
    for i := 0 to |ranked|
      invariant forall j :: 0 <= j < i ==> ranked[j].key in table && table[ranked[j].key] == ranks[j]
      invariant forall k :: k in table ==> exists j :: 0 <= j < i && ranked[j].key == k
    {
      table := table[ranked[i].key := ranks[i]];
    }
  }

  lemma SameMember<T>(a: seq<T>, b: seq<T>, x: T)
    requires multiset(a) == multiset(b)
    ensures x in a <==> x in b
  {
    assert x in a <==> x in multiset(a);
    assert x in b <==> x in multiset(b);
  }

  lemma SortedPosition<K>(entries: seq<Entry<K>>, i: nat) returns (j: nat)
    requires i < |entries|
    ensures j < |SortByScore(entries)| && SortByScore(entries)[j] == entries[i]
  {
    SameMember(SortByScore(entries), entries, entries[i]);
    j :| 0 <= j < |SortByScore(entries)| && SortByScore(entries)[j] == entries[i];
  }

  lemma UnsortedPosition<K>(entries: seq<Entry<K>>, j: nat) returns (i: nat)
    requires j < |SortByScore(entries)|
    ensures i < |entries| && SortByScore(entries)[j] == entries[i]
  {
    var ranked := SortByScore(entries);
    SameMember(ranked, entries, ranked[j]);
    i :| 0 <= i < |entries| && ranked[j] == entries[i];
  }

  /** Exactly the keys of the entries, each with the dense rank of its score. */
  ghost predicate IsRankTable(entries: seq<Entry<nat>>, table: map<nat, nat>) {
    && (forall i :: 0 <= i < |entries| ==>
          && entries[i].key in table
          && table[entries[i].key] == DenseRank(Scores(entries), entries[i].score))
    && (forall k :: k in table ==> exists i :: 0 <= i < |entries| && entries[i].key == k)
  }

  /** Sorts the entries and stores the rank of every key. */
  method RankTable(entries: seq<Entry<nat>>) returns (table: map<nat, nat>)
    requires DistinctKeys(entries)
    ensures IsRankTable(entries, table)
  {
    var ranked := SortByScore(entries);
    SortKeepsEntries(entries);
    var ranks := AssignDenseRanks(ranked);
    table := TableOfRanks(ranked, ranks);
    forall i | 0 <= i < |entries|
      ensures entries[i].key in table && table[entries[i].key] == DenseRank(Scores(entries), entries[i].score)
    {
      var j := SortedPosition(entries, i);
    }
    forall k | k in table ensures exists i :: 0 <= i < |entries| && entries[i].key == k {
      var j :| 0 <= j < |ranked| && ranked[j].key == k;
      var i := UnsortedPosition(entries, j);
    }
  }

  /** Sorts the entries and finds the rank of one key. */
  method RankOfKey(entries: seq<Entry<nat>>, key: nat) returns (rank: Option<nat>)
    requires DistinctKeys(entries)
    ensures forall i :: 0 <= i < |entries| && entries[i].key == key
              ==> rank == Some(DenseRank(Scores(entries), entries[i].score))
    ensures (forall i :: 0 <= i < |entries| ==> entries[i].key != key) ==> rank == None
  {
    var ranked := SortByScore(entries);
    SortKeepsEntries(entries);
    rank := ScanForKey(ranked, key);
    forall i | 0 <= i < |entries| && entries[i].key == key
      ensures rank == Some(DenseRank(Scores(entries), entries[i].score))
    {
      var j := SortedPosition(entries, i);
    }
    forall j | 0 <= j < |ranked| ensures exists i :: 0 <= i < |entries| && entries[i].key == ranked[j].key {
      var i := UnsortedPosition(entries, j);
    }
  }
}
