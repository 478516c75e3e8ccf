/** The leaderboard kept between rounds: an ordered table from player name to best score and
    the difficulty it was set at. Only the in-memory merge, sort and truncation are modelled;
    the table file is represented by the sequence of its entries in file order. */
module HighScores {

  /** At most this many entries are kept. */
  const TableSize: nat := 7

  datatype Entry = Entry(name: string, score: int, difficulty: string)

  predicate SortedByScore(s: seq<Entry>) {
    forall i, j :: 0 <= i < j < |s| ==> s[i].score >= s[j].score
  }

  /** A table is a dictionary: no name occurs twice. */
  predicate DistinctNames(s: seq<Entry>) {
    forall i, j :: 0 <= i < j < |s| ==> s[i].name != s[j].name
  }

  /** The entries whose score is v, in table order. */
  function WithScore(s: seq<Entry>, v: int): seq<Entry>
    decreases |s|
  {
    if s == [] then []
    else (if s[0].score == v then [s[0]] else []) + WithScore(s[1..], v)
  }

  lemma {:induction false} WithScoreAppend(s: seq<Entry>, t: seq<Entry>, v: int)
    ensures WithScore(s + t, v) == WithScore(s, v) + WithScore(t, v)
    decreases |s|
  {
    if s != [] {
      assert (s + t)[1..] == s[1..] + t;
      WithScoreAppend(s[1..], t, v);
    } else {
      assert s + t == t;
    }
  }

  // ---------------------------------------------------------------------------
  // Stable sort by descending score

  /** Puts e in front of the first entry that does not outscore it. */
  function Insert(e: Entry, t: seq<Entry>): (r: seq<Entry>)
    ensures |r| == |t| + 1
    ensures r[0] == e || (t != [] && r[0] == t[0])
    decreases |t|
  {
    if t == [] || e.score >= t[0].score then [e] + t
    else [t[0]] + Insert(e, t[1..])
  }

  /** Insertion adds exactly e. */
  lemma {:induction false} InsertPermutes(e: Entry, t: seq<Entry>)
    ensures multiset(Insert(e, t)) == multiset([e] + t)
    decreases |t|
  {
    if !(t == [] || e.score >= t[0].score) {
      InsertPermutes(e, t[1..]);
      assert t == [t[0]] + t[1..];
    }
  }

  lemma {:induction false} InsertKeepsSorted(e: Entry, t: seq<Entry>)
    requires SortedByScore(t)
    ensures SortedByScore(Insert(e, t))
    decreases |t|
  {
    if !(t == [] || e.score >= t[0].score) {
      var rest := Insert(e, t[1..]);
      InsertKeepsSorted(e, t[1..]);
      assert t[0].score >= rest[0].score;
      var r := [t[0]] + rest;
      forall i, j | 0 <= i < j < |r| ensures r[i].score >= r[j].score {
        if i > 0 {
          assert r[i] == rest[i - 1] && r[j] == rest[j - 1];
        } else {
          assert r[j] == rest[j - 1];
        }
      }
    }
  }

  /** Insertion sort by descending score. Entries with equal scores keep their order, as
      they do under a stable sort in reverse order. */
  function SortByScore(s: seq<Entry>): (r: seq<Entry>)
    ensures |r| == |s|
    decreases |s|
  {
    if s == [] then [] else Insert(s[0], SortByScore(s[1..]))
  }

  /** The sorted table holds the same entries as the input ... */
  lemma {:induction false} SortPermutes(s: seq<Entry>)
    ensures multiset(SortByScore(s)) == multiset(s)
    decreases |s|
  {
    if s != [] {
      SortPermutes(s[1..]);
      InsertPermutes(s[0], SortByScore(s[1..]));
      assert s == [s[0]] + s[1..];
    }
  }

  /** ... in descending order of score. */
  lemma {:induction false} SortSorts(s: seq<Entry>)
    ensures SortedByScore(SortByScore(s))
    decreases |s|
  {
    if s != [] {
      SortSorts(s[1..]);
      InsertKeepsSorted(s[0], SortByScore(s[1..]));
    }
  }

  lemma {:induction false} WithScoreCons(x: Entry, s: seq<Entry>, v: int)
    ensures WithScore([x] + s, v) == (if x.score == v then [x] else []) + WithScore(s, v)
  {
    assert ([x] + s)[1..] == s;
  }

  lemma {:induction false} InsertWithScore(e: Entry, t: seq<Entry>, v: int)
    requires SortedByScore(t)
    ensures WithScore(Insert(e, t), v) == (if e.score == v then [e] else []) + WithScore(t, v)
    decreases |t|
  {
    if t == [] || e.score >= t[0].score {
      WithScoreCons(e, t, v);
    } else {
      var rest := Insert(e, t[1..]);
      assert Insert(e, t) == [t[0]] + rest;
      assert SortedByScore(t[1..]);
      InsertWithScore(e, t[1..], v);
      WithScoreCons(t[0], rest, v);
      WithScoreCons(t[0], t[1..], v);
      assert t == [t[0]] + t[1..];
    }
  }

  /** Stability: for every score, the entries with that score appear in the sorted table in
      the same order as in the input. */
  lemma {:induction false} SortIsStable(s: seq<Entry>, v: int)
    ensures WithScore(SortByScore(s), v) == WithScore(s, v)
    decreases |s|
  {
    if s != [] {
      SortIsStable(s[1..], v);
      SortSorts(s[1..]);
      InsertWithScore(s[0], SortByScore(s[1..]), v);
      assert s == [s[0]] + s[1..];
      WithScoreAppend([s[0]], s[1..], v);
    }
  }

  lemma SortedTail(s: seq<Entry>)
    requires SortedByScore(s) && s != []
    ensures SortedByScore(s[1..])
    ensures |s| == 1 || s[0].score >= s[1..][0].score
  {
    var tail := s[1..];
    forall i, j | 0 <= i < j < |tail| ensures tail[i].score >= tail[j].score {
      assert tail[i] == s[i + 1] && tail[j] == s[j + 1];
    }
  }

  /** Sorting a table that is already in order changes nothing. */
  lemma {:induction false} SortSortedIsIdentity(s: seq<Entry>)
    requires SortedByScore(s)
    ensures SortByScore(s) == s
    decreases |s|
  {
    if s != [] {
      var tail := s[1..];
      SortedTail(s);
      SortSortedIsIdentity(tail);
      assert SortByScore(s) == Insert(s[0], tail);
      assert s == [s[0]] + tail;
    }
  }

  // ---------------------------------------------------------------------------
  // Truncation, loading and recording

  function Top(s: seq<Entry>): (r: seq<Entry>)
    ensures |r| <= TableSize
    ensures |r| == if |s| < TableSize then |s| else TableSize
    ensures r == s[..|r|]
  {
    if |s| <= TableSize then s else s[..TableSize]
  }

  /** The table as read back: the file's entries sorted by descending score, top 7 kept. */
  function LoadHighScores(file: seq<Entry>): (r: seq<Entry>)
    ensures |r| <= TableSize && SortedByScore(r)
    ensures multiset(r) <= multiset(file)
    ensures |file| >= TableSize ==> |r| == TableSize
  {
    var sorted := SortByScore(file);
    SortSorts(file);
    SortPermutes(file);
    assert sorted == Top(sorted) + sorted[|Top(sorted)|..];
    Top(sorted)
  }

  /** Whether the table has an entry for `name`, and where. */
  function IndexOf(s: seq<Entry>, name: string): (r: int)
    ensures -1 <= r < |s|
    ensures r >= 0 ==> s[r].name == name
    ensures r < 0 ==> forall i :: 0 <= i < |s| ==> s[i].name != name
    decreases |s|
  {
    if s == [] then -1
    else if s[|s| - 1].name == name then |s| - 1
    else IndexOf(s[..|s| - 1], name)
  }

  /** A new result for `name`: an existing entry is replaced, in place, only by a strictly
      higher score; a new name is appended at the end. */
  function Record(table: seq<Entry>, name: string, score: int, difficulty: string): (r: seq<Entry>)
    ensures var i := IndexOf(table, name);
            if i < 0 then r == table + [Entry(name, score, difficulty)]
            else |r| == |table| && (forall j :: 0 <= j < |table| && j != i ==> r[j] == table[j])
                 && r[i] == (if score > table[i].score then Entry(name, score, difficulty) else table[i])
  {
    var i := IndexOf(table, name);
    if i < 0 then table + [Entry(name, score, difficulty)]
    else if score > table[i].score then table[i := Entry(name, score, difficulty)]
    else table
  }

  /** What is written back after a round: the loaded table with the result recorded,
      sorted by descending score and cut to the top 7. */
  function SaveHighScore(file: seq<Entry>, name: string, score: int, difficulty: string): (written: seq<Entry>)
    ensures |written| <= TableSize && SortedByScore(written)
  {
    var recorded := Record(LoadHighScores(file), name, score, difficulty);
    SortSorts(recorded);
    Top(SortByScore(recorded))
  }

  // ---------------------------------------------------------------------------
  // Properties of the leaderboard

  lemma {:induction false} RecordKeepsNamesDistinct(table: seq<Entry>, name: string, score: int, difficulty: string)
    requires DistinctNames(table)
    ensures DistinctNames(Record(table, name, score, difficulty))
  {
  }

  /** The entry recorded for `name` holds the better of the old and the new score, and the
      difficulty that goes with it; every other entry is untouched. */
  lemma {:induction false} RecordKeepsBest(table: seq<Entry>, name: string, score: int, difficulty: string, prior: Entry)
    requires prior in table && prior.name == name && DistinctNames(table)
    ensures var r := Record(table, name, score, difficulty);
            && IndexOf(r, name) >= 0
            && r[IndexOf(r, name)].score == (if score > prior.score then score else prior.score)
            && r[IndexOf(r, name)] == (if score > prior.score then Entry(name, score, difficulty) else prior)
            && forall e :: e in table && e.name != name ==> e in r
  {
    var r := Record(table, name, score, difficulty);
    var i := IndexOf(table, name);
    var k :| 0 <= k < |table| && table[k] == prior;
    assert k == i;
    RecordKeepsNamesDistinct(table, name, score, difficulty);
    var m := IndexOf(r, name);
    assert m == i;
    forall e | e in table && e.name != name ensures e in r {
      var j :| 0 <= j < |table| && table[j] == e;
      assert r[j] == e;
    }
  }

  /** No entry of s carries the name n. */
  predicate NameFree(s: seq<Entry>, n: string) {
    forall i :: 0 <= i < |s| ==> s[i].name != n
  }

  lemma DistinctCons(x: Entry, s: seq<Entry>)
    requires DistinctNames(s) && NameFree(s, x.name)
    ensures DistinctNames([x] + s)
  {
    var r := [x] + s;
    forall i, j | 0 <= i < j < |r| ensures r[i].name != r[j].name {
      assert r[j] == s[j - 1];
      if i > 0 {
        assert r[i] == s[i - 1];
      }
    }
  }

  lemma {:induction false} InsertKeepsNamesDistinct(e: Entry, t: seq<Entry>)
    requires DistinctNames(t) && NameFree(t, e.name)
    ensures DistinctNames(Insert(e, t))
    decreases |t|
  {
    if t == [] || e.score >= t[0].score {
      assert Insert(e, t) == [e] + t;
      DistinctCons(e, t);
    } else {
      var tail := t[1..];
      var rest := Insert(e, tail);
      assert Insert(e, t) == [t[0]] + rest;
      assert DistinctNames(tail) && NameFree(tail, e.name);
      InsertKeepsNamesDistinct(e, tail);
      InsertPermutes(e, tail);
      forall i | 0 <= i < |rest| ensures rest[i].name != t[0].name {
        assert rest[i] in multiset([e] + tail);
      }
      DistinctCons(t[0], rest);
    }
  }

  lemma {:induction false} SortKeepsNamesDistinct(s: seq<Entry>)
    requires DistinctNames(s)
    ensures DistinctNames(SortByScore(s))
    decreases |s|
  {
    if s != [] {
      var t := SortByScore(s[1..]);
      SortKeepsNamesDistinct(s[1..]);
      SortPermutes(s[1..]);
      forall i | 0 <= i < |t| ensures t[i].name != s[0].name {
        assert t[i] in multiset(s[1..]);
      }
      InsertKeepsNamesDistinct(s[0], t);
    }
  }

  lemma {:induction false} LoadKeepsNamesDistinct(file: seq<Entry>)
    requires DistinctNames(file)
    ensures DistinctNames(LoadHighScores(file))
  {
    SortKeepsNamesDistinct(file);
  }

  /** After saving, the table holds distinct names, and if `name` is still among the top 7
      its score is the better of the one it held before and the new one. */
  lemma {:induction false} SaveKeepsBest(file: seq<Entry>, name: string, score: int, difficulty: string, prior: Entry, e: Entry)
    requires DistinctNames(file)
    requires prior in LoadHighScores(file) && prior.name == name
    requires e in SaveHighScore(file, name, score, difficulty) && e.name == name
    ensures e.score == (if score > prior.score then score else prior.score)
    ensures e == (if score > prior.score then Entry(name, score, difficulty) else prior)
  {
    var loaded := LoadHighScores(file);
    LoadKeepsNamesDistinct(file);
    var recorded := Record(loaded, name, score, difficulty);
    RecordKeepsBest(loaded, name, score, difficulty, prior);
    RecordKeepsNamesDistinct(loaded, name, score, difficulty);
    var sorted := SortByScore(recorded);
    var written := Top(sorted);
    SortPermutes(recorded);
    assert e in multiset(recorded) by {
      assert e in sorted;
    }
    var k :| 0 <= k < |recorded| && recorded[k] == e;
    assert k == IndexOf(recorded, name);
  }

  /** Saving writes only entries of the recorded table: the loaded entries and the new one. */
  lemma SaveKeepsRecorded(file: seq<Entry>, name: string, score: int, difficulty: string)
    ensures multiset(SaveHighScore(file, name, score, difficulty))
         <= multiset(Record(LoadHighScores(file), name, score, difficulty))
  {
    var recorded := Record(LoadHighScores(file), name, score, difficulty);
    var sorted := SortByScore(recorded);
    SortPermutes(recorded);
    assert sorted == Top(sorted) + sorted[|Top(sorted)|..];
  }

  /** A newcomer tied with entries already in the table goes after all of them. */
  lemma {:induction false} NewcomerBehindTies(table: seq<Entry>, name: string, score: int, difficulty: string)
    requires IndexOf(table, name) < 0
    ensures WithScore(SortByScore(Record(table, name, score, difficulty)), score)
         == WithScore(table, score) + [Entry(name, score, difficulty)]
  {
    var n := Entry(name, score, difficulty);
    var recorded := Record(table, name, score, difficulty);
    assert recorded == table + [n];
    SortIsStable(recorded, score);
    WithScoreAppend(table, [n], score);
    WithScoreCons(n, [], score);
    assert [n] + [] == [n];
  }

  /** Reading back what was saved gives the same table. */
  lemma {:induction false} LoadAfterSave(file: seq<Entry>, name: string, score: int, difficulty: string)
    ensures LoadHighScores(SaveHighScore(file, name, score, difficulty))
         == SaveHighScore(file, name, score, difficulty)
  {
    var written := SaveHighScore(file, name, score, difficulty);
    SortSortedIsIdentity(written);
  }

  /** An entry that was cut is not better than any kept one. */
  lemma {:induction false} DroppedNotBetter(file: seq<Entry>, name: string, score: int, difficulty: string, e: Entry)
    requires e in Record(LoadHighScores(file), name, score, difficulty)
    requires e !in SaveHighScore(file, name, score, difficulty)
    ensures |SaveHighScore(file, name, score, difficulty)| == TableSize
    ensures forall kept :: kept in SaveHighScore(file, name, score, difficulty) ==> kept.score >= e.score
  {
    var recorded := Record(LoadHighScores(file), name, score, difficulty);
    SortPermutes(recorded);
    SortSorts(recorded);
    assert e in multiset(SortByScore(recorded));
    CutNotBetter(SortByScore(recorded), e);
  }

  /** Loading keeps the best: an entry of the file that is not loaded scores no more than
      any of the seven that are. */
  lemma {:induction false} LoadDropsNotBetter(file: seq<Entry>, e: Entry)
    requires e in file && e !in LoadHighScores(file)
    ensures |LoadHighScores(file)| == TableSize
    ensures forall kept :: kept in LoadHighScores(file) ==> kept.score >= e.score
  {
    SortPermutes(file);
    SortSorts(file);
    assert e in multiset(SortByScore(file));
    CutNotBetter(SortByScore(file), e);
  }

  /** Cutting a sorted list to the table size drops only entries that score no more than
      every entry kept. */
  lemma CutNotBetter(sorted: seq<Entry>, e: Entry)
    requires SortedByScore(sorted) && e in sorted && e !in Top(sorted)
    ensures |Top(sorted)| == TableSize
    ensures forall kept :: kept in Top(sorted) ==> kept.score >= e.score
  {
    var written := Top(sorted);
    var k :| 0 <= k < |sorted| && sorted[k] == e;
    assert k >= |written|;
    forall kept | kept in written ensures kept.score >= e.score {
      var j :| 0 <= j < |written| && written[j] == kept;
      assert sorted[j] == kept;
    }
  }


  /** Recording 50 and then 30 for the same player keeps 50. */
  lemma BestOfTwoRounds()
    ensures SaveHighScore(SaveHighScore([], "Ann", 50, "Easy"), "Ann", 30, "Easy")
         == [Entry("Ann", 50, "Easy")]
  {
    var first := SaveHighScore([], "Ann", 50, "Easy");
    assert LoadHighScores([]) == [];
    assert Record([], "Ann", 50, "Easy") == [Entry("Ann", 50, "Easy")];
    assert first == [Entry("Ann", 50, "Easy")];
    LoadAfterSave([], "Ann", 50, "Easy");
    assert IndexOf(first, "Ann") == 0;
    assert Record(first, "Ann", 30, "Easy") == first;
    SortSortedIsIdentity(first);
  }
}
