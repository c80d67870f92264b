/**
  Selection of the top categories from a complete score table: the table's
  entries, in canonical order, go through a stable sort by descending score;
  the categories tied at the maximum with a positive score are kept, at most
  two of them, and when none scores positively the first sorted category is
  used instead.
*/
module Ranking {
  import opened Catalog

  /** Per-category tallies. */
  type Scores = map<Category, nat>

  /** A table that has a score for every category. */
  predicate Complete(scores: Scores) {
    forall c: Category :: c in scores
  }

  /** Two complete tables with the same scores are the same table. */
  lemma SameScores(s1: Scores, s2: Scores)
    requires Complete(s1) && Complete(s2)
    requires forall c :: s1[c] == s2[c]
    ensures s1 == s2
  {
    assert s1.Keys == s2.Keys;
  }

  /** A (category, score) pair, as the score table's items are. */
  type Entry = (Category, nat)

  /** The items of the score table for the categories cs, in that order. */
  function ItemsOf(cs: seq<Category>, scores: Scores): (r: seq<Entry>)
    requires Complete(scores)
    ensures |r| == |cs|
    ensures forall k :: 0 <= k < |cs| ==> r[k] == (cs[k], scores[cs[k]])
  {
    if cs == [] then [] else [(cs[0], scores[cs[0]])] + ItemsOf(cs[1..], scores)
  }

  /** The score table's items in insertion order R, I, A, S, E, C. */
  function Items(scores: Scores): seq<Entry>
    requires Complete(scores)
  {
    ItemsOf(Canonical, scores)
  }

  /** Every score in the list is at least the score of every later one. */
  predicate Descending(s: seq<Entry>) {
    forall i, j :: 0 <= i < j < |s| ==> s[i].1 >= s[j].1
  }

  /** Places x after the leading entries that score strictly more, so ties keep x first. */
  function Insert(x: Entry, t: seq<Entry>): (r: seq<Entry>)
    ensures multiset(r) == multiset(t) + multiset{x}
    ensures |r| == |t| + 1
    ensures r[0] == x || (t != [] && r[0] == t[0])
  {
    if t == [] then [x]
    else if t[0].1 > x.1 then
      assert t == [t[0]] + t[1..];
      [t[0]] + Insert(x, t[1..])
    else [x] + t
  }

  /** Inserting into a descending list keeps it descending. */
  lemma {:induction false} InsertDescending(x: Entry, t: seq<Entry>)
    requires Descending(t)
    ensures Descending(Insert(x, t))
  {
    if t != [] && t[0].1 > x.1 {
      InsertDescending(x, t[1..]);
      var rest := Insert(x, t[1..]);
      assert Insert(x, t) == [t[0]] + rest;
      assert forall k :: 0 <= k < |rest| ==> t[0].1 >= rest[k].1 by {
        forall k | 0 <= k < |rest| ensures t[0].1 >= rest[k].1 {
          assert rest[k] in multiset(rest);
          if rest[k] != x {
            assert rest[k] in multiset(t[1..]);
            var j :| 0 <= j < |t[1..]| && t[1..][j] == rest[k];
            assert t[0].1 >= t[j + 1].1;
          }
        }
      }
    }
  }

  /** A stable sort by descending score (Python's `sorted(..., reverse=True)`). */
  function SortDescending(s: seq<Entry>): (r: seq<Entry>)
    ensures multiset(r) == multiset(s)
    ensures |r| == |s|
    ensures Descending(r)
  {
    if s == [] then []
    else
      assert s == [s[0]] + s[1..];
      InsertDescending(s[0], SortDescending(s[1..]));
      Insert(s[0], SortDescending(s[1..]))
  }

  /** The categories of the entries whose score equals m and is positive, in list order. */
  function Pick(s: seq<Entry>, m: nat): (r: seq<Category>)
    ensures |r| <= |s|
    ensures m == 0 ==> r == []
    ensures forall k :: 0 <= k < |s| && s[k].1 == m && m > 0 ==> s[k].0 in r
  {
    if s == [] then []
    else (if s[0].1 == m && s[0].1 > 0 then [s[0].0] else []) + Pick(s[1..], m)
  }

  /** The entries whose score is m, in list order; unlike Pick, also for m == 0. */
  function WithScore(s: seq<Entry>, m: nat): (r: seq<Entry>)
    ensures |r| <= |s|
    ensures forall e :: e in r <==> e in s && e.1 == m
  {
    if s == [] then []
    else (if s[0].1 == m then [s[0]] else []) + WithScore(s[1..], m)
  }

  /** At most the first n elements (Python's slice `[:n]`). */
  function Take<T>(s: seq<T>, n: nat): (r: seq<T>)
    ensures |r| == if |s| <= n then |s| else n
    ensures forall k :: 0 <= k < |r| ==> r[k] == s[k]
  {
    if |s| <= n then s else s[..n]
  }

  /** The one or two top categories of a complete score table. */
  function TopTypes(scores: Scores): seq<Category>
    requires Complete(scores)
  {
    var sorted := SortDescending(Items(scores));
    var maxScore := sorted[0].1;
    var top := Take(Pick(sorted, maxScore), 2);
    if top != [] then top else [sorted[0].0]
  }

  // ---- Reference definitions ----

  /** The highest score among the categories cs. */
  function MaxOver(cs: seq<Category>, scores: Scores): (m: nat)
    requires Complete(scores)
    ensures forall k :: 0 <= k < |cs| ==> scores[cs[k]] <= m
    ensures cs != [] ==> exists k :: 0 <= k < |cs| && scores[cs[k]] == m
    ensures cs == [] ==> m == 0
  {
    if cs == [] then 0
    else
      var rest := MaxOver(cs[1..], scores);
      if scores[cs[0]] >= rest then scores[cs[0]] else rest
  }

  /** The highest score of the table. */
  function MaxScore(scores: Scores): nat
    requires Complete(scores)
  {
    MaxOver(Canonical, scores)
  }

  /** The categories among cs, in that order, whose score is m. */
  function ScoringExactly(cs: seq<Category>, scores: Scores, m: nat): (r: seq<Category>)
    requires Complete(scores)
    ensures forall c :: c in r ==> c in cs && scores[c] == m
    ensures forall c :: c in cs && scores[c] == m ==> c in r
  {
    if cs == [] then []
    else (if scores[cs[0]] == m then [cs[0]] else []) + ScoringExactly(cs[1..], scores, m)
  }

  // ---- Lemmas ----

  /** Insertion puts x ahead of the entries of t that share its score, and keeps their order, at every score. */
  lemma {:induction false} InsertStable(x: Entry, t: seq<Entry>, m: nat)
    ensures WithScore(Insert(x, t), m) == WithScore([x], m) + WithScore(t, m)
  {
    if t != [] && t[0].1 > x.1 {
      InsertStable(x, t[1..], m);
      assert Insert(x, t) == [t[0]] + Insert(x, t[1..]);
      WithScoreAppend([t[0]], Insert(x, t[1..]), m);
      assert t == [t[0]] + t[1..];
      WithScoreAppend([t[0]], t[1..], m);
    } else if t != [] {
      WithScoreAppend([x], t, m);
    } else {
      assert Insert(x, t) == [x];
    }
  }

  /** WithScore distributes over concatenation. */
  lemma {:induction false} WithScoreAppend(s: seq<Entry>, t: seq<Entry>, m: nat)
    ensures WithScore(s + t, m) == WithScore(s, m) + WithScore(t, m)
  {
    if s != [] {
      assert (s + t)[0] == s[0];
      assert (s + t)[1..] == s[1..] + t;
      WithScoreAppend(s[1..], t, m);
    } else {
      assert s + t == t;
    }
  }

  /** Pick distributes over concatenation. */
  lemma {:induction false} PickAppend(s: seq<Entry>, t: seq<Entry>, m: nat)
    ensures Pick(s + t, m) == Pick(s, m) + Pick(t, m)
  {
    if s != [] {
      assert (s + t)[0] == s[0];
      assert (s + t)[1..] == s[1..] + t;
      PickAppend(s[1..], t, m);
    } else {
      assert s + t == t;
    }
  }

  /** The sort is stable: at every score, 0 included, the entries with that score keep their input order. */
  lemma {:induction false} SortStable(s: seq<Entry>, m: nat)
    ensures WithScore(SortDescending(s), m) == WithScore(s, m)
  {
    if s != [] {
      SortStable(s[1..], m);
      InsertStable(s[0], SortDescending(s[1..]), m);
      assert s == [s[0]] + s[1..];
      WithScoreAppend([s[0]], s[1..], m);
    }
  }

  /** Picking at m only looks at the entries with score m. */
  lemma {:induction false} PickWithScore(s: seq<Entry>, m: nat)
    ensures Pick(WithScore(s, m), m) == Pick(s, m)
  {
    if s != [] {
      PickWithScore(s[1..], m);
      assert s == [s[0]] + s[1..];
      WithScoreAppend([s[0]], s[1..], m);
      PickAppend(WithScore([s[0]], m), WithScore(s[1..], m), m);
    }
  }

  /** Hence the sort does not reorder the categories picked at any score. */
  lemma SortPicksStable(s: seq<Entry>, m: nat)
    ensures Pick(SortDescending(s), m) == Pick(s, m)
  {
    SortStable(s, m);
    PickWithScore(SortDescending(s), m);
    PickWithScore(s, m);
  }

  /** A list whose scores are all equal is left as it is by the sort. */
  lemma {:induction false} SortAllEqual(s: seq<Entry>, m: nat)
    requires forall k :: 0 <= k < |s| ==> s[k].1 == m
    ensures SortDescending(s) == s
  {
    if s != [] {
      SortAllEqual(s[1..], m);
      assert s == [s[0]] + s[1..];
    }
  }

  /** Picking from the table's items at a positive score lists the categories with that score. */
  lemma {:induction false} PickItems(cs: seq<Category>, scores: Scores, m: nat)
    requires Complete(scores)
    ensures Pick(ItemsOf(cs, scores), m) == if m > 0 then ScoringExactly(cs, scores, m) else []
  {
    if cs != [] {
      PickItems(cs[1..], scores, m);
      assert ItemsOf(cs, scores)[1..] == ItemsOf(cs[1..], scores);
    }
  }

  /** The first sorted entry carries the highest score of the table. */
  lemma SortedHeadIsMax(scores: Scores)
    requires Complete(scores)
    ensures SortDescending(Items(scores))[0].1 == MaxScore(scores)
  {
    var items := Items(scores);
    var sorted := SortDescending(items);
    var m := MaxScore(scores);
    assert sorted[0] in multiset(items);
    var i :| 0 <= i < |items| && items[i] == sorted[0];
    var j :| 0 <= j < |Canonical| && scores[Canonical[j]] == m;
    assert items[j] in multiset(sorted);
    var k :| 0 <= k < |sorted| && sorted[k] == items[j];
    assert k == 0 || sorted[0].1 >= sorted[k].1;
  }

  /**
    The selection rule: with a positive maximum the top types are the first at most
    two categories, in canonical order, that reach it; with every score 0 they are [R].
  */
  lemma TopTypesSelection(scores: Scores)
    requires Complete(scores)
    ensures MaxScore(scores) > 0 ==>
      TopTypes(scores) == Take(ScoringExactly(Canonical, scores, MaxScore(scores)), 2)
    ensures MaxScore(scores) == 0 ==> TopTypes(scores) == [R]
  {
    if MaxScore(scores) > 0 {
      TopTypesPositive(scores);
    } else {
      TopTypesZero(scores);
    }
  }

  /** With a positive maximum, the top types are the first two categories reaching it. */
  lemma TopTypesPositive(scores: Scores)
    requires Complete(scores) && MaxScore(scores) > 0
    ensures TopTypes(scores) == Take(ScoringExactly(Canonical, scores, MaxScore(scores)), 2)
  {
    var m := MaxScore(scores);
    var sorted := SortDescending(Items(scores));
    var chosen := ScoringExactly(Canonical, scores, m);
    SortedHeadIsMax(scores);
    SortedPick(scores, m);
    assert Pick(sorted, sorted[0].1) == chosen;
    var j :| 0 <= j < |Canonical| && scores[Canonical[j]] == m;
    assert Canonical[j] in chosen;
    assert |Take(chosen, 2)| > 0;
  }

  /** With every score 0, the fallback gives [R]. */
  lemma TopTypesZero(scores: Scores)
    requires Complete(scores) && MaxScore(scores) == 0
    ensures TopTypes(scores) == [R]
  {
    SortedHeadIsMax(scores);
    SortedPick(scores, 0);
    ZeroSortedHead(scores);
  }

  /** Picking from the sorted items at a positive score lists the categories with that score, in canonical order. */
  lemma SortedPick(scores: Scores, m: nat)
    requires Complete(scores)
    ensures Pick(SortDescending(Items(scores)), m) == if m > 0 then ScoringExactly(Canonical, scores, m) else []
  {
    SortPicksStable(Items(scores), m);
    PickItems(Canonical, scores, m);
  }

  /** When nothing scores, the sort leaves R first. */
  lemma ZeroSortedHead(scores: Scores)
    requires Complete(scores) && MaxScore(scores) == 0
    ensures SortDescending(Items(scores))[0].0 == R
  {
    var items := Items(scores);
    assert forall k :: 0 <= k < |items| ==> items[k].1 == scores[Canonical[k]];
    SortAllEqual(items, 0);
  }

  /** No element occurs twice. */
  predicate Distinct<T(==)>(s: seq<T>) {
    forall i, j :: 0 <= i < j < |s| ==> s[i] != s[j]
  }

  /** The canonical order lists each category once. */
  lemma CanonicalDistinct()
    ensures Distinct(Canonical)
    ensures forall c: Category :: c in Canonical
  {
    forall c: Category ensures c in Canonical {
      match c
      case R => assert Canonical[0] == c;
      case I => assert Canonical[1] == c;
      case A => assert Canonical[2] == c;
      case S => assert Canonical[3] == c;
      case E => assert Canonical[4] == c;
      case C => assert Canonical[5] == c;
    }
  }

  /** Filtering the canonical order never repeats a category. */
  lemma {:induction false} ScoringExactlyDistinct(cs: seq<Category>, scores: Scores, m: nat)
    requires Complete(scores)
    requires Distinct(cs)
    ensures Distinct(ScoringExactly(cs, scores, m))
  {
    if cs != [] {
      ScoringExactlyDistinct(cs[1..], scores, m);
      var rest := ScoringExactly(cs[1..], scores, m);
      assert cs[0] !in cs[1..];
      assert cs[0] !in rest;
    }
  }

  /** There are one or two top types. */
  lemma TopTypesSize(scores: Scores)
    requires Complete(scores)
    ensures 1 <= |TopTypes(scores)| <= 2
  {
    TopTypesSelection(scores);
    var m := MaxScore(scores);
    if m > 0 {
      var j :| 0 <= j < |Canonical| && scores[Canonical[j]] == m;
      assert Canonical[j] in ScoringExactly(Canonical, scores, m);
    }
  }

  /** No category is a top type twice. */
  lemma TopTypesDistinct(scores: Scores)
    requires Complete(scores)
    ensures Distinct(TopTypes(scores))
  {
    TopTypesSelection(scores);
    var m := MaxScore(scores);
    if m > 0 {
      var tied := ScoringExactly(Canonical, scores, m);
      CanonicalDistinct();
      ScoringExactlyDistinct(Canonical, scores, m);
    }
  }

  /** Every top type reaches the maximum score, also in the all-zero fallback. */
  lemma TopTypesAtMax(scores: Scores)
    requires Complete(scores)
    ensures forall c :: c in TopTypes(scores) ==> scores[c] == MaxScore(scores)
  {
    TopTypesSelection(scores);
    var m := MaxScore(scores);
    var top := TopTypes(scores);
    if m > 0 {
      var tied := ScoringExactly(Canonical, scores, m);
      assert forall c :: c in top ==> c in tied;
    } else {
      assert scores[Canonical[0]] <= m;
    }
  }
}
