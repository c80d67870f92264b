/**
  Submissions answered "B" throughout: they leave the tally at zero, and the
  all-"B" questionnaire reports the fallback top type R.
*/
module Scenarios {
  import opened Catalog
  import opened Ranking
  import opened Scoring

  /** Valid "B" answers appended to a submission leave its scores as they were. */
  lemma {:induction false} DisagreeingSuffix(s: seq<Answer>, t: seq<Answer>)
    requires AllValid(t)
    requires forall k :: 0 <= k < |t| ==> t[k].choice == "B"
    ensures ScoresOf(s + t) == ScoresOf(s)
  {
    if t != [] {
      var init := t[..|t| - 1];
      var b := t[|t| - 1];
      assert AllValid(init) by {
        forall k | 0 <= k < |init| ensures Check(init[k]).None? {
          assert init[k] == t[k];
        }
      }
      DisagreeingSuffix(s, init);
      assert t == init + [b];
      assert s + t == (s + init) + [b];
      assert Check(b).None? && b.choice == "B";
      DisagreeStep(s + init, b);
      assert ScoresOf(s + t) == ScoresOf(s + init);
    } else {
      assert s + t == s;
    }
  }

  /** "B" to every question from `from` to 12, in id order. */
  function Disagreeing(from: int): (r: seq<Answer>)
    requires 1 <= from <= 13
    ensures AllValid(r)
    ensures forall k :: 0 <= k < |r| ==> r[k].choice == "B"
  {
    seq(13 - from, k requires 0 <= k < 13 - from => Answer(from + k, "B"))
  }

  /** The report of valid answers, from their scores and their top types. */
  lemma ReportFromScores(answers: seq<Answer>, scores: Scores, top: seq<Category>)
    requires AllValid(answers) && ScoresOf(answers) == scores && TopTypes(scores) == top
    requires Distinct(top) && 1 <= |top| <= 2
    ensures Expected(answers) == Report(scores, top, CareerPool(top), Summary(top))
  {
    CareersOfTopTypes(top);
  }

  /** Twelve "B" answers leave the tally at the initial all-zero table. */
  lemma DisagreeingScoresZero()
    ensures ScoresOf(Disagreeing(1)) == ZeroScores()
  {
    var answers := Disagreeing(1);
    DisagreeingSuffix([], answers);
    assert [] + answers == answers;
    EmptyTally();
  }

  /** The all-zero table falls back to the single top type R. */
  lemma ZeroTopTypes()
    ensures TopTypes(ZeroScores()) == [R]
  {
    var zero := ZeroScores();
    assert Canonical != [];
    var j :| 0 <= j < |Canonical| && zero[Canonical[j]] == MaxScore(zero);
    TopTypesZero(zero);
  }

  /** R's shortlist, written out. */
  lemma RealisticShortlist()
    ensures CareerPool([R]) == ["Mechanical Engineer", "Electrician", "Carpenter"]
  {
    assert [R][..0] == [];
  }

  /** All twelve answered "B": all-zero scores, top type R, R's first three careers and R's sentence. */
  lemma AllDisagree()
    ensures var rep := Expected(Disagreeing(1));
      && rep.scores == ZeroScores()
      && rep.topTypes == [R]
      && rep.careers == ["Mechanical Engineer", "Electrician", "Carpenter"]
      && rep.summary == SummaryBlurb(R)
  {
    DisagreeingScoresZero();
    ZeroTopTypes();
    ReportFromScores(Disagreeing(1), ZeroScores(), [R]);
    SummaryOfTopTypes([R]);
    RealisticShortlist();
  }
}
