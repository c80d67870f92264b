/**
  The assessment: validation of the submitted answers, the per-category tally,
  the career suggestions and summary derived from the top types, and the
  result handed to (and returned independently of) the document store.
*/
module Scoring {
  import opened Wrappers
  import opened Catalog
  import opened Ranking

  /** One submitted answer: a question id and the chosen option. */
  datatype Answer = Answer(questionId: int, choice: string)

  /** The two ways a submission is refused (both reported as a client error). */
  datatype AssessError = InvalidQuestionId(id: int) | InvalidChoice

  /** An answer's error, if any: an id outside the catalog's 1 to 12, else a choice other than "A" or "B". */
  function Check(a: Answer): Option<AssessError> {
    if !(1 <= a.questionId <= 12) then Some(InvalidQuestionId(a.questionId))
    else if a.choice == "A" || a.choice == "B" then None
    else Some(InvalidChoice)
  }

  /**
    Check is the handler's test: the id is looked up in the catalog first, and
    only an answer to a catalog question has its choice examined.
  */
  lemma CheckIsLookupThenChoice(a: Answer)
    ensures Lookup(a.questionId).None? ==> Check(a) == Some(InvalidQuestionId(a.questionId))
    ensures Lookup(a.questionId).Some? ==>
      Check(a) == if a.choice == "A" || a.choice == "B" then None else Some(InvalidChoice)
  {
    LookupAgrees(a.questionId);
  }

  /** Every answer passes both checks. */
  predicate AllValid(answers: seq<Answer>) {
    forall k :: 0 <= k < |answers| ==> Check(answers[k]).None?
  }

  /** A valid list stays valid when a valid answer is appended. */
  lemma AllValidAppend(answers: seq<Answer>, a: Answer)
    requires AllValid(answers) && Check(a).None?
    ensures AllValid(answers + [a])
  {
    var s := answers + [a];
    forall k | 0 <= k < |s| ensures Check(s[k]).None? {
      if k < |answers| {
        assert s[k] == answers[k];
      }
    }
  }

  // ---- Tally ----

  /** What one answer adds to category c: 1 for choice "A" on a question of category c. */
  function Points(a: Answer, c: Category): (n: nat)
    ensures n <= 1
  {
    if 1 <= a.questionId <= 12 && a.choice == "A" && CategoryOf(a.questionId) == c then 1 else 0
  }

  /** The number of answers choosing "A" on a question of category c. */
  function Count(answers: seq<Answer>, c: Category): (n: nat)
    ensures n <= |answers|
  {
    if answers == [] then 0
    else Count(answers[..|answers| - 1], c) + Points(answers[|answers| - 1], c)
  }

  /** The number of answers choosing "A". */
  function Agreed(answers: seq<Answer>): (n: nat)
    ensures n <= |answers|
  {
    if answers == [] then 0
    else Agreed(answers[..|answers| - 1]) + (if answers[|answers| - 1].choice == "A" then 1 else 0)
  }

  /** The score table the answers produce: every category with its count. */
  function ScoresOf(answers: seq<Answer>): (scores: Scores)
    ensures Complete(scores)
    ensures forall c :: scores[c] == Count(answers, c)
  {
    map c: Category :: Count(answers, c)
  }

  /** The initial table: all six categories, each at 0. */
  function ZeroScores(): (scores: Scores)
    ensures Complete(scores)
    ensures forall c :: scores[c] == 0
  {
    CanonicalDistinct();
    map c | c in Canonical :: 0
  }

  /** No answers, no points: the tally starts from the zero table. */
  lemma EmptyTally()
    ensures ScoresOf([]) == ZeroScores()
  {
  }

  /** The sum of the six scores. */
  function Total(scores: Scores): nat
    requires Complete(scores)
  {
    scores[R] + scores[I] + scores[A] + scores[S] + scores[E] + scores[C]
  }

  /** One more answer adds its points to each category's count. */
  lemma CountStep(answers: seq<Answer>, a: Answer, c: Category)
    ensures Count(answers + [a], c) == Count(answers, c) + Points(a, c)
  {
    var s := answers + [a];
    assert s[..|s| - 1] == answers;
  }

  /** A valid answer with choice "A" adds 1 to its question's category and changes nothing else. */
  lemma AgreeStep(answers: seq<Answer>, a: Answer)
    requires Check(a).None? && a.choice == "A"
    ensures var before := ScoresOf(answers);
            var cat := CategoryOf(a.questionId);
            ScoresOf(answers + [a]) == before[cat := before[cat] + 1]
  {
    var before := ScoresOf(answers);
    var after := ScoresOf(answers + [a]);
    var cat := CategoryOf(a.questionId);
    var expected := before[cat := before[cat] + 1];
    forall c: Category ensures after[c] == expected[c] {
      CountStep(answers, a, c);
    }
    SameScores(after, expected);
  }

  /** A valid answer with choice "B" leaves the score table unchanged. */
  lemma DisagreeStep(answers: seq<Answer>, a: Answer)
    requires Check(a).None? && a.choice == "B"
    ensures ScoresOf(answers + [a]) == ScoresOf(answers)
  {
    var before := ScoresOf(answers);
    var after := ScoresOf(answers + [a]);
    forall c: Category ensures after[c] == before[c] {
      CountStep(answers, a, c);
    }
    SameScores(after, before);
  }

  /** For valid answers the scores add up to the number of "A" answers. */
  lemma {:induction false} TotalIsAgreed(answers: seq<Answer>)
    requires AllValid(answers)
    ensures Total(ScoresOf(answers)) == Agreed(answers)
    ensures Total(ScoresOf(answers)) <= |answers|
  {
    if answers != [] {
      var init := answers[..|answers| - 1];
      var a := answers[|answers| - 1];
      assert AllValid(init) by {
        forall k | 0 <= k < |init| ensures Check(init[k]).None? {
          assert init[k] == answers[k];
        }
      }
      TotalIsAgreed(init);
      assert answers == init + [a];
      assert Check(a).None?;
      var before := ScoresOf(init);
      var after := ScoresOf(answers);
      forall c: Category ensures after[c] == before[c] + Points(a, c) {
        CountStep(init, a, c);
      }
    }
  }

  /**
    Looks up an answer's question and checks its choice, in that order; on
    success it gives the category that choice "A" would score.
  */
  method Validate(ans: Answer) returns (r: Result<Category, AssessError>)
    ensures r.Failure? <==> Check(ans).Some?
    ensures r.Failure? ==> Check(ans) == Some(r.error)
    ensures r.Success? ==> 1 <= ans.questionId <= 12 && r.value == CategoryOf(ans.questionId)
  {
    var q := Lookup(ans.questionId);
    LookupAgrees(ans.questionId);
    if q.None? {
      return Failure(InvalidQuestionId(ans.questionId));
    }
    if ans.choice != "A" && ans.choice != "B" {
      return Failure(InvalidChoice);
    }
    return Success(q.value.category);
  }

  /** One more accepted answer keeps the prefix accepted and adds its points to every count. */
  lemma TallyStep(answers: seq<Answer>, i: nat)
    requires i < |answers| && AllValid(answers[..i]) && Check(answers[i]).None?
    ensures AllValid(answers[..i + 1])
    ensures forall c :: Count(answers[..i + 1], c) == Count(answers[..i], c) + Points(answers[i], c)
  {
    assert answers[..i + 1] == answers[..i] + [answers[i]];
    AllValidAppend(answers[..i], answers[i]);
    forall c ensures Count(answers[..i + 1], c) == Count(answers[..i], c) + Points(answers[i], c) {
      CountStep(answers[..i], answers[i], c);
    }
  }

  /**
    Validates the answers in input order and tallies the "A" choices. The error,
    if any, is that of the first answer that fails a check.
  */
  method Tally(answers: seq<Answer>) returns (r: Result<Scores, AssessError>)
    ensures r.Success? <==> AllValid(answers)
    ensures r.Success? ==> r.value == ScoresOf(answers)
    ensures r.Failure? ==>
      exists k :: 0 <= k < |answers| && AllValid(answers[..k]) && Check(answers[k]) == Some(r.error)
  {
    var scores := ZeroScores();
    assert answers[..0] == [];
    var i := 0;
    while i < |answers|
      invariant 0 <= i <= |answers|
      invariant AllValid(answers[..i])
      invariant Complete(scores)
      invariant forall c :: scores[c] == Count(answers[..i], c)
    {
      var ans := answers[i];
      var checked := Validate(ans);
      if checked.Failure? {
        return Failure(checked.error);
      }
      var cat := checked.value;
      TallyStep(answers, i);
      if ans.choice == "A" {
        scores := scores[cat := scores[cat] + 1];
      }
      i := i + 1;
    }
    assert answers[..i] == answers;
    SameScores(scores, ScoresOf(answers));
    return Success(scores);
  }

  // ---- Career suggestions ----

  /** The first three career titles of a category. */
  function Shortlist(c: Category): (r: seq<string>)
    ensures |r| == 3 && r == CareerMap(c)[..3]
  {
    Take(CareerMap(c), 3)
  }

  /** The shortlists of the top types, concatenated in order. */
  function CareerPool(top: seq<Category>): (r: seq<string>)
    ensures |r| == 3 * |top|
    ensures forall x :: x in r ==> exists t :: t in top && x in Shortlist(t)
  {
    if top == [] then []
    else
      var init := top[..|top| - 1];
      var rest := CareerPool(init);
      assert forall t :: t in init ==> t in top;
      rest + Shortlist(top[|top| - 1])
  }

  /** The elements of s at their first occurrence, in the order they first occur. */
  function FirstOccurrences(s: seq<string>): (r: seq<string>)
    ensures forall x :: x in r <==> x in s
    ensures Distinct(r)
    ensures |r| <= |s|
  {
    if s == [] then []
    else
      var init := s[..|s| - 1];
      var last := s[|s| - 1];
      var rest := FirstOccurrences(init);
      assert forall x :: x in s <==> x in init || x == last;
      if last in init then rest else rest + [last]
  }

  /** A list without repetitions is its own list of first occurrences. */
  lemma {:induction false} FirstOccurrencesOfDistinct(s: seq<string>)
    requires Distinct(s)
    ensures FirstOccurrences(s) == s
  {
    if s != [] {
      var init := s[..|s| - 1];
      assert Distinct(init);
      FirstOccurrencesOfDistinct(init);
      assert s == init + [s[|s| - 1]];
    }
  }

  /** The position of the first occurrence of x in s. */
  function FirstIndex(s: seq<string>, x: string): (k: nat)
    requires x in s
    ensures k < |s| && s[k] == x && x !in s[..k]
  {
    if s[0] == x then 0
    else
      assert s == [s[0]] + s[1..];
      var k := FirstIndex(s[1..], x);
      assert s[..k + 1] == [s[0]] + s[1..][..k];
      k + 1
  }

  /** Appending to a list does not move the first occurrence of what it already holds. */
  lemma {:induction false} FirstIndexAppend(s: seq<string>, y: string, x: string)
    requires x in s
    ensures FirstIndex(s + [y], x) == FirstIndex(s, x)
  {
    if s[0] != x {
      assert (s + [y])[1..] == s[1..] + [y];
      FirstIndexAppend(s[1..], y, x);
    }
  }

  /** The kept elements appear in the order of their first occurrence in the input. */
  lemma {:induction false} FirstSeenOrder(s: seq<string>)
    ensures forall i, j :: 0 <= i < j < |FirstOccurrences(s)| ==>
      FirstIndex(s, FirstOccurrences(s)[i]) < FirstIndex(s, FirstOccurrences(s)[j])
  {
    if s != [] {
      var init := s[..|s| - 1];
      var last := s[|s| - 1];
      assert s == init + [last];
      FirstSeenOrder(init);
      var rest := FirstOccurrences(init);
      var r := FirstOccurrences(s);
      forall x | x in init ensures FirstIndex(s, x) == FirstIndex(init, x) {
        FirstIndexAppend(init, last, x);
      }
      if last !in init {
        assert r == rest + [last];
        assert FirstIndex(s, last) == |init|;
        forall i, j | 0 <= i < j < |r|
          ensures FirstIndex(s, r[i]) < FirstIndex(s, r[j])
        {
          if j < |rest| {
            assert r[i] == rest[i] && r[j] == rest[j];
          } else {
            assert r[i] == rest[i] && r[i] in init;
          }
        }
      }
    }
  }

  /**
    Appends, in order, each title not yet suggested. When the suggestions so far
    are the first occurrences of `seen`, the result is that of `seen + titles`.
  */
  method AddUnseen(suggested: seq<string>, titles: seq<string>, ghost seen: seq<string>)
    returns (r: seq<string>)
    requires suggested == FirstOccurrences(seen)
    ensures r == FirstOccurrences(seen + titles)
  {
    r := suggested;
    assert seen + titles[..0] == seen;
    for j := 0 to |titles|
      invariant r == FirstOccurrences(seen + titles[..j])
    {
      var c := titles[j];
      ghost var before := seen + titles[..j];
      assert (before + [c])[..|before|] == before;
      assert seen + titles[..j + 1] == before + [c];
      if c !in r {
        r := r + [c];
      }
    }
    assert titles[..|titles|] == titles;
  }

  /** The career suggestions: the top types' shortlists, each title kept at its first occurrence. */
  method SuggestCareers(top: seq<Category>) returns (suggested: seq<string>)
    ensures suggested == FirstOccurrences(CareerPool(top))
  {
    suggested := [];
    for i := 0 to |top|
      invariant suggested == FirstOccurrences(CareerPool(top[..i]))
    {
      assert top[..i + 1][..i] == top[..i];
      suggested := AddUnseen(suggested, Shortlist(top[i]), CareerPool(top[..i]));
    }
    assert top[..|top|] == top;
  }

  /** No title appears in the shortlists of two different categories, nor twice in one. */
  lemma ShortlistsDisjoint(c1: Category, c2: Category)
    ensures Distinct(Shortlist(c1))
    ensures c1 != c2 ==> forall x :: x in Shortlist(c1) ==> x !in Shortlist(c2)
  {
  }

  /** Distinct top types give a pool without repeated titles. */
  lemma {:induction false} CareerPoolDistinct(top: seq<Category>)
    requires Distinct(top)
    ensures Distinct(CareerPool(top))
  {
    if top != [] {
      var init := top[..|top| - 1];
      var last := top[|top| - 1];
      assert Distinct(init);
      CareerPoolDistinct(init);
      var p := CareerPool(init);
      var l := Shortlist(last);
      ShortlistsDisjoint(last, last);
      forall x | x in p ensures x !in l {
        var t :| t in init && x in Shortlist(t);
        ShortlistsDisjoint(t, last);
      }
      var pool := CareerPool(top);
      assert pool == p + l;
      forall i, j | 0 <= i < j < |pool| ensures pool[i] != pool[j] {
        if j < |p| {
          assert pool[i] == p[i] && pool[j] == p[j];
        } else if i >= |p| {
          assert pool[i] == l[i - |p|] && pool[j] == l[j - |p|];
        } else {
          assert pool[i] == p[i] && pool[i] in p && pool[j] in l;
        }
      }
    }
  }

  /**
    For one or two distinct top types the suggestions are their shortlists in
    full and in order: at most six titles, none repeated.
  */
  lemma CareersOfTopTypes(top: seq<Category>)
    requires Distinct(top) && |top| <= 2
    ensures FirstOccurrences(CareerPool(top)) == CareerPool(top)
    ensures |FirstOccurrences(CareerPool(top))| <= 6
    ensures |top| == 1 ==> CareerPool(top) == CareerMap(top[0])[..3]
    ensures |top| == 2 ==> CareerPool(top) == CareerMap(top[0])[..3] + CareerMap(top[1])[..3]
  {
    CareerPoolDistinct(top);
    FirstOccurrencesOfDistinct(CareerPool(top));
    CareerPoolShort(top);
  }

  /** The pool of one or two top types, written out as shortlists. */
  lemma CareerPoolShort(top: seq<Category>)
    requires |top| <= 2
    ensures |top| == 1 ==> CareerPool(top) == Shortlist(top[0])
    ensures |top| == 2 ==> CareerPool(top) == Shortlist(top[0]) + Shortlist(top[1])
  {
    if |top| == 2 {
      assert top[..1] == [top[0]];
      assert [top[0]][..0] == [];
    } else if |top| == 1 {
      assert top[..0] == [];
    }
  }

  // ---- Summary ----

  /** The parts separated by sep (Python's `sep.join(parts)`). */
  function Join(parts: seq<string>, sep: string): string {
    if parts == [] then ""
    else if |parts| == 1 then parts[0]
    else parts[0] + sep + Join(parts[1..], sep)
  }

  /** Joining one more part appends the separator and the part. */
  lemma {:induction false} JoinAppend(parts: seq<string>, p: string, sep: string)
    requires parts != []
    ensures Join(parts + [p], sep) == Join(parts, sep) + sep + p
  {
    if |parts| > 1 {
      assert (parts + [p])[1..] == parts[1..] + [p];
      JoinAppend(parts[1..], p, sep);
    } else {
      assert parts + [p] == [parts[0], p];
    }
  }

  /** The sum of the lengths of the parts. */
  function TotalLength(parts: seq<string>): nat {
    if parts == [] then 0 else |parts[0]| + TotalLength(parts[1..])
  }

  /** A join of n parts is their characters plus n - 1 separators. */
  lemma {:induction false} JoinLength(parts: seq<string>, sep: string)
    requires parts != []
    ensures |Join(parts, sep)| == TotalLength(parts) + (|parts| - 1) * |sep|
  {
    if |parts| > 1 {
      JoinLength(parts[1..], sep);
    }
  }

  /** The summary sentences of the top types, in order. */
  function Blurbs(top: seq<Category>): (r: seq<string>)
    ensures |r| == |top|
    ensures forall k :: 0 <= k < |top| ==> r[k] == SummaryBlurb(top[k])
  {
    if top == [] then [] else [SummaryBlurb(top[0])] + Blurbs(top[1..])
  }

  /** The summary: the top types' sentences joined by single spaces. */
  function Summary(top: seq<Category>): string {
    Join(Blurbs(top), " ")
  }

  /** With one top type the summary is its sentence; with two, both sentences and one space between. */
  lemma SummaryOfTopTypes(top: seq<Category>)
    requires 1 <= |top| <= 2
    ensures |top| == 1 ==> Summary(top) == SummaryBlurb(top[0])
    ensures |top| == 2 ==> Summary(top) == SummaryBlurb(top[0]) + " " + SummaryBlurb(top[1])
  {
    var parts := Blurbs(top);
    if |top| == 2 {
      assert parts[1..] == [SummaryBlurb(top[1])];
      assert Join(parts[1..], " ") == SummaryBlurb(top[1]);
    }
  }

  // ---- The assessment ----

  /** The identifier the document store gives a stored record. */
  type DocId = string

  /** A submission: optional name and email, and the answers. */
  datatype Request = Request(name: Option<string>, email: Option<string>, answers: seq<Answer>)

  /** The computed part of an assessment. */
  datatype Report = Report(scores: Scores, topTypes: seq<Category>, careers: seq<string>, summary: string)

  /** The record handed to the document store. */
  datatype Document = Document(name: Option<string>, email: Option<string>, report: Report)

  /** The reply: the stored record's id, if storing succeeded, and the computed fields. */
  datatype Response = Response(id: Option<DocId>, report: Report)

  /** The report that valid answers determine. */
  function Expected(answers: seq<Answer>): Report
    requires AllValid(answers)
  {
    var scores := ScoresOf(answers);
    var top := TopTypes(scores);
    Report(scores, top, FirstOccurrences(CareerPool(top)), Summary(top))
  }

  /** What the report of valid answers satisfies, field by field. */
  lemma ExpectedProperties(answers: seq<Answer>)
    requires AllValid(answers)
    ensures var rep := Expected(answers);
      && Complete(rep.scores)
      && (forall c :: rep.scores[c] == Count(answers, c))
      && Total(rep.scores) == Agreed(answers) <= |answers|
      && 1 <= |rep.topTypes| <= 2 && Distinct(rep.topTypes)
      && (forall c :: c in rep.topTypes ==> rep.scores[c] == MaxScore(rep.scores))
      && Distinct(rep.careers) && |rep.careers| <= 6
      && rep.careers == CareerPool(rep.topTypes)
      && (|rep.topTypes| == 1 ==> rep.summary == SummaryBlurb(rep.topTypes[0]))
      && (|rep.topTypes| == 2 ==>
            rep.summary == SummaryBlurb(rep.topTypes[0]) + " " + SummaryBlurb(rep.topTypes[1]))
  {
    var scores := ScoresOf(answers);
    TotalIsAgreed(answers);
    TopTypesSize(scores);
    TopTypesDistinct(scores);
    TopTypesAtMax(scores);
    var top := TopTypes(scores);
    CareersOfTopTypes(top);
    SummaryOfTopTypes(top);
  }

  /**
    Scores a submission. On invalid answers it fails with the first answer's
    error and stores nothing; otherwise it hands the record to the store, whose
    outcome `stored` (an id, or None when storing failed) only sets the reply's id.
  */
  method Assess(req: Request, stored: Option<DocId>) returns (r: Result<Response, AssessError>, sent: Option<Document>)
    ensures r.Success? <==> AllValid(req.answers)
    ensures r.Failure? ==> sent == None
    ensures r.Failure? ==>
      exists k :: 0 <= k < |req.answers| && AllValid(req.answers[..k]) && Check(req.answers[k]) == Some(r.error)
    ensures r.Success? ==> r.value.report == Expected(req.answers) && r.value.id == stored
    ensures r.Success? ==> sent == Some(Document(req.name, req.email, r.value.report))
  {
    var tally := Tally(req.answers);
    if tally.Failure? {
      return Failure(tally.error), None;
    }
    var scores := tally.value;
    var top := TopTypes(scores);
    var careers := SuggestCareers(top);
    var summary := Summary(top);
    var report := Report(scores, top, careers, summary);
    sent := Some(Document(req.name, req.email, report));
    r := Success(Response(stored, report));
  }
}
