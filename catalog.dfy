/**
  The constant tables of the questionnaire: the twelve questions, the career
  titles and the summary sentence of each category, and the client-facing
  projection of the question list.
*/
module Catalog {
  import opened Wrappers

  /** The six RIASEC trait codes. */
  datatype Category = R | I | A | S | E | C

  /** The order in which the score table is built, which is also the tie-break order. */
  const Canonical: seq<Category> := [R, I, A, S, E, C]

  /** A catalog entry: id, prompt, the labels of choices A and B, and the category it scores. */
  datatype Question = Question(id: int, text: string, labelA: string, labelB: string, category: Category)

  /** The question catalog, two questions per category, ids 1 to 12 in order. */
  const Questions: seq<Question> := [
    Question(1, "I enjoy building or fixing things with my hands.", "Agree", "Disagree", R),
    Question(2, "I like working with tools or machines.", "Agree", "Disagree", R),
    Question(3, "I enjoy solving math or science problems.", "Agree", "Disagree", I),
    Question(4, "I like analyzing data and figuring out how things work.", "Agree", "Disagree", I),
    Question(5, "I like to create art, music, or write.", "Agree", "Disagree", A),
    Question(6, "I prefer unstructured tasks where I can be original.", "Agree", "Disagree", A),
    Question(7, "I enjoy helping people and improving their lives.", "Agree", "Disagree", S),
    Question(8, "I like teaching, counseling, or caring roles.", "Agree", "Disagree", S),
    Question(9, "I like leading projects and persuading others.", "Agree", "Disagree", E),
    Question(10, "I enjoy business, sales, or entrepreneurship.", "Agree", "Disagree", E),
    Question(11, "I prefer organizing information and keeping things orderly.", "Agree", "Disagree", C),
    Question(12, "I enjoy working with data, records, and details.", "Agree", "Disagree", C)
  ]

  /** The career titles suggested for each category, most relevant first. */
  function CareerMap(c: Category): seq<string> {
    match c
    case R => ["Mechanical Engineer", "Electrician", "Carpenter", "Automotive Technician"]
    case I => ["Data Scientist", "Research Analyst", "Software Developer", "Biologist"]
    case A => ["Graphic Designer", "Writer", "Musician", "UX Designer"]
    case S => ["Teacher", "Nurse", "Social Worker", "Therapist"]
    case E => ["Marketing Manager", "Sales Representative", "Entrepreneur", "Product Manager"]
    case C => ["Accountant", "Operations Coordinator", "Data Entry Specialist", "Admin Assistant"]
  }

  /** The one-sentence description of each category. */
  function SummaryBlurb(c: Category): string {
    match c
    case R => "Hands-on, practical, and mechanical. You enjoy building, fixing, and working with tools."
    case I => "Analytical and curious. You enjoy research, problem-solving, and understanding how things work."
    case A => "Creative and expressive. You value originality and enjoy artistic or design-focused tasks."
    case S => "Supportive and people-oriented. You find meaning in helping and teaching others."
    case E => "Persuasive and leadership-driven. You thrive in business, sales, and leading initiatives."
    case C => "Organized and detail-focused. You keep systems running smoothly and accurately."
  }

  /** The two labelled choices of a question as the client sees them. */
  datatype Options = Options(a: string, b: string)

  /** A question as the client sees it: the category tag is not part of it. */
  datatype QuestionView = QuestionView(id: int, text: string, options: Options)

  /** The client-facing form of one question. */
  function View(q: Question): (v: QuestionView)
    ensures v.id == q.id && v.text == q.text
    ensures v.options.a == q.labelA && v.options.b == q.labelB
  {
    QuestionView(q.id, q.text, Options(q.labelA, q.labelB))
  }

  /** Two questions have the same view exactly when they differ at most in their category. */
  lemma ViewForgetsOnlyCategory(q1: Question, q2: Question)
    ensures View(q1) == View(q2) <==> q1.(category := q2.category) == q2
  {
  }

  /** Projects a list of questions, entry by entry, to their client-facing views. */
  function Project(qs: seq<Question>): (r: seq<QuestionView>)
    ensures |r| == |qs|
    ensures forall k :: 0 <= k < |qs| ==> r[k] == View(qs[k])
  {
    if qs == [] then [] else [View(qs[0])] + Project(qs[1..])
  }

  /** The question list served to clients: the catalog without its category tags. */
  function GetQuestions(): (r: seq<QuestionView>)
    ensures |r| == 12
    ensures forall k :: 0 <= k < 12 ==> r[k].id == k + 1
    ensures forall k :: 0 <= k < 12 ==>
      r[k].id == Questions[k].id && r[k].text == Questions[k].text &&
      r[k].options == Options(Questions[k].labelA, Questions[k].labelB)
  {
    CatalogIds();
    Project(Questions)
  }

  /** The catalog's ids are 1, 2, ..., 12 in this order. */
  lemma CatalogIds()
    ensures |Questions| == 12
    ensures forall k :: 0 <= k < |Questions| ==> Questions[k].id == k + 1
  {
  }

  /** The catalog holds exactly two questions of each category: ids 2k+1 and 2k+2 score Canonical[k]. */
  lemma CatalogCategories()
    ensures forall k :: 0 <= k < |Questions| ==> Questions[k].category == Canonical[k / 2]
  {
  }

  /**
    The entry with the given id in a list of questions. A dictionary built from the
    list keeps the last entry for a repeated id, so the search runs from the back.
  */
  function Find(qs: seq<Question>, id: int): Option<Question> {
    if qs == [] then None
    else if qs[|qs| - 1].id == id then Some(qs[|qs| - 1])
    else Find(qs[..|qs| - 1], id)
  }

  /** Find gives an entry of the list with the id asked for, and gives nothing only when no entry has it. */
  lemma {:induction false} FindSound(qs: seq<Question>, id: int)
    ensures Find(qs, id).Some? ==> Find(qs, id).value in qs && Find(qs, id).value.id == id
    ensures Find(qs, id).None? ==> forall q :: q in qs ==> q.id != id
  {
    if qs != [] && qs[|qs| - 1].id != id {
      var init := qs[..|qs| - 1];
      FindSound(init, id);
      assert qs == init + [qs[|qs| - 1]];
    }
  }

  /** In a list whose ids are 1, 2, ..., n in order, id k is found exactly when 1 <= k <= n, at position k - 1. */
  lemma {:induction false} FindConsecutive(qs: seq<Question>, id: int)
    requires forall k :: 0 <= k < |qs| ==> qs[k].id == k + 1
    ensures Find(qs, id) == if 1 <= id <= |qs| then Some(qs[id - 1]) else None
  {
    if qs != [] {
      var init := qs[..|qs| - 1];
      assert forall k :: 0 <= k < |init| ==> init[k].id == k + 1;
      FindConsecutive(init, id);
    }
  }

  /** The question with the given id, if the catalog has one (the id-keyed index of the catalog). */
  function Lookup(id: int): (r: Option<Question>)
    ensures r.Some? <==> 1 <= id <= 12
    ensures r.Some? ==> r.value == Questions[id - 1] && r.value.id == id
  {
    CatalogIds();
    FindConsecutive(Questions, id);
    Find(Questions, id)
  }

  /** The category scored by catalog question id: ids 2k + 1 and 2k + 2 score Canonical[k]. */
  function CategoryOf(id: int): Category
    requires 1 <= id <= 12
  {
    Canonical[(id - 1) / 2]
  }

  /** The lookup finds exactly the ids 1 to 12, and the question found scores CategoryOf(id). */
  lemma LookupAgrees(id: int)
    ensures Lookup(id).Some? <==> 1 <= id <= 12
    ensures Lookup(id).Some? ==> Lookup(id).value.category == CategoryOf(id)
  {
    if 1 <= id <= 12 {
      CatalogCategories();
      assert Lookup(id).value == Questions[id - 1];
    }
  }
}
