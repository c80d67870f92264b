# Career Pathfinder RIASEC scoring, modelled in Dafny

Career Pathfinder is a small web backend. It serves a fixed twelve-question
RIASEC questionnaire and scores a submitted set of answers. The six
personality types are Realistic, Investigative, Artistic, Social,
Enterprising and Conventional, and there are two questions per type. Each
"A" (agree) answer adds one point to its question's type. The one or two
types with the highest positive score become the top types; when no type
scores, R is used. Each top type contributes its first three careers, with
duplicates dropped, and its one-sentence blurb to a summary joined with
spaces. The result is handed to a document store, and the reply carries the
stored id, or none when storing failed.

The model covers:

- `catalog.dfy`, module `Catalog`: the constant tables (questions, career map,
  summary blurbs) and the public projection of the questions. It also has the
  id index, searched from the back so that a later duplicate id wins, as in a
  dictionary built from a list.
- `ranking.dfy`, module `Ranking`: the score table and the top-type selection.
  The selection is a stable descending sort of the table's items in R, I, A,
  S, E, C order, a filter on the maximum score, a cut to two, and the R
  fallback.
- `scoring.dfy`, module `Scoring`: answer validation and the tally loop
  (a method), the career de-duplication loops (methods), the summary join, and
  the whole assessment as a method.
  - The loops are proved against specification functions: the tally
    against `ScoresOf`, the career loops against `FirstOccurrences` of
    `CareerPool`. `Assess`'s report is proved equal to `Expected`, which
    builds the summary with the `Summary` function.
  - Those functions are related by lemmas to independent statements of what
    the result means.
- `scenarios.dfy`, module `Scenarios`: the all-"disagree" submission, worked
  out in full.

The document store is a parameter. `Assess` takes `stored`, the identifier
the store hands back, or `None` when it raised. It returns the `Document` it
would have sent.

## Model

| member | source | states |
|---|---|---|
| Catalog.CatalogIds | main.py:29-42 | the question list has twelve entries whose ids are 1..12 in order |
| Catalog.CatalogCategories | main.py:29-42 | questions 2k-1 and 2k belong to the k-th type of R, I, A, S, E, C |
| Catalog.View | main.py:69 | a question's public view carries its id, text and both option labels |
| Catalog.ViewForgetsOnlyCategory | main.py:68-69 | two questions have the same view exactly when they differ at most in their type, so the view hides the type and nothing else |
| Catalog.Project | main.py:69 | the projection keeps the list's length and order, element by element |
| Catalog.GetQuestions | main.py:67-69 | twelve views with ids 1..12 in order, each with the text and labels of the question with that id |
| Catalog.FindSound | main.py:75 | a found question is in the list with the asked id; when none is found, no question in the list has that id |
| Catalog.FindConsecutive | main.py:75 | in a list whose ids are 1..n the index finds entry id-1 for 1 <= id <= n and nothing otherwise |
| Catalog.Lookup | main.py:75-79 | the index finds a question exactly for ids 1..12, namely the one at position id-1, which has that id |
| Catalog.LookupAgrees | main.py:75-84 | the question the index finds for an id has the type `CategoryOf(id)`, and one is found exactly for ids 1..12 |
| Ranking.CanonicalDistinct | main.py:74 | the table's keys R, I, A, S, E, C are six distinct types and cover every type |
| Ranking.ItemsOf | main.py:87 | the items are the types in key order, each paired with its score |
| Ranking.Insert | main.py:87 | inserting an entry adds exactly that entry to the multiset of entries |
| Ranking.InsertDescending | main.py:87 | inserting into a descending list keeps it descending |
| Ranking.SortDescending | main.py:87 | the sort is a permutation of its input and is descending by score |
| Ranking.WithScore | main.py:87 | the entries of a list with a given score, for every score including 0: exactly those, none added |
| Ranking.WithScoreAppend | main.py:87 | the score filter distributes over concatenation |
| Ranking.InsertStable | main.py:87 | at every score, 0 included, insertion puts the new entry ahead of the entries sharing its score and keeps their order |
| Ranking.PickAppend | main.py:89 | the filter on a score distributes over concatenation |
| Ranking.SortStable | main.py:87 | at every score, 0 included, the entries with that score keep their input order (the stability of `sorted`) |
| Ranking.PickWithScore | main.py:89 | the filter at a score only looks at the entries having that score |
| Ranking.SortPicksStable | main.py:87-89 | so the categories picked at any score come out of the sort in input order |
| Ranking.SortAllEqual | main.py:87 | a list whose scores are all equal is left unchanged by the sort |
| Ranking.Pick | main.py:89 | the filter keeps every entry with the given positive score and yields nothing for score 0 |
| Ranking.PickItems | main.py:87-89 | filtering the items on a positive score gives exactly the types with that score, in key order |
| Ranking.Take | main.py:89 | a cut to n keeps the first min(n, length) elements |
| Ranking.SortedHeadIsMax | main.py:88 | the first sorted entry carries the largest score in the table |
| Ranking.SortedPick | main.py:87-89 | filtering the sorted items on a positive score gives the types with that score in key order; on 0, nothing |
| Ranking.ZeroSortedHead | main.py:87-89 | when nothing scores, the sort leaves R first |
| Ranking.TopTypesPositive | main.py:87-89 | with a positive maximum, the top types are the first two types in key order reaching it |
| Ranking.TopTypesZero | main.py:89 | with every score 0, the fallback gives [R] |
| Ranking.TopTypesSelection | main.py:87-89 | with a positive maximum, the top types are the first two types in key order with that score; with no points at all, R |
| Ranking.ScoringExactlyDistinct | main.py:89 | the types with a given score, taken from distinct keys, are distinct |
| Ranking.TopTypesSize | main.py:89 | there are one or two top types |
| Ranking.TopTypesDistinct | main.py:89 | no type is listed twice among the top types |
| Ranking.TopTypesAtMax | main.py:88-89 | every top type has the maximum score |
| Scoring.CheckIsLookupThenChoice | main.py:77-82 | an answer fails with its id when the index has no question for it, and otherwise fails exactly when its choice is neither "A" nor "B" |
| Scoring.AllValidAppend | main.py:77-82 | appending an accepted answer to accepted answers keeps them all accepted |
| Scoring.Points | main.py:83-84 | one answer adds at most one point to a type |
| Scoring.Count | main.py:77-84 | a type's score is at most the number of answers |
| Scoring.Agreed | main.py:83 | the number of "A" answers is at most the number of answers |
| Scoring.ScoresOf | main.py:74-84 | the tally has a score for every type, and that score is the type's count |
| Scoring.ZeroScores | main.py:74 | the initial table has every type at 0 |
| Scoring.EmptyTally | main.py:74 | tallying no answers gives the initial all-zero table |
| Scoring.CountStep | main.py:83-84 | one more answer adds its points to a type's count |
| Scoring.AgreeStep | main.py:83-84 | an accepted "A" answer raises its question's type by one and leaves the other five types alone |
| Scoring.DisagreeStep | main.py:83 | an accepted "B" answer leaves the table unchanged |
| Scoring.TotalIsAgreed | main.py:77-84 | for accepted answers, the scores sum to the number of "A" answers, which is at most the number of answers |
| Scoring.TallyStep | main.py:77-84 | one more accepted answer keeps the prefix accepted and adds its points to every type's count |
| Scoring.Validate | main.py:78-82 | fails exactly when the answer is rejected, with the same error; on success gives the type of the question with that id |
| Scoring.Tally | main.py:74-84 | succeeds exactly when every answer is accepted, and then returns their tally; otherwise fails with the error of the first rejected answer, all earlier ones accepted |
| Scoring.Shortlist | main.py:94 | a type's shortlist is the first three entries of its career list |
| Scoring.CareerPool | main.py:93-94 | three careers per top type, each from the shortlist of one of the top types |
| Scoring.FirstOccurrences | main.py:92-96 | the suggestions hold exactly the careers of the pool, without repeats, and are no longer than the pool |
| Scoring.FirstOccurrencesOfDistinct | main.py:95-96 | a pool without repeats is kept as it is |
| Scoring.FirstIndex | main.py:95 | the position of a career's first occurrence |
| Scoring.FirstIndexAppend | main.py:96 | appending does not move a first occurrence |
| Scoring.FirstSeenOrder | main.py:92-96 | suggestions appear in the order in which the pool first mentions them |
| Scoring.AddUnseen | main.py:94-96 | appending one type's unseen shortlist entries gives the de-duplication of everything seen so far plus that shortlist |
| Scoring.SuggestCareers | main.py:92-96 | the nested loop produces the de-duplicated career pool of the top types |
| Scoring.ShortlistsDisjoint | main.py:44-51 | every shortlist is free of repeats and two different types share no career |
| Scoring.CareerPoolDistinct | main.py:44-51 | the pool of distinct top types has no repeats |
| Scoring.CareerPoolShort | main.py:93-94 | the pool of one or two top types is their shortlists concatenated in order |
| Scoring.CareersOfTopTypes | main.py:92-96 | for one or two distinct top types the suggestions are their shortlists concatenated: at most six careers, nothing dropped |
| Scoring.JoinAppend | main.py:99 | joining one more part appends the separator and the part |
| Scoring.JoinLength | main.py:99 | the joined length is the total length of the parts plus one separator between neighbours |
| Scoring.Blurbs | main.py:98 | one blurb per top type, in order |
| Scoring.SummaryOfTopTypes | main.py:98-99 | the summary is the single blurb, or the two blurbs with one space between them |
| Scoring.ExpectedProperties | main.py:72-99 | the report of accepted answers: complete counted scores summing to the "A" answers; one or two distinct top types at the maximum; at most six distinct careers; the matching summary |
| Scoring.Assess | main.py:71-124 | fails exactly on a rejected answer, with the first one's error and nothing stored; otherwise it returns the expected report with the store's id (none if storing failed) and hands the store the name, email and report |
| Scenarios.DisagreeingSuffix | main.py:83 | accepted "B" answers appended to any answers leave the scores unchanged |
| Scenarios.Disagreeing | main.py:30-41 | "B" answers to the questions from a given id up to 12 are all accepted |
| Scenarios.ReportFromScores | main.py:92-99 | a report is fixed by its scores and its distinct top types: the careers are the plain pool |
| Scenarios.DisagreeingScoresZero | main.py:74-84 | twelve "B" answers leave the tally at the all-zero table |
| Scenarios.ZeroTopTypes | main.py:87-89 | the all-zero table has the single top type R |
| Scenarios.RealisticShortlist | main.py:45 | R's career pool is Mechanical Engineer, Electrician and Carpenter |
| Scenarios.AllDisagree | main.py:74-99 | answering "B" to all twelve questions gives all-zero scores, top type R, Mechanical Engineer, Electrician and Carpenter, and R's blurb |

## Left out

- The HTTP layer is not modelled: FastAPI routing, the CORS middleware, status
  code 400 and the error text of `HTTPException`, and JSON encoding. Errors are
  the `AssessError` values `InvalidQuestionId(id)` and `InvalidChoice`.
- Pydantic's parsing and coercion of the request is not modelled. A request
  arrives already typed, with optional name and email.
- `create_document`'s internals and the database are left out: `database.py`
  is not part of this model. Its outcome is the `stored` parameter of
  `Scoring.Assess`. Any exception it raises is modelled as `None`.
- `read_root`, `test_database` and the `__main__` uvicorn start-up are left
  out. They report status only and do not touch scoring.
- Ranking.SortDescending: Python's `sorted` is a Timsort. The model uses a stable
  insertion sort. Both give the same result on every input, since any stable
  sort does, but the model does not claim the same steps.
- Scoring.Shortlist: the `.get(t, [])` default is not modelled, because the
  career map has an entry for every type.
- Catalog.Lookup: the index is a search over the question list rather than a
  dictionary built once. `Catalog.FindSound` and `Catalog.FindConsecutive`
  show it returns what the dictionary would.
- Scoring.Check is stated over the id range 1..12 and `Catalog.CategoryOf`.
  `Scoring.CheckIsLookupThenChoice` and `Catalog.LookupAgrees` tie it to the
  index lookup.
- The code puts no bound on the number of answers, and it accepts repeated or
  missing question ids (each repeat scores again). The model follows the code,
  not a reading that expects at most twelve distinct answers. So
  `Scoring.TotalIsAgreed` bounds the total by the number of answers, not by 12.
- Mixed submissions, where some types score and some do not, are proved in
  general by `Ranking.TopTypesSelection` and `Scoring.ExpectedProperties`. Of
  the concrete cases, only the all-"B" one is worked out.
