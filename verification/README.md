# Verified model of the placement portal's ranking and skill-list logic

This project is a Dafny model of the three pieces of sequential logic in the
student placement portal:

- **Collaborative-filter job recommendation** (`recommend_jobs`). Given the
  student-by-job interaction table and one similarity value per student, the
  queried student's own row is dropped. Every other student then adds
  `sim * interacted` to each job they interacted with positively. The jobs are
  sorted by score, highest first, with a stable sort, and the first `top_n`
  are returned. An unknown student gets the error reply.
- **Resume skill extraction** (`parse_resume`, whitespace-split path). The
  text is split on whitespace. The fuzzy scorer's best corpus entry for each
  token is kept when its score is at least 85. The kept entries form a set,
  which is returned in ascending order. The 204-entry `skill_corpus` is
  modelled verbatim, including its second "Editing".
- **The skill-list editor of the upload component**:
  - an upload records the attempt and clears the error when it starts, and
    stores the reply's skills sorted or records the failure when it settles;
  - a typed skill is trimmed, ignored when empty, dropped when it equals a
    listed skill ignoring case, and otherwise added and the list re-sorted;
  - a skill is removed by exact equality;
  - the list is cleared only after confirmation.

Modules:

- `Wrappers` holds `Option`.
- `LexOrder` holds code-point lexicographic order on strings. It gives:
  - the ascending sort used by Python's `sorted` and JavaScript's
    `Array.prototype.sort`;
  - a set-to-sorted-list conversion;
  - the uniqueness of strictly sorted lists.
- `CollaborativeFilter` covers the recommendation service. The score
  dictionary keeps Python's insertion order, and `VoteOrder` is a reference
  definition of that order: jobs in the order the loops first vote for them.
  Ties in the ranking follow it.
- `ResumeNlp` covers the parsing service.
- `ResumeUpload` covers the editor. Its handlers are pure functions from one
  editor state to the next. `Run` folds them over any sequence of events.
  The start and the settling of an upload are separate events, so uploads
  that overlap interleave freely. `Run` accepts any order of events, even a
  settling with no matching start, so the properties proved for every run
  also hold for the runs the browser can produce.

Some inputs are parameters:

- The similarity vector is a parameter of type `seq<real>`, one value per
  table row.
- The fuzzy scorer is an uninterpreted function `best` from a token to an
  optional `(entry, score)` match. Its only contract, `BestFrom`, says the
  entry comes from the corpus.
- `toLowerCase` is a function parameter `lower`.
- `window.confirm` is a boolean parameter.
- The `onExtracted` callback appears as the `notified` part of each `Step`.
  The boolean `hasCallback` says whether the parent passed one. The
  dashboard's `App` renders the component without it, so nothing is reported
  there.

## Model

| member | source | states |
|---|---|---|
| CollaborativeFilter.Recommend | ml-service/collaborative-filter/main.py:23-39 | The reply is the "student not found" error exactly when the id is not a row label of the table |
| CollaborativeFilter.RecommendUnknownStudent | ml-service/collaborative-filter/main.py:25-26 | An unknown student id yields the error reply and no recommendation list, whatever the similarities and `top_n` |
| CollaborativeFilter.Bump | ml-service/collaborative-filter/main.py:36 | `job_scores[job] = job_scores.get(job, 0) + delta` keeps a dictionary valid; an existing key keeps its insertion position, a new key is appended, and only that key's value changes, starting from 0 when absent |
| CollaborativeFilter.AddRowValues | ml-service/collaborative-filter/main.py:34-36 | After one other student's row (the inner loop, `AddRow`), exactly the jobs with a positive count have gained `sim * count`; every other job's presence and score are untouched |
| CollaborativeFilter.Accumulate | ml-service/collaborative-filter/main.py:31-36 | After the loop over the other students, a job has a score exactly when some student other than the queried one interacted with it positively, and that score equals the independently defined sum of `sim * interacted` over those students; every key is a job of the table |
| CollaborativeFilter.InsertDesc | ml-service/collaborative-filter/main.py:38 | Inserting an item into a list sorted by descending score keeps it sorted and adds exactly that item |
| CollaborativeFilter.InsertDescStable | ml-service/collaborative-filter/main.py:38 | Among items of any one score, insertion keeps the new item ahead of the existing ones, as a stable sort does |
| CollaborativeFilter.SortDesc | ml-service/collaborative-filter/main.py:38 | `sorted(..., key=score, reverse=True)` returns a permutation of its input in non-increasing score order |
| CollaborativeFilter.SortDescStable | ml-service/collaborative-filter/main.py:38 | The sort is stable: for every score value, the items with that score appear in the same relative order as in the input |
| CollaborativeFilter.SliceTo | ml-service/collaborative-filter/main.py:38 | Python's `[:n]` returns a prefix of length `min(n, len)` for `n >= 0` and of length `max(0, len + n)` for negative `n` |
| CollaborativeFilter.FirstVoter | ml-service/collaborative-filter/main.py:32-35 | The first student in row order, among those looked at so far, who votes for a job: they vote for it, and no earlier student does |
| CollaborativeFilter.AddRowOrder | ml-service/collaborative-filter/main.py:34-36 | One other student's row (`AddRow`) appends to the key order, in column order, exactly the jobs it votes for that are not keys yet; the earlier keys keep their places |
| CollaborativeFilter.FirstVotesOrder | ml-service/collaborative-filter/main.py:34-36 | Of two jobs that one student is the first to vote for, the one in the lower column is added first |
| CollaborativeFilter.VoteOrderMember | ml-service/collaborative-filter/main.py:32-36 | The order of first votes after any number of students holds a job exactly when some other student among them votes for it |
| CollaborativeFilter.VoteOrderFirstVotes | ml-service/collaborative-filter/main.py:32-36 | In the order of first votes, job `a` comes before job `b` exactly when the loops reach the first vote for `a` before the first vote for `b`: an earlier voting student, or the same student and an earlier column |
| CollaborativeFilter.AccumulateVoteOrder | ml-service/collaborative-filter/main.py:31-36 | After the loop over any number of students, the dictionary's key order is the order of first votes |
| CollaborativeFilter.ScoreTableOrder | ml-service/collaborative-filter/main.py:32-36 | `job_scores` lists job `a` before job `b` exactly when the first vote for `a` comes before the first vote for `b` in row-then-column order |
| CollaborativeFilter.RankingContents | ml-service/collaborative-filter/main.py:32-38 | The ranked list is sorted by descending score, names each scored job exactly once, and gives each its reference score. Equal scores keep their order in `job_scores`, which `ScoreTableOrder` pins down |
| CollaborativeFilter.RankingTieOrder | ml-service/collaborative-filter/main.py:32-38 | Of two ranked jobs with equal scores, the earlier one is the one whose first vote the loops reach first |
| CollaborativeFilter.RecommendIsRankingPrefix | ml-service/collaborative-filter/main.py:38-39 | For a known student the reply holds the first jobs of the ranking: `min(top_n, scored jobs)` of them when `top_n >= 0`, and all but the last `-top_n` when it is negative |
| CollaborativeFilter.RecommendOnlyScoredDistinct | ml-service/collaborative-filter/main.py:32-39 | No job is recommended twice, and every recommended job was interacted with positively by some other student |
| CollaborativeFilter.RecommendOrdered | ml-service/collaborative-filter/main.py:38-39 | Recommended jobs come in non-increasing order of their reference scores |
| CollaborativeFilter.RecommendComplete | ml-service/collaborative-filter/main.py:31-39 | When `top_n` covers every scored job, a job is recommended if and only if some other student interacted with it, including jobs the queried student already interacted with |
| CollaborativeFilter.AccumulateAgree | ml-service/collaborative-filter/main.py:31-36 | Two tables with the same jobs whose rows and similarities agree for every student except the queried one give the same score dictionary, key order included |
| CollaborativeFilter.AccumulateIgnoresOwnRow | ml-service/collaborative-filter/main.py:31-33 | The score table does not depend on the queried student's own row or own similarity |
| CollaborativeFilter.RecommendIgnoresOwnRow | ml-service/collaborative-filter/main.py:31-33 | With the similarities to the other students held fixed, replacing the queried student's row and self-similarity by anything leaves the reply unchanged |
| CollaborativeFilter.NeverRecommendsUntouchedJob | ml-service/collaborative-filter/main.py:34-36 | A job with no positive interaction in any row is never recommended |
| CollaborativeFilter.DemoNeverRecommendsJobD | ml-service/collaborative-filter/main.py:16-21 | With the shipped table, the all-zero `jobD` is never recommended, whatever the similarities, id or `top_n` |
| CollaborativeFilter.DemoStudent1 | ml-service/collaborative-filter/main.py:16-39 | With the shipped table and the similarities 1, 1/2 and 1/2 for `student1`, the reply is `jobB, jobA, jobC`: the tied `jobA` and `jobC` keep their accumulation order, and the student's own jobs A and C are not filtered out |
| LexOrder.LessTransitive | ml-service/resume-nlp/main.py:48 | Code-point lexicographic order on strings is transitive |
| LexOrder.LessTotal | ml-service/resume-nlp/main.py:48 | Any two distinct strings are ordered one way or the other |
| LexOrder.LessAsymmetric | ml-service/resume-nlp/main.py:48 | No two strings are each less than the other |
| LexOrder.Sort | frontend/src/components/ResumeUpload.jsx:21 | The default array sort returns a permutation of its input in ascending string order |
| LexOrder.SortedFromSet | ml-service/resume-nlp/main.py:48 | `sorted(a_set)` lists every element of the set once, in strictly ascending order, and nothing else |
| LexOrder.StrictlySortedUnique | ml-service/resume-nlp/main.py:48 | Two strictly ascending lists with the same elements are equal, so the sorted list depends only on the set |
| ResumeNlp.Split | ml-service/resume-nlp/main.py:40 | `str.split()` yields only non-empty tokens free of whitespace |
| ResumeNlp.SplitConcat | ml-service/resume-nlp/main.py:40 | Concatenating the tokens gives the text with all whitespace removed |
| ResumeNlp.SplitBlank | ml-service/resume-nlp/main.py:40 | The text has no tokens if and only if it is empty or all whitespace |
| ResumeNlp.SplitJoin | ml-service/resume-nlp/main.py:40 | Splitting tokens joined by single spaces gives the tokens back |
| ResumeNlp.KeptSkills | ml-service/resume-nlp/main.py:42-48 | The kept entries are strictly ascending and contain an entry exactly when some token's best match is that entry with score at least 85 |
| ResumeNlp.ParseSkills | ml-service/resume-nlp/main.py:42-48 | The loop over tokens, set and sort return a strictly ascending list of corpus entries containing an entry exactly when some token's best match is that entry with score at least 85 |
| ResumeNlp.ParseResume | ml-service/resume-nlp/main.py:32-48 | On the whitespace-split path the reply is strictly ascending, so duplicate-free, holds only corpus entries, holds an entry exactly when some token of the text matched it with score at least 85, and is empty for blank text |
| ResumeNlp.KeptSkillsTokenSetOnly | ml-service/resume-nlp/main.py:42-48 | The reply depends only on the set of tokens, not on their order or repetition |
| ResumeNlp.CorpusListsEditingTwice | ml-service/resume-nlp/main.py:21 | The corpus lists "Editing" at positions 52 and 186, yet the reply never holds it twice |
| ResumeUpload.TrimSlices | frontend/src/components/ResumeUpload.jsx:51 | The input of `trim()` (`Trim`) is some whitespace, then the result, then some whitespace; the result neither starts nor ends with whitespace, and it is empty exactly when the input is all whitespace |
| ResumeUpload.TrimIdempotent | frontend/src/components/ResumeUpload.jsx:51 | Trimming a trimmed string changes nothing |
| ResumeUpload.StartUpload | frontend/src/components/ResumeUpload.jsx:12-17 | Without a file nothing happens. Otherwise, before the request is sent, the attempt is recorded and the error cleared, and the list and input stay as they are |
| ResumeUpload.FinishUpload | frontend/src/components/ResumeUpload.jsx:20-33 | When the request settles, a reply's skills, or none when the field is missing, replace the list as a sorted permutation, and are reported when a callback was passed; nothing else changes, so an error is not cleared. A failure records the message, keeps the list and reports nothing |
| ResumeUpload.OverlappingUploads | frontend/src/components/ResumeUpload.jsx:12-39 | If a second upload starts before the first settles and fails, and the first then succeeds, the list shows the first upload's skills sorted and the error shows the second upload's message |
| ResumeUpload.TypeManualSkill | frontend/src/components/ResumeUpload.jsx:93 | Typing replaces the pending text and changes nothing else: the list, `attempted` and `error` stay, and nothing is reported |
| ResumeUpload.AddManualSkill | frontend/src/components/ResumeUpload.jsx:50-63 | Blank input changes nothing. A case-insensitive duplicate only clears the input. Otherwise the list becomes a sorted permutation of the old list plus the trimmed value: one longer, keeping every old skill, reported when a callback was passed, with the input cleared and `attempted` set |
| ResumeUpload.AddKeepsNoCaseDuplicates | frontend/src/components/ResumeUpload.jsx:53-58 | If no two skills were equal ignoring case before an add, none are after; and after any non-blank add the trimmed value is listed up to case |
| ResumeUpload.RemoveAll | frontend/src/components/ResumeUpload.jsx:43 | Filtering drops exactly the entries equal to the skill and keeps the rest in their original order |
| ResumeUpload.RemoveSkill | frontend/src/components/ResumeUpload.jsx:41-48 | Removing a skill drops every entry equal to it, keeps the others in order, touches nothing else, and reports the new list when a callback was passed |
| ResumeUpload.RemoveAllSorted | frontend/src/components/ResumeUpload.jsx:43 | Removing entries keeps a sorted list sorted |
| ResumeUpload.RemoveSkillIdempotent | frontend/src/components/ResumeUpload.jsx:43 | Removing the same skill twice gives the same list as removing it once |
| ResumeUpload.RemoveKeepsNoCaseDuplicates | frontend/src/components/ResumeUpload.jsx:43 | Removing a skill never creates a case-insensitive duplicate |
| ResumeUpload.ClearAll | frontend/src/components/ResumeUpload.jsx:65-71 | Clearing an empty list does nothing. A confirmed clear of a non-empty list empties it and reports the empty list when a callback was passed. A declined clear changes nothing |
| ResumeUpload.Apply | frontend/src/components/ResumeUpload.jsx:23-69 | Starting an upload and typing leave the list alone. Whatever a handler reports is the new list, and nothing is reported when the parent passed no callback |
| ResumeUpload.RunKeepsSorted | frontend/src/components/ResumeUpload.jsx:21-71 | Whatever sequence of upload starts and settlings, typing, adds, removals and clears happens, in any interleaving, a sorted list stays sorted |
| ResumeUpload.InitialRunSorted | frontend/src/components/ResumeUpload.jsx:5-71 | From the first render on, the displayed list is always in ascending order |

## Left out

- Cosine similarity and the pandas table are not modelled. The similarity of every row to the queried student is an input, and `Demo` is the shipped table.
- Floating point: scores are exact `real`s. Python's float sums can round, so two scores that are equal here could differ in the last bit there, and that could change the order of ties.
- The spaCy tokenizer path is not modelled. Only the `text.split()` fallback is.
- The internals of the fuzzy scorer are not modelled. `best` is an arbitrary function whose matches name corpus entries.
- UTF-8 decoding with ignored errors is not modelled. The text is an already decoded string.
- The HTTP servers, routes, CORS setup, uploads, health endpoints and service clients are I/O plumbing and are not modelled.
- The `Number(top_n) || 5` defaulting of the backend route is not modelled. `top_n` is any integer.
- The placement-prediction service and the other React components are out of scope.
- The rendering and the `loading` flag of the upload component are not modelled.
- ResumeUpload.FinishUpload: the failure message is taken as already chosen. The fallback chain through the response's `details`, `error` and the exception message is not modelled, and neither is the `JSON.stringify` of a non-string detail.
- ResumeUpload.FinishUpload: the reply's `skills` field is either missing or a list of strings. Other JSON values are not modelled.
- LexOrder.Sort: JavaScript compares strings by UTF-16 code units, Python by code points. This model uses code points, which agrees with JavaScript except between characters above U+FFFF and characters in U+E000 to U+FFFF.
- AddManualSkill: `toLowerCase` is an arbitrary function parameter. Unicode case mapping is not modelled.
