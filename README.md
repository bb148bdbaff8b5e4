# Mandarin quiz-and-progress engine, in Dafny

A model of the quiz-and-progress engine of the MandarinMCP vocabulary
assistant. It covers three parts:

- **Store and mastery policy** (`database.py`). The `vocabulary`,
  `user_progress`, `quiz_results` and `learning_sessions` tables are Dafny
  values held by a `MandarinDatabase` object.
  - `update_progress` is a spaced-repetition step. Mastery is clamped to
    0..5, the counters move in lockstep, and the next review comes from the
    day table {0:1, 1:3, 2:7, 3:14, 4:30, 5:60}.
  - Adding words, appending quiz results and clearing progress are methods
    that change the tables.
  - Statistics, quiz history, words for review and words of a level are
    functions of the tables.
- **Quiz engine** (`testing.py`). A `QuizManager` builds translation and
  multiple-choice quizzes from one HSK level and files them in
  `activeQuizzes`. `check_answer` grades one answer. `submit_quiz` grades a
  whole submission, makes one progress update per question, records one quiz
  result and only then removes the quiz.
- **Vocabulary selection** (`vocabulary.py`). New words, words by mastery,
  text search and summary counts are read-only functions of the tables.

Modules:
- `Wrappers`: `Option`, `Result` and `Outcome`.
- `Text`: the Python `str` operations used (`strip`, `lower`, `upper`,
  `split(',')`, `in`).
- `Seqs`: SQL `WHERE`/`LIMIT`/`ORDER BY`, Python slices, and the index
  choices standing for `random.sample` and `random.shuffle`.
- `SqlLike`: SQLite `LIKE`.
- `Mastery`, `Database`, `Questions`, `Testing`, `Vocabulary`: the engine.

Inputs the Python reads from its environment are parameters:
- The clock is `now`, an integer number of microseconds (the resolution of
  `datetime.now()`).
- `random.sample` is a `picks` sequence of distinct in-range positions.
- `random.shuffle` is an `order` sequence that is a permutation of the
  positions.
- `uuid.uuid4()` is a `quizId` that is not yet a key of `activeQuizzes`.

The model follows the code where it departs from the evidently intended behaviour:
- Multiple-choice generation checks for at least four words in the
  **level** pool and draws distractors from it, not from the whole
  vocabulary (`testing.py:157-172`).
- A blank or all-whitespace translation answer is scored correct. This is
  because Python's `"" in s` always holds (`testing.py:221-247`).
- The first progress update always schedules the review one day ahead,
  even when it reaches mastery 1, for which the table says three days
  (`database.py:274`).
- Each `update_progress` commits on its own. If recording the quiz result
  fails, the earlier updates stay in the store and the quiz stays active
  (`testing.py:301-319`).

## Model

| member | source | states |
|---|---|---|
| `Mastery.Clamp` | src/mandarin_mcp_server/database.py:236 | the result lies in 0..5, equals the input inside 0..5, and is 0 below and 5 above |
| `Mastery.FirstResult` | src/mandarin_mcp_server/database.py:265-284 | a first progress row is valid (counters in lockstep, mastery in range) and has been seen once |
| `Mastery.NextResult` | src/mandarin_mcp_server/database.py:233-264 | a later update keeps mastery within 0..5 and a key of the day table, keeps the id, adds one sighting, and keeps a valid row valid |
| `Mastery.ApplyResult` | src/mandarin_mcp_server/database.py:224-286 | insert-or-update always yields a valid row from a valid or absent one |
| `Mastery.FirstResultFields` | src/mandarin_mcp_server/database.py:265-284 | first update: mastery 1 if correct else 0, seen 1, counters by the correctness bit, reviewed now, due now + 1 day |
| `Mastery.FirstReviewIgnoresTable` | src/mandarin_mcp_server/database.py:274 | a correct first answer reaches mastery 1, yet the review is 1 day ahead, not the 3 days the table gives mastery 1 |
| `Mastery.NextResultFields` | src/mandarin_mcp_server/database.py:233-264 | later update: mastery moves one step up (capped at 5) or down (floored at 0), counters grow by the bit, due now + days_map[new mastery] |
| `Mastery.DaysMapGrows` | src/mandarin_mcp_server/database.py:238-240 | the day table covers mastery 0..5 with at least one day each and grows strictly with mastery |
| `Mastery.MasteryFixedPoints` | src/mandarin_mcp_server/database.py:235-236 | a wrong answer at mastery 0 stays at 0; a right answer at mastery 5 stays at 5 |
| `Mastery.ApplyEventsCounters` | src/mandarin_mcp_server/database.py:242-284 | after any run of updates the row is valid, times_seen = times_correct + times_incorrect, and each counter grew by exactly its number of events |
| `Mastery.RightRightWrong` | src/mandarin_mcp_server/database.py:233-284 | right, right, wrong from scratch: mastery 1 due +1 day, then 2 due +7 days, then 1 due +3 days |
| `Mastery.RightRightWrongRight` | tests/test_database.py:161-180 | right, right, wrong, right ends at mastery 2, seen 4, 3 right and 1 wrong, due 7 days after the last event |
| `Database.VocabularyIdsUnique` | src/mandarin_mcp_server/database.py:64 | the ids of a valid vocabulary table are pairwise distinct |
| `Database.ProgressUpdate` | src/mandarin_mcp_server/database.py:207-286 | succeeds iff the id has a progress row or a vocabulary row (else the foreign key error); only the row under that id changes; its times_seen grows by one |
| `Database.ProgressUpdateRow` | src/mandarin_mcp_server/database.py:236-284 | the row left under the id is the update policy (`ApplyResult`) applied to the row it had, or to none for a first review |
| `Database.ProgressUpdateKeepsValid` | src/mandarin_mcp_server/database.py:79-91 | an update keeps one valid row per vocabulary id, each tied to an existing word |
| `Database.LevelPool` | src/mandarin_mcp_server/database.py:193 | every row of a level's pool has that level |
| `Database.LevelPoolMembers` | src/mandarin_mcp_server/database.py:193-205 | a level's pool holds every word of that level and only words of the vocabulary |
| `Database.LevelPoolIdsUnique` | src/mandarin_mcp_server/database.py:193-205 | a level's pool of a valid vocabulary has no repeated id |
| `Database.GetVocabularyByHskLevel` | src/mandarin_mcp_server/database.py:178-205 | the result is a prefix of the level's rows; a missing or zero limit gives all of them, a positive one at most that many |
| `Database.PercentageMeaning` | src/mandarin_mcp_server/database.py:363 | the score times the total is 100 × the correct count; it is 0 for an empty quiz, and within 0..100 for a count within the total |
| `Database.ProgressStatsConsistent` | src/mandarin_mcp_server/database.py:288-340 | over valid rows every row is studied, reviews = correct + incorrect, accuracy is correct/reviews × 100 and lies in 0..100 |
| `Database.MasteryBreakdownKeys` | src/mandarin_mcp_server/database.py:305-314 | the breakdown has a key for exactly the mastery levels present, each within 0..5 and counting its rows |
| `Database.MasteryGroupsPartition` | src/mandarin_mcp_server/database.py:305-314 | the counts of the six mastery groups add up to the number of progress rows |
| `Database.ProgressUpdateStats` | src/mandarin_mcp_server/database.py:316-331 | one update adds one review to the totals, and one correct or one incorrect answer by the bit |
| `Database.GetQuizHistory` | src/mandarin_mcp_server/database.py:376-398 | returns min(limit, rows) rows, or all rows for a negative limit |
| `Database.QuizHistoryNewestFirst` | src/mandarin_mcp_server/database.py:386-393 | the history is the results table read backwards, highest id first, cut at `limit` |
| `Database.GetWordsForReview` | src/mandarin_mcp_server/database.py:400-423 | returns min(limit, due rows) rows |
| `Database.WordsForReviewDueAndOrdered` | src/mandarin_mcp_server/database.py:410-418 | every listed word is joined with its own progress row and is due, earliest review first |
| `Database.DueItemListed` | src/mandarin_mcp_server/database.py:410-418 | with no limit, or a limit that covers every due row, every word whose review is due is listed |
| `Database.WordsForReviewEarliestFirst` | src/mandarin_mcp_server/database.py:410-418 | a due word left out by the limit is due no earlier than every listed word: the limit keeps the words that have waited longest |
| `Database.JustScoredNotDue` | src/mandarin_mcp_server/database.py:250-274 | a word scored at `now` is due at least a day later and is not among the words for review at `now` |
| `Database.MandarinDatabase.constructor` | src/mandarin_mcp_server/database.py:61-118 | a fresh schema has empty tables and satisfies the table invariants |
| `Database.MandarinDatabase.AddVocabulary` | src/mandarin_mcp_server/database.py:138-176 | a level outside 1..6 raises first, then a repeated (chinese, level) pair; either way nothing changes; otherwise the row is appended under the next id, which is returned |
| `Database.MandarinDatabase.UpdateProgress` | src/mandarin_mcp_server/database.py:207-286 | the progress table becomes `ProgressUpdate` of the old one, or stays unchanged on the foreign-key error; other tables unchanged |
| `Database.MandarinDatabase.RecordQuizResult` | src/mandarin_mcp_server/database.py:342-374 | appends one row with score correct/total × 100 (0 when total is 0) under the next id; a level outside 1..6 is refused by the CHECK and changes nothing |
| `Database.MandarinDatabase.ClearAllProgress` | src/mandarin_mcp_server/database.py:425-433 | progress, quiz results and learning sessions become empty; vocabulary is unchanged |
| `SqlLike.LikeContains` | src/mandarin_mcp_server/vocabulary.py:172-192 | `column LIKE '%t%'` for a wildcard-free term holds iff the lower-cased term occurs in the lower-cased column |
| `Questions.TranslationQuestion` | src/mandarin_mcp_server/testing.py:112-130 | a "translation" question on the word; chinese_to_english expects the English lower-cased and stripped, any other direction the Chinese verbatim |
| `Questions.Others` | src/mandarin_mcp_server/testing.py:171 | every distractor candidate is a pool word with a different id |
| `Questions.OthersSize` | src/mandarin_mcp_server/testing.py:171-172 | in a pool with unique ids, exactly the target is left out |
| `Questions.Letter` | src/mandarin_mcp_server/testing.py:180 | `chr(65 + i)` is the i-th of A, B, C, D |
| `Questions.ChoiceMap` | src/mandarin_mcp_server/testing.py:187-192 | keys are exactly A–D, the i-th choice sits under the i-th letter, and every value is one of the choices |
| `Questions.MultipleChoiceQuestion` | src/mandarin_mcp_server/testing.py:169-195 | keys are A–D, and the answer letter is one of them and maps to the target's English |
| `Questions.ChoicesFromPool` | src/mandarin_mcp_server/testing.py:170-176 | every offered choice is the target's English or the English of another word of the level pool |
| `Questions.CheckAnswer` | src/mandarin_mcp_server/testing.py:206-254 | multiple choice is correct iff the stripped, upper-cased answer is the upper-cased letter; wrong feedback names that letter and its choice; wrong translation feedback repeats the stored answer verbatim |
| `Questions.StoredAnswerAccepted` | src/mandarin_mcp_server/testing.py:238-247 | a translation question accepts its own stored answer |
| `Questions.FirstAcceptableInAnswer` | src/mandarin_mcp_server/testing.py:238-240 | the first comma-separated variant lies inside the whole stripped, lower-cased answer |
| `Questions.BlankTranslationAnswerAccepted` | src/mandarin_mcp_server/testing.py:221-247 | an empty or all-whitespace answer is correct for every translation question |
| `Questions.EachListedAnswerAccepted` | src/mandarin_mcp_server/testing.py:240-247 | each comma-separated variant, as listed, is accepted on its own (both "person" and "people" of "person, people") |
| `Questions.UnrelatedAnswerRejected` | src/mandarin_mcp_server/testing.py:242-252 | "goodbye" is rejected for "hello", and the feedback ends in ": hello" |
| `Questions.MultipleChoiceLetters` | src/mandarin_mcp_server/testing.py:221-233 | a generated question accepts its letter in either case and padded with blanks; any other letter is rejected, with feedback naming the letter and the target's English |
| `Testing.Quiz.constructor` | src/mandarin_mcp_server/testing.py:25-47 | the quiz keeps its id, level, questions and type, starts at `now`, has no answers yet and is not completed |
| `Testing.Quiz.DurationSeconds` | src/mandarin_mcp_server/testing.py:49-52 | the elapsed microseconds lie between `d` and `d + 1` whole seconds when the clock has not gone back, and between `d - 1` and `d` seconds when it has: `int()` cuts the fraction toward zero |
| `Testing.TranslationQuizWords` | src/mandarin_mcp_server/testing.py:103-137 | one translation question per sampled word; each is about a word of the requested level; no word is asked twice |
| `Testing.MultipleChoiceQuizWords` | src/mandarin_mcp_server/testing.py:157-197 | each question is about the sampled word, its letter maps to that word's English, and no word is asked twice |
| `Testing.BuildTranslationQuestions` | src/mandarin_mcp_server/testing.py:111-132 | the loop builds one translation question per selected word, in order |
| `Testing.BuildChoiceQuestions` | src/mandarin_mcp_server/testing.py:168-197 | the loop builds one multiple-choice question per selected word, in order |
| `Testing.ReportTotals` | src/mandarin_mcp_server/testing.py:282-329 | correct + incorrect = total = number of results; result i is numbered i + 1 and carries check_answer's verdict on answer i |
| `Testing.CorrectCountExtremes` | src/mandarin_mcp_server/testing.py:282-289 | the count equals the total iff every answer is correct, and is 0 iff none is |
| `Testing.ApplyUpdatesKeys` | src/mandarin_mcp_server/testing.py:285-301 | after a submission's updates the progress table has its old rows plus one for every word answered |
| `Testing.ApplyUpdatesValid` | src/mandarin_mcp_server/testing.py:285-301 | the updates keep the progress table valid and leave rows of words not in the quiz untouched |
| `Testing.ApplyUpdatesStats` | src/mandarin_mcp_server/testing.py:285-301 | a submission adds one review per question and one correct or incorrect answer per verdict to the totals |
| `Testing.UpdatesMatchResults` | src/mandarin_mcp_server/testing.py:285-301 | the progress updates carry exactly as many correct bits as the report counts correct answers |
| `Testing.AnswerKeyScoresFull` | src/mandarin_mcp_server/testing.py:282-305 | submitting a translation quiz's own stored answers scores every question correct and 100 percent |
| `Testing.QuizManager.constructor` | src/mandarin_mcp_server/testing.py:73-83 | a new manager has no active quizzes |
| `Testing.QuizManager.GetActiveQuiz` | src/mandarin_mcp_server/testing.py:331-333 | a quiz is returned iff it is active, under its own id, and not completed |
| `Testing.QuizManager.GenerateTranslationQuiz` | src/mandarin_mcp_server/testing.py:85-139 | a negative count raises and changes nothing; otherwise a fresh "translation" quiz of the sampled level words is filed under the new id |
| `Testing.QuizManager.GenerateMultipleChoiceQuiz` | src/mandarin_mcp_server/testing.py:141-204 | a level pool under 4 words raises, then a negative count; either way nothing changes; otherwise a fresh "multiple_choice" quiz is filed under the new id |
| `Testing.QuizManager.Register` | src/mandarin_mcp_server/testing.py:137 | the quiz is added under its id; no other entry changes |
| `Testing.QuizManager.AnswerOne` | src/mandarin_mcp_server/testing.py:286-301 | one loop pass: the result entry is check_answer's verdict, and the progress table receives exactly that item's update |
| `Testing.QuizManager.GradeAndRecordProgress` | src/mandarin_mcp_server/testing.py:282-301 | the results are the graded answers in order, the count is the number correct, and the progress table received one update per question, in order |
| `Testing.QuizManager.SubmitQuiz` | src/mandarin_mcp_server/testing.py:256-329 | an unknown or already-submitted id, then a wrong answer count, raise and change nothing; otherwise one update per question, one quiz result appended, quiz completed and removed |
| `Testing.QuizManager.GradeAndFinish` | src/mandarin_mcp_server/testing.py:282-329 | for a found quiz with one answer per question: every answer graded and recorded in order, then the result stored and the report equal to the grading of the answers |
| `Testing.QuizManager.FinishQuiz` | src/mandarin_mcp_server/testing.py:303-329 | the quiz result is stored first; only then is the quiz marked completed and removed; a refused result leaves the quiz active; the report is the grading of the submitted answers |
| `Vocabulary.NewCandidates` | src/mandarin_mcp_server/vocabulary.py:50-63 | candidates are words of the level from the vocabulary; with exclude_learned none has been seen |
| `Vocabulary.GetNewVocabulary` | src/mandarin_mcp_server/vocabulary.py:33-67 | at most `count` words, all of the level; with exclude_learned none has been seen; the length follows the Python slice `[:count]` |
| `Vocabulary.NewVocabularyShuffledPool` | src/mandarin_mcp_server/vocabulary.py:62-67 | without exclude_learned, the result is a prefix of the level pool in the shuffled order |
| `Vocabulary.NewVocabularyDistinct` | src/mandarin_mcp_server/vocabulary.py:51-67 | the new words have no repeated id |
| `Vocabulary.NewVocabularyComplete` | src/mandarin_mcp_server/vocabulary.py:53-67 | when `count` covers the candidates, every unseen word of the level is offered |
| `Vocabulary.ScoredWordNotNew` | src/mandarin_mcp_server/vocabulary.py:53-61 | a word that has just been scored is never offered as new |
| `Vocabulary.GetVocabularyByMastery` | src/mandarin_mcp_server/vocabulary.py:113-155 | every row is a word with its own progress row at the mastery level, of the level when one is given; there are min(limit, matches) rows, or all matches when the limit is negative |
| `Vocabulary.MasteryWordListed` | src/mandarin_mcp_server/vocabulary.py:130-155 | with no limit, or a limit that covers every match, every word at the mastery level (and level) is listed |
| `Vocabulary.SearchVocabulary` | src/mandarin_mcp_server/vocabulary.py:157-196 | the result holds exactly the matching rows, as a multiset |
| `Vocabulary.SearchFindsContainingItems` | src/mandarin_mcp_server/vocabulary.py:172-192 | for a wildcard-free term: every result contains the term in chinese, pinyin or english (ASCII case ignored) and has the given level; every such word is found; sorted by level, then chinese |
| `Vocabulary.StatisticsLearnedWithinTotal` | src/mandarin_mcp_server/vocabulary.py:279-291 | learned ≤ total, new ≥ 0, and learned + new = total |
| `Vocabulary.LevelCountsAddUp` | src/mandarin_mcp_server/vocabulary.py:256-265 | the six per-level counts add up to the vocabulary size |
| `Vocabulary.HskLevelCountsKeys` | src/mandarin_mcp_server/vocabulary.py:256-265 | the per-level counts have a key for exactly the levels present, each within 1..6 and counting that level's words |

## Left out

- Float rounding: `round(score, 1)` (`testing.py:326`) and `round(accuracy, 2)` (`database.py:337`) are not modelled. Percentages are exact rationals.
- Timestamps are integer microseconds passed in as `now`. The model does not
  capture the difference between SQLite's `datetime('now')` (UTC) in the
  review query and Python's local `datetime.now()` in `update_progress`, nor
  ISO-8601 text comparison. SQLite's `datetime(?, '+N days')` also drops the
  fraction of a second from `next_review`. The model keeps it: its review
  date is `now` plus whole days.
- Python's `str.lower`, `str.upper` and `str.isspace` are modelled on ASCII
  letters and the Unicode whitespace set. Non-ASCII case mapping is not
  modelled.
- Questions.CheckAnswer: requires that a multiple-choice question's
  upper-cased answer letter is a key of its choices. Where it is not, the
  source raises `KeyError`; every generated question meets this.
- Testing.QuizManager.SubmitQuiz: a progress update refused by the store
  cannot happen here, since every question's word is in the vocabulary. The
  foreign-key failure path of `update_progress` is modelled in
  `Database.ProgressUpdate` but is not reached from a submission.
- Testing.QuizManager.GenerateTranslationQuiz and
  `Testing.QuizManager.GenerateMultipleChoiceQuiz`: the freshness of the
  `uuid4` id is an assumption (`quizId !in activeQuizzes`), not a
  probability.
- The learning-sessions table is only ever cleared. No operation of this
  core adds rows to it.
- `Quiz.to_dict` and `Quiz.user_answers`: the first is serialisation; the
  second is never assigned by `submit_quiz`.
- `get_vocabulary_for_review`, `get_vocabulary_by_word_type` and
  `get_random_vocabulary` in `vocabulary.py` are outside this core.
- MCP tool registration and dispatch (`server.py`), the display formatters,
  the JSON loader script, connection handling, schema DDL and indices,
  async/await and `_handle_export_to_anki` are left out. They are protocol
  plumbing, text formatting or I/O.
- Atomicity across concurrent submissions is not modelled. Execution is
  sequential.
