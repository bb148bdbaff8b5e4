/**
 * The store behind the quiz engine: the `vocabulary`, `user_progress`,
 * `quiz_results` and `learning_sessions` tables as Dafny values held by a
 * `MandarinDatabase` object, the operations that change them (add a word,
 * record a scoring event, append a quiz result, clear progress) and the
 * read-only queries over them (words of a level, progress statistics, quiz
 * history, words due for review).
 *
 * Each table keeps its rows in insertion (rowid) order. SQLite's
 * AUTOINCREMENT counters are kept as `nextVocabularyId` and
 * `nextQuizResultId`: deleting rows never lowers them.
 */
module Database {
  import opened Wrappers
  import opened Text
  import opened Seqs
  import opened Mastery

  /** A row of the `vocabulary` table. */
  datatype VocabItem = VocabItem(
    id: int,
    chinese: string,
    pinyin: string,
    english: string,
    hskLevel: int,
    wordType: Option<string>,
    exampleSentence: Option<string>,
    createdAt: int)

  /** A row of the `quiz_results` table; the score is kept exactly, without float rounding. */
  datatype QuizResultRow = QuizResultRow(
    id: int,
    quizType: string,
    hskLevel: Option<int>,
    totalQuestions: int,
    correctAnswers: int,
    scorePercentage: real,
    durationSeconds: Option<int>,
    createdAt: int)

  /** A row of the `learning_sessions` table (only ever cleared by this core). */
  datatype LearningSessionRow = LearningSessionRow(
    id: int,
    sessionType: string,
    itemsStudied: int,
    durationSeconds: Option<int>,
    notes: Option<string>,
    createdAt: int)

  /** What the store raises. */
  datatype DbError =
    | InvalidHskLevel(level: int)                      // ValueError from add_vocabulary
    | UniqueViolation(chinese: string, hskLevel: int)  // UNIQUE(chinese, hsk_level) on vocabulary
    | ForeignKeyViolation(vocabularyId: int)           // FOREIGN KEY on user_progress.vocabulary_id
    | CheckViolation(hskLevel: int)                    // CHECK(hsk_level BETWEEN 1 AND 6) on quiz_results

  /** The text each error carries. */
  function DbErrorMessage(e: DbError): string {
    match e
    case InvalidHskLevel(level) => "HSK level must be between 1 and 6, got " + IntToString(level)
    case UniqueViolation(_, _) => "UNIQUE constraint failed: vocabulary.chinese, vocabulary.hsk_level"
    case ForeignKeyViolation(_) => "FOREIGN KEY constraint failed"
    case CheckViolation(_) => "CHECK constraint failed: hsk_level BETWEEN 1 AND 6"
  }

  // ---------------------------------------------------------------------------
  // Table invariants

  predicate HasId(vocab: seq<VocabItem>, id: int) {
    exists i :: 0 <= i < |vocab| && vocab[i].id == id
  }

  /** Some row holds the id, and at the given level. */
  predicate HasIdAtLevel(vocab: seq<VocabItem>, id: int, hskLevel: int) {
    exists i :: 0 <= i < |vocab| && vocab[i].id == id && vocab[i].hskLevel == hskLevel
  }

  /** Some row already holds the pair (chinese, hsk_level). */
  predicate HasEntry(vocab: seq<VocabItem>, chinese: string, hskLevel: int) {
    exists i :: 0 <= i < |vocab| && vocab[i].chinese == chinese && vocab[i].hskLevel == hskLevel
  }

  function ItemId(v: VocabItem): int { v.id }

  /** Ids below the AUTOINCREMENT counter and growing with rowid, levels in 1..6, (chinese, level) unique. */
  ghost predicate VocabularyValid(vocab: seq<VocabItem>, nextId: int) {
    && (forall i :: 0 <= i < |vocab| ==> 1 <= vocab[i].id < nextId && 1 <= vocab[i].hskLevel <= 6)
    && (forall i, j :: 0 <= i < j < |vocab| ==> vocab[i].id < vocab[j].id)
    && (forall i, j :: 0 <= i < j < |vocab| ==>
          !(vocab[i].chinese == vocab[j].chinese && vocab[i].hskLevel == vocab[j].hskLevel))
  }

  /** One valid row per vocabulary id, and only for ids the vocabulary holds (the foreign key). */
  ghost predicate ProgressValid(progress: map<int, ProgressRow>, vocab: seq<VocabItem>) {
    forall k :: k in progress ==> progress[k].vocabularyId == k && ValidRow(progress[k]) && HasId(vocab, k)
  }

  ghost predicate ResultsValid(results: seq<QuizResultRow>, nextId: int) {
    && (forall i :: 0 <= i < |results| ==> 1 <= results[i].id < nextId)
    && (forall i, j :: 0 <= i < j < |results| ==> results[i].id < results[j].id)
  }

  lemma VocabularyIdsUnique(vocab: seq<VocabItem>, nextId: int)
    requires VocabularyValid(vocab, nextId)
    ensures KeysUnique(vocab, ItemId)
  {
  }

  // ---------------------------------------------------------------------------
  // update_progress as a transition of the progress table

  /**
   * `update_progress(vocabulary_id, correct)`: update the item's row when it
   * has one; otherwise insert a first row, which the foreign key refuses when
   * the vocabulary holds no such id. Only the row keyed by the id changes.
   */
  function ProgressUpdate(vocab: seq<VocabItem>, progress: map<int, ProgressRow>, vocabularyId: int, correct: bool, now: int)
    : (r: Result<map<int, ProgressRow>, DbError>)
    ensures r.Ok? <==> vocabularyId in progress || HasId(vocab, vocabularyId)
    ensures r.Err? ==> r.error == ForeignKeyViolation(vocabularyId)
    ensures r.Ok? ==> r.value.Keys == progress.Keys + {vocabularyId}
    ensures r.Ok? ==> forall k :: k in progress && k != vocabularyId ==> r.value[k] == progress[k]
    ensures r.Ok? ==> r.value[vocabularyId].timesSeen == (if vocabularyId in progress then progress[vocabularyId].timesSeen else 0) + 1
  {
    if vocabularyId in progress then
      Ok(progress[vocabularyId := ApplyResult(Some(progress[vocabularyId]), vocabularyId, correct, now)])
    else if HasId(vocab, vocabularyId) then
      Ok(progress[vocabularyId := ApplyResult(None, vocabularyId, correct, now)])
    else
      Err(ForeignKeyViolation(vocabularyId))
  }

  /**
   * The row an update leaves under the id is the update policy applied to
   * the row it had, or to none when it had none.
   */
  lemma ProgressUpdateRow(vocab: seq<VocabItem>, progress: map<int, ProgressRow>, vocabularyId: int, correct: bool, now: int)
    requires ProgressUpdate(vocab, progress, vocabularyId, correct, now).Ok?
    ensures ProgressUpdate(vocab, progress, vocabularyId, correct, now).value[vocabularyId]
      == ApplyResult(if vocabularyId in progress then Some(progress[vocabularyId]) else None, vocabularyId, correct, now)
  {
  }

  /** An update keeps every progress row valid and tied to a vocabulary item. */
  lemma ProgressUpdateKeepsValid(vocab: seq<VocabItem>, progress: map<int, ProgressRow>, vocabularyId: int, correct: bool, now: int)
    requires ProgressValid(progress, vocab)
    requires ProgressUpdate(vocab, progress, vocabularyId, correct, now).Ok?
    ensures ProgressValid(ProgressUpdate(vocab, progress, vocabularyId, correct, now).value, vocab)
  {
  }

  // ---------------------------------------------------------------------------
  // Read-only queries

  function AtLevel(level: int): VocabItem -> bool {
    (v: VocabItem) => v.hskLevel == level
  }

  /** `SELECT * FROM vocabulary WHERE hsk_level = ?`, in rowid order. */
  function LevelPool(vocab: seq<VocabItem>, level: int): (r: seq<VocabItem>)
    ensures forall i :: 0 <= i < |r| ==> r[i].hskLevel == level
  {
    Filter(vocab, AtLevel(level))
  }

  /** A level's pool holds every item of that level and nothing else. */
  lemma LevelPoolMembers(vocab: seq<VocabItem>, level: int)
    ensures forall i :: 0 <= i < |LevelPool(vocab, level)| ==> LevelPool(vocab, level)[i] in vocab
    ensures forall i :: 0 <= i < |vocab| && vocab[i].hskLevel == level ==> vocab[i] in LevelPool(vocab, level)
  {
  }

  /** A level's pool of a valid vocabulary has unique ids. */
  lemma LevelPoolIdsUnique(vocab: seq<VocabItem>, nextId: int, level: int)
    requires VocabularyValid(vocab, nextId)
    ensures KeysUnique(LevelPool(vocab, level), ItemId)
  {
    FilterKeysUnique(vocab, AtLevel(level), ItemId);
  }

  /**
   * `get_vocabulary_by_hsk_level(hsk_level, limit)`: the level's rows; Python's
   * `if limit:` ignores a limit of `None` or 0, and SQLite ignores a negative one.
   */
  function GetVocabularyByHskLevel(vocab: seq<VocabItem>, hskLevel: int, limit: Option<int>): (r: seq<VocabItem>)
    ensures forall i :: 0 <= i < |r| ==> r[i].hskLevel == hskLevel
    ensures |r| <= |LevelPool(vocab, hskLevel)| && r == LevelPool(vocab, hskLevel)[..|r|]
    ensures (limit.None? || limit.value <= 0) ==> r == LevelPool(vocab, hskLevel)
    ensures limit.Some? && limit.value > 0 ==> |r| == Min(limit.value, |LevelPool(vocab, hskLevel)|)
  {
    var pool := LevelPool(vocab, hskLevel);
    if limit.Some? && limit.value != 0 then Limit(pool, limit.value) else pool
  }

  /** SQL `SUM(column)` over the progress table; an empty table sums to 0 (Python's `or 0`). */
  function SumBy(p: map<int, ProgressRow>, f: ProgressRow -> int): int
    decreases |p|
  {
    if p == map[] then 0
    else
      var k := MinKey(p.Keys);
      assert |(p - {k}).Keys| < |p.Keys| by { assert (p - {k}).Keys == p.Keys - {k}; }
      f(p[k]) + SumBy(p - {k}, f)
  }

  /** A sum can be split at any row, not only at the row with the smallest key. */
  lemma {:induction false} SumByRemove(p: map<int, ProgressRow>, f: ProgressRow -> int, k: int)
    requires k in p
    ensures SumBy(p, f) == f(p[k]) + SumBy(p - {k}, f)
    decreases |p|
  {
    var m := MinKey(p.Keys);
    assert (p - {m}).Keys == p.Keys - {m};
    if m != k {
      var q := p - {m};
      assert |q.Keys| < |p.Keys|;
      SumByRemove(q, f, k);
      var r := p - {k};
      assert r.Keys == p.Keys - {k};
      assert m in r.Keys;
      var m2 := MinKey(r.Keys);
      assert m2 in p.Keys && m <= m2 && m2 <= m;
      assert r - {m} == q - {k};
    }
  }

  /** Replacing or inserting one row changes a sum by that row's difference. */
  lemma SumByUpdate(p: map<int, ProgressRow>, f: ProgressRow -> int, k: int, row: ProgressRow)
    ensures SumBy(p[k := row], f) == SumBy(p, f) - (if k in p then f(p[k]) else 0) + f(row)
  {
    var q := p[k := row];
    SumByRemove(q, f, k);
    if k in p {
      SumByRemove(p, f, k);
      assert q - {k} == p - {k};
    } else {
      assert q - {k} == p;
    }
  }

  /** Sums add up column by column. */
  lemma {:induction false} SumByAdd(p: map<int, ProgressRow>, f: ProgressRow -> int, g: ProgressRow -> int, h: ProgressRow -> int)
    requires forall k :: k in p ==> h(p[k]) == f(p[k]) + g(p[k])
    ensures SumBy(p, h) == SumBy(p, f) + SumBy(p, g)
    decreases |p|
  {
    if p != map[] {
      var k := MinKey(p.Keys);
      assert (p - {k}).Keys == p.Keys - {k};
      SumByAdd(p - {k}, f, g, h);
    }
  }

  /** A sum of non-negative entries is non-negative. */
  lemma {:induction false} SumByNonNegative(p: map<int, ProgressRow>, f: ProgressRow -> int)
    requires forall k :: k in p ==> f(p[k]) >= 0
    ensures SumBy(p, f) >= 0
    decreases |p|
  {
    if p != map[] {
      var k := MinKey(p.Keys);
      assert (p - {k}).Keys == p.Keys - {k};
      SumByNonNegative(p - {k}, f);
    }
  }

  function Seen(r: ProgressRow): int { r.timesSeen }
  function Correct(r: ProgressRow): int { r.timesCorrect }
  function Incorrect(r: ProgressRow): int { r.timesIncorrect }

  /** Python `part / whole * 100 if whole > 0 else 0`, exactly. */
  function Percentage(part: int, whole: int): real {
    if whole > 0 then part as real / whole as real * 100.0 else 0.0
  }

  /** The percentage is `part` out of `whole` hundredths, zero for an empty whole, and within 0..100 for a part of it. */
  lemma PercentageMeaning(part: int, whole: int)
    ensures whole > 0 ==> Percentage(part, whole) * whole as real == part as real * 100.0
    ensures whole <= 0 ==> Percentage(part, whole) == 0.0
    ensures whole > 0 && 0 <= part <= whole ==> 0.0 <= Percentage(part, whole) <= 100.0
  {
    if whole > 0 && 0 <= part <= whole {
      assert part as real / whole as real <= 1.0;
    }
  }

  /** The dictionary `get_progress_stats` returns. */
  datatype ProgressStats = ProgressStats(
    totalWordsStudied: nat,
    masteryBreakdown: map<int, nat>,
    totalReviews: int,
    accuracy: real,
    totalCorrect: int,
    totalIncorrect: int)

  /** Rows with `times_seen > 0`. */
  function StudiedIds(p: map<int, ProgressRow>): set<int> {
    set k | k in p && p[k].timesSeen > 0
  }

  /** Rows at one mastery level (one group of `GROUP BY mastery_level`). */
  function AtMastery(p: map<int, ProgressRow>, level: int): set<int> {
    set k | k in p && p[k].masteryLevel == level
  }

  /** `SELECT mastery_level, COUNT(*) ... GROUP BY mastery_level`: only levels some row has. */
  function MasteryBreakdown(p: map<int, ProgressRow>): map<int, nat> {
    map l | l in (set k | k in p :: p[k].masteryLevel) :: |AtMastery(p, l)|
  }

  /** `get_progress_stats()`. */
  function GetProgressStats(p: map<int, ProgressRow>): ProgressStats {
    var reviews := SumBy(p, Seen);
    var right := SumBy(p, Correct);
    ProgressStats(
      totalWordsStudied := |StudiedIds(p)|,
      masteryBreakdown := MasteryBreakdown(p),
      totalReviews := reviews,
      accuracy := Percentage(right, reviews),
      totalCorrect := right,
      totalIncorrect := SumBy(p, Incorrect))
  }

  /**
   * Over valid rows: every row counts as studied, reviews are the right plus
   * the wrong answers, and accuracy is a percentage of the reviews.
   */
  lemma ProgressStatsConsistent(p: map<int, ProgressRow>)
    requires forall k :: k in p ==> ValidRow(p[k])
    ensures var s := GetProgressStats(p);
      && s.totalWordsStudied == |p|
      && s.totalReviews == s.totalCorrect + s.totalIncorrect
      && s.totalCorrect >= 0 && s.totalIncorrect >= 0
      && 0.0 <= s.accuracy <= 100.0
      && (s.totalReviews > 0 ==> s.accuracy * s.totalReviews as real == s.totalCorrect as real * 100.0)
  {
    forall k | k in p ensures k in StudiedIds(p) {
      assert p[k].timesSeen >= 1;
    }
    assert StudiedIds(p) == p.Keys;
    SumByAdd(p, Correct, Incorrect, Seen);
    SumByNonNegative(p, Correct);
    SumByNonNegative(p, Incorrect);
    PercentageMeaning(SumBy(p, Correct), SumBy(p, Seen));
  }

  /**
   * Over valid rows the mastery breakdown has keys within 0..5, a key exactly
   * for each level some row has, counting the rows at that level.
   */
  lemma MasteryBreakdownKeys(p: map<int, ProgressRow>)
    requires forall k :: k in p ==> ValidRow(p[k])
    ensures var b := MasteryBreakdown(p);
      && (forall l :: l in b ==> 0 <= l <= 5 && b[l] == |AtMastery(p, l)| > 0)
      && (forall l, k :: k in p && p[k].masteryLevel == l ==> l in b)
  {
    var b := MasteryBreakdown(p);
    forall l | l in b ensures 0 <= l <= 5 && |AtMastery(p, l)| > 0 {
      var k :| k in p && p[k].masteryLevel == l;
      assert k in AtMastery(p, l);
    }
  }

  /** Over valid rows the six mastery groups partition the rows: their counts add up to the row count. */
  lemma MasteryGroupsPartition(p: map<int, ProgressRow>)
    requires forall k :: k in p ==> ValidRow(p[k])
    ensures |AtMastery(p, 0)| + |AtMastery(p, 1)| + |AtMastery(p, 2)|
         + |AtMastery(p, 3)| + |AtMastery(p, 4)| + |AtMastery(p, 5)| == |p|
  {
    var none: set<int> := {};
    assert AtMasteryBelow(p, 0) == none;
    AtMasteryBelowStep(p, 0);
    AtMasteryBelowStep(p, 1);
    AtMasteryBelowStep(p, 2);
    AtMasteryBelowStep(p, 3);
    AtMasteryBelowStep(p, 4);
    AtMasteryBelowStep(p, 5);
    forall k | k in p ensures k in AtMasteryBelow(p, 6) {
      assert ValidRow(p[k]);
    }
    assert AtMasteryBelow(p, 6) == p.Keys;
  }

  /** The rows whose mastery is at least 0 and below `level`. */
  function AtMasteryBelow(p: map<int, ProgressRow>, level: int): set<int> {
    set k | k in p && 0 <= p[k].masteryLevel < level
  }

  /** Raising the bound by one adds exactly the group at the old bound. */
  lemma AtMasteryBelowStep(p: map<int, ProgressRow>, level: nat)
    ensures |AtMasteryBelow(p, level + 1)| == |AtMasteryBelow(p, level)| + |AtMastery(p, level)|
  {
    assert AtMasteryBelow(p, level + 1) == AtMasteryBelow(p, level) + AtMastery(p, level);
    assert AtMasteryBelow(p, level) * AtMastery(p, level) == {};
  }

  /**
   * One `update_progress` adds exactly one review to the statistics, one right
   * answer when the answer was right and one wrong answer otherwise.
   */
  lemma ProgressUpdateStats(vocab: seq<VocabItem>, progress: map<int, ProgressRow>, vocabularyId: int, correct: bool, now: int)
    requires ProgressUpdate(vocab, progress, vocabularyId, correct, now).Ok?
    ensures var before := GetProgressStats(progress);
      var after := GetProgressStats(ProgressUpdate(vocab, progress, vocabularyId, correct, now).value);
      && after.totalReviews == before.totalReviews + 1
      && after.totalCorrect == before.totalCorrect + (if correct then 1 else 0)
      && after.totalIncorrect == before.totalIncorrect + (if correct then 0 else 1)
  {
    var existing := if vocabularyId in progress then Some(progress[vocabularyId]) else None;
    var row := ApplyResult(existing, vocabularyId, correct, now);
    assert ProgressUpdate(vocab, progress, vocabularyId, correct, now).value == progress[vocabularyId := row];
    SumByUpdate(progress, Seen, vocabularyId, row);
    SumByUpdate(progress, Correct, vocabularyId, row);
    SumByUpdate(progress, Incorrect, vocabularyId, row);
  }

  /** Quiz history is ordered by id, newest first. */
  predicate NewerFirst(a: QuizResultRow, b: QuizResultRow) {
    a.id >= b.id
  }

  /** `get_quiz_history(limit)`: `ORDER BY id DESC LIMIT ?`. */
  function GetQuizHistory(results: seq<QuizResultRow>, limit: int): (r: seq<QuizResultRow>)
    ensures limit >= 0 ==> |r| == Min(limit, |results|)
    ensures limit < 0 ==> |r| == |results|
  {
    Limit(SortBy(results, NewerFirst), limit)
  }

  lemma {:induction false} ReverseAt<T>(s: seq<T>, i: nat)
    requires i < |s|
    ensures Reverse(s)[i] == s[|s| - 1 - i]
  {
    if i < |s| - 1 {
      ReverseAt(s[1..], i);
    }
  }

  lemma {:induction false} SortNewestFirstIsReverse(results: seq<QuizResultRow>)
    requires forall i, j :: 0 <= i < j < |results| ==> results[i].id < results[j].id
    ensures SortBy(results, NewerFirst) == Reverse(results)
  {
    if results != [] {
      var tail := results[1..];
      SortNewestFirstIsReverse(tail);
      forall i | 0 <= i < |Reverse(tail)| ensures !NewerFirst(results[0], Reverse(tail)[i]) {
        ReverseAt(tail, i);
      }
      InsertLast(results[0], Reverse(tail), NewerFirst);
    }
  }

  /**
   * Because ids grow with every insert, the history is the table read
   * backwards: the latest result first, at most `limit` of them.
   */
  lemma QuizHistoryNewestFirst(results: seq<QuizResultRow>, nextId: int, limit: int)
    requires ResultsValid(results, nextId)
    ensures var h := GetQuizHistory(results, limit);
      && h == Limit(Reverse(results), limit)
      && (forall i :: 0 <= i < |h| ==> h[i] == results[|results| - 1 - i])
      && (forall i, j :: 0 <= i < j < |h| ==> h[i].id > h[j].id)
  {
    SortNewestFirstIsReverse(results);
    var h := GetQuizHistory(results, limit);
    forall i | 0 <= i < |h| ensures h[i] == results[|results| - 1 - i] {
      ReverseAt(results, i);
    }
  }

  /**
   * A row of `vocabulary v INNER JOIN user_progress up ON v.id = up.vocabulary_id`:
   * the vocabulary row with its progress row (the queries select some of the
   * progress columns; the model keeps the whole row).
   */
  datatype JoinedRow = JoinedRow(item: VocabItem, progress: ProgressRow)

  /** `d` pairs an item of `vocab` with that item's own progress row. */
  predicate IsJoined(vocab: seq<VocabItem>, progress: map<int, ProgressRow>, d: JoinedRow) {
    d.item in vocab && d.item.id in progress && d.progress == progress[d.item.id]
  }

  /** The inner join, keeping the joined rows `keep` accepts (the `WHERE`), in vocabulary rowid order. */
  function JoinWhere(vocab: seq<VocabItem>, progress: map<int, ProgressRow>, keep: JoinedRow -> bool): (r: seq<JoinedRow>)
    ensures forall i :: 0 <= i < |r| ==> IsJoined(vocab, progress, r[i]) && keep(r[i])
  {
    if vocab == [] then []
    else
      var v := vocab[0];
      var rest := JoinWhere(vocab[1..], progress, keep);
      if v.id in progress && keep(JoinedRow(v, progress[v.id])) then [JoinedRow(v, progress[v.id])] + rest else rest
  }

  /** Every item with a progress row that `keep` accepts appears in the join. */
  lemma {:induction false} JoinWhereComplete(vocab: seq<VocabItem>, progress: map<int, ProgressRow>, keep: JoinedRow -> bool, i: nat)
    requires i < |vocab| && vocab[i].id in progress && keep(JoinedRow(vocab[i], progress[vocab[i].id]))
    ensures JoinedRow(vocab[i], progress[vocab[i].id]) in JoinWhere(vocab, progress, keep)
  {
    if i > 0 {
      JoinWhereComplete(vocab[1..], progress, keep, i - 1);
    }
  }

  /** `WHERE up.next_review <= now`. */
  function DueAt(now: int): JoinedRow -> bool {
    (d: JoinedRow) => d.progress.nextReview <= now
  }

  function DueRows(vocab: seq<VocabItem>, progress: map<int, ProgressRow>, now: int): seq<JoinedRow> {
    JoinWhere(vocab, progress, DueAt(now))
  }

  predicate EarlierReview(a: JoinedRow, b: JoinedRow) {
    a.progress.nextReview <= b.progress.nextReview
  }

  /** A due row: the item joined with its own progress row, due at `now`. */
  predicate IsDueRow(vocab: seq<VocabItem>, progress: map<int, ProgressRow>, now: int, d: JoinedRow) {
    IsJoined(vocab, progress, d) && d.progress.nextReview <= now
  }

  /** `get_words_for_review(limit)`: due rows sorted by `next_review`, at most `limit` of them. */
  function GetWordsForReview(vocab: seq<VocabItem>, progress: map<int, ProgressRow>, now: int, limit: int): (r: seq<JoinedRow>)
    ensures limit >= 0 ==> |r| == Min(limit, |DueRows(vocab, progress, now)|)
    ensures limit < 0 ==> |r| == |DueRows(vocab, progress, now)|
  {
    Limit(SortBy(DueRows(vocab, progress, now), EarlierReview), limit)
  }

  /**
   * The words for review are due rows only (each item with its own progress
   * row, due at `now`), earliest review first.
   */
  lemma WordsForReviewDueAndOrdered(vocab: seq<VocabItem>, progress: map<int, ProgressRow>, now: int, limit: int)
    ensures forall i :: 0 <= i < |GetWordsForReview(vocab, progress, now, limit)| ==>
      IsDueRow(vocab, progress, now, GetWordsForReview(vocab, progress, now, limit)[i])
    ensures forall i, j :: 0 <= i < j < |GetWordsForReview(vocab, progress, now, limit)| ==>
      GetWordsForReview(vocab, progress, now, limit)[i].progress.nextReview <= GetWordsForReview(vocab, progress, now, limit)[j].progress.nextReview
  {
    var due := DueRows(vocab, progress, now);
    var sorted := SortBy(due, EarlierReview);
    assert TotalPreorder(EarlierReview);
    SortBySorted(due, EarlierReview);
    forall i | 0 <= i < |sorted| ensures IsDueRow(vocab, progress, now, sorted[i]) {
      assert sorted[i] in multiset(sorted);
      assert sorted[i] in due;
    }
    var r := Limit(sorted, limit);
    assert forall i :: 0 <= i < |r| ==> r[i] == sorted[i];
  }

  /** With no limit, or a limit that covers every due row, every item whose review is due is listed. */
  lemma DueItemListed(vocab: seq<VocabItem>, progress: map<int, ProgressRow>, now: int, limit: int, i: nat)
    requires limit < 0 || |DueRows(vocab, progress, now)| <= limit
    requires i < |vocab| && vocab[i].id in progress && progress[vocab[i].id].nextReview <= now
    ensures JoinedRow(vocab[i], progress[vocab[i].id]) in GetWordsForReview(vocab, progress, now, limit)
  {
    var d := JoinedRow(vocab[i], progress[vocab[i].id]);
    JoinWhereComplete(vocab, progress, DueAt(now), i);
    var due := DueRows(vocab, progress, now);
    assert d in multiset(due);
    assert d in multiset(SortBy(due, EarlierReview));
  }

  /**
   * The limit keeps the rows that have waited longest: a due item left out
   * is due no earlier than any item listed.
   */
  lemma WordsForReviewEarliestFirst(
    vocab: seq<VocabItem>, progress: map<int, ProgressRow>, now: int, limit: int, i: nat)
    requires i < |vocab| && vocab[i].id in progress && progress[vocab[i].id].nextReview <= now
    requires JoinedRow(vocab[i], progress[vocab[i].id]) !in GetWordsForReview(vocab, progress, now, limit)
    ensures forall k :: 0 <= k < |GetWordsForReview(vocab, progress, now, limit)| ==>
      GetWordsForReview(vocab, progress, now, limit)[k].progress.nextReview <= progress[vocab[i].id].nextReview
  {
    var d := JoinedRow(vocab[i], progress[vocab[i].id]);
    JoinWhereComplete(vocab, progress, DueAt(now), i);
    var due := DueRows(vocab, progress, now);
    var sorted := SortBy(due, EarlierReview);
    assert TotalPreorder(EarlierReview);
    SortBySorted(due, EarlierReview);
    assert d in multiset(due);
    assert d in multiset(sorted);
    var j :| 0 <= j < |sorted| && sorted[j] == d;
    var r := GetWordsForReview(vocab, progress, now, limit);
    assert r == sorted[..|r|];
    assert j >= |r|;
    forall k | 0 <= k < |r| ensures r[k].progress.nextReview <= d.progress.nextReview {
      assert r[k] == sorted[k];
      assert EarlierReview(sorted[k], sorted[j]);
    }
  }

  /**
   * An item scored at time `now` is not due for review at `now`: the next
   * review is at least a day ahead, on the first and on later updates alike.
   */
  lemma JustScoredNotDue(vocab: seq<VocabItem>, progress: map<int, ProgressRow>, vocabularyId: int, correct: bool, now: int, limit: int)
    requires ProgressUpdate(vocab, progress, vocabularyId, correct, now).Ok?
    ensures var p := ProgressUpdate(vocab, progress, vocabularyId, correct, now).value;
      && p[vocabularyId].nextReview >= now + MicrosecondsPerDay
      && forall i :: 0 <= i < |GetWordsForReview(vocab, p, now, limit)| ==>
           GetWordsForReview(vocab, p, now, limit)[i].item.id != vocabularyId
  {
    var p := ProgressUpdate(vocab, progress, vocabularyId, correct, now).value;
    WordsForReviewDueAndOrdered(vocab, p, now, limit);
  }

  // ---------------------------------------------------------------------------
  // The store object

  class MandarinDatabase {
    var vocabulary: seq<VocabItem>
    var progress: map<int, ProgressRow>
    var quizResults: seq<QuizResultRow>
    var learningSessions: seq<LearningSessionRow>
    var nextVocabularyId: int
    var nextQuizResultId: int

    ghost predicate Valid()
      reads this
    {
      && nextVocabularyId >= 1 && nextQuizResultId >= 1
      && VocabularyValid(vocabulary, nextVocabularyId)
      && ProgressValid(progress, vocabulary)
      && ResultsValid(quizResults, nextQuizResultId)
    }

    /** A connected store whose schema has just been created: all tables empty. */
    constructor ()
      ensures Valid()
      ensures vocabulary == [] && progress == map[] && quizResults == [] && learningSessions == []
    {
      vocabulary, progress, quizResults, learningSessions := [], map[], [], [];
      nextVocabularyId, nextQuizResultId := 1, 1;
    }

    /**
     * `add_vocabulary`: refuses a level outside 1..6, then refuses a second row
     * with the same (chinese, hsk_level); otherwise appends the row under the
     * next id and returns that id. A refusal changes nothing.
     */
    method AddVocabulary(
      chinese: string, pinyin: string, english: string, hskLevel: int,
      wordType: Option<string>, exampleSentence: Option<string>, now: int)
      returns (r: Result<int, DbError>)
      requires Valid()
      modifies this
      ensures Valid()
      ensures !(1 <= hskLevel <= 6) ==> r == Err(InvalidHskLevel(hskLevel))
      ensures 1 <= hskLevel <= 6 && HasEntry(old(vocabulary), chinese, hskLevel) ==> r == Err(UniqueViolation(chinese, hskLevel))
      ensures r.Ok? <==> 1 <= hskLevel <= 6 && !HasEntry(old(vocabulary), chinese, hskLevel)
      ensures r.Err? ==> vocabulary == old(vocabulary) && nextVocabularyId == old(nextVocabularyId)
      ensures r.Ok? ==>
        && r.value == old(nextVocabularyId)
        && vocabulary == old(vocabulary) + [VocabItem(r.value, chinese, pinyin, english, hskLevel, wordType, exampleSentence, now)]
        && nextVocabularyId == old(nextVocabularyId) + 1
      ensures progress == old(progress) && quizResults == old(quizResults) && learningSessions == old(learningSessions)
      ensures nextQuizResultId == old(nextQuizResultId)
    {
      if !(1 <= hskLevel <= 6) {
        return Err(InvalidHskLevel(hskLevel));
      }
      if HasEntry(vocabulary, chinese, hskLevel) {
        return Err(UniqueViolation(chinese, hskLevel));
      }
      var id := nextVocabularyId;
      var item := VocabItem(id, chinese, pinyin, english, hskLevel, wordType, exampleSentence, now);
      ghost var before := vocabulary;
      vocabulary := vocabulary + [item];
      nextVocabularyId := nextVocabularyId + 1;
      forall k | k in progress ensures HasId(vocabulary, k) {
        var i :| 0 <= i < |before| && before[i].id == k;
        assert vocabulary[i].id == k;
      }
      r := Ok(id);
    }

    /**
     * `update_progress`: the progress table becomes `ProgressUpdate` of the old
     * one, or stays as it was when the foreign key refuses the insert.
     */
    method UpdateProgress(vocabularyId: int, correct: bool, now: int) returns (r: Outcome<DbError>)
      requires Valid()
      modifies this
      ensures Valid()
      ensures var u := ProgressUpdate(old(vocabulary), old(progress), vocabularyId, correct, now);
        && (u.Ok? ==> r == Pass && progress == u.value)
        && (u.Err? ==> r == Fail(u.error) && progress == old(progress))
      ensures vocabulary == old(vocabulary) && quizResults == old(quizResults) && learningSessions == old(learningSessions)
      ensures nextVocabularyId == old(nextVocabularyId) && nextQuizResultId == old(nextQuizResultId)
    {
      var u := ProgressUpdate(vocabulary, progress, vocabularyId, correct, now);
      if u.Err? {
        return Fail(u.error);
      }
      ProgressUpdateKeepsValid(vocabulary, progress, vocabularyId, correct, now);
      progress := u.value;
      r := Pass;
    }

    /**
     * `record_quiz_result`: appends one row with score `correct / total * 100`
     * (0 for an empty quiz) under the next id and returns that id; the CHECK on
     * `hsk_level` refuses a level outside 1..6 and then nothing changes.
     */
    method RecordQuizResult(
      quizType: string, hskLevel: Option<int>, totalQuestions: int, correctAnswers: int,
      durationSeconds: Option<int>, now: int)
      returns (r: Result<int, DbError>)
      requires Valid()
      modifies this
      ensures Valid()
      ensures hskLevel.Some? && !(1 <= hskLevel.value <= 6) ==>
        r == Err(CheckViolation(hskLevel.value)) && quizResults == old(quizResults) && nextQuizResultId == old(nextQuizResultId)
      ensures (hskLevel.None? || 1 <= hskLevel.value <= 6) ==>
        && r == Ok(old(nextQuizResultId))
        && quizResults == old(quizResults) + [QuizResultRow(r.value, quizType, hskLevel, totalQuestions, correctAnswers,
                                                             Percentage(correctAnswers, totalQuestions), durationSeconds, now)]
        && nextQuizResultId == old(nextQuizResultId) + 1
      ensures vocabulary == old(vocabulary) && progress == old(progress) && learningSessions == old(learningSessions)
      ensures nextVocabularyId == old(nextVocabularyId)
    {
      var score := Percentage(correctAnswers, totalQuestions);
      if hskLevel.Some? && !(1 <= hskLevel.value <= 6) {
        return Err(CheckViolation(hskLevel.value));
      }
      var id := nextQuizResultId;
      quizResults := quizResults + [QuizResultRow(id, quizType, hskLevel, totalQuestions, correctAnswers, score, durationSeconds, now)];
      nextQuizResultId := nextQuizResultId + 1;
      r := Ok(id);
    }

    /** `clear_all_progress`: empties progress, quiz results and learning sessions; vocabulary stays. */
    method ClearAllProgress()
      requires Valid()
      modifies this
      ensures Valid()
      ensures progress == map[] && quizResults == [] && learningSessions == []
      ensures vocabulary == old(vocabulary)
      ensures nextVocabularyId == old(nextVocabularyId) && nextQuizResultId == old(nextQuizResultId)
    {
      progress, quizResults, learningSessions := map[], [], [];
    }
  }
}
