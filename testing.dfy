/**
 * The quiz engine: a `Quiz` session object, and a `QuizManager` that builds
 * translation and multiple-choice quizzes from one HSK level, keeps them in a
 * table of active quizzes, and grades a submission, recording one progress
 * update per question and one quiz result.
 *
 * Randomness enters as index choices (`random.sample`, `random.shuffle`),
 * the quiz id (`uuid.uuid4()`) as a fresh string, and the clock as `now`.
 */
module Testing {
  import opened Wrappers
  import opened Text
  import opened Seqs
  import opened Mastery
  import opened Database
  import opened Questions

  /** Why a quiz operation raised instead of returning. */
  datatype QuizError =
    | QuizNotFound(quizId: string)
    | AnswerCountMismatch(expected: nat, got: nat)
    | NotEnoughVocabulary
    | NegativeSampleSize
    | Store(error: DbError)

  function QuizErrorMessage(e: QuizError): string {
    match e
    case QuizNotFound(id) => "Quiz " + id + " not found or already completed"
    case AnswerCountMismatch(expected, got) => "Expected " + IntToString(expected) + " answers, got " + IntToString(got)
    case NotEnoughVocabulary => "Need at least 4 vocabulary items for multiple choice"
    case NegativeSampleSize => "Sample larger than population or is negative"
    case Store(error) => DbErrorMessage(error)
  }

  /** A quiz session; only `isCompleted` changes after creation. */
  class Quiz {
    const quizId: string
    const hskLevel: int
    const questions: seq<Question>
    const quizType: string
    const startTime: int
    var userAnswers: seq<string>
    var isCompleted: bool

    constructor (quizId: string, hskLevel: int, questions: seq<Question>, quizType: string, now: int)
      ensures this.quizId == quizId && this.hskLevel == hskLevel && this.questions == questions
      ensures this.quizType == quizType && this.startTime == now
      ensures userAnswers == [] && !isCompleted
    {
      this.quizId, this.hskLevel, this.questions := quizId, hskLevel, questions;
      this.quizType, this.startTime := quizType, now;
      userAnswers, isCompleted := [], false;
    }

    /**
     * `get_duration_seconds()`: the elapsed time since the quiz was created,
     * in whole seconds, its fraction cut off toward zero as `int()` does.
     */
    function DurationSeconds(now: int): (d: int)
      ensures now >= startTime ==>
        0 <= d && d * MicrosecondsPerSecond <= now - startTime < (d + 1) * MicrosecondsPerSecond
      ensures now < startTime ==>
        d <= 0 && (d - 1) * MicrosecondsPerSecond < now - startTime <= d * MicrosecondsPerSecond
    {
      var elapsed := now - startTime;
      if elapsed >= 0 then elapsed / MicrosecondsPerSecond else -((-elapsed) / MicrosecondsPerSecond)
    }
  }

  // ---------------------------------------------------------------------------
  // Quiz generation as functions of the level pool and the random choices

  /** The questions of a translation quiz over the selected words, in selection order. */
  function TranslationQuestions(selected: seq<VocabItem>, direction: string): (qs: seq<Question>)
    ensures |qs| == |selected|
  {
    seq(|selected|, i requires 0 <= i < |selected| => TranslationQuestion(selected[i], direction))
  }

  /** `vocab_list` of both generators: the whole level, in rowid order. */
  function QuizPool(vocab: seq<VocabItem>, hskLevel: int): seq<VocabItem> {
    GetVocabularyByHskLevel(vocab, hskLevel, None)
  }

  /** `num_questions` after `if len(vocab_list) < num_questions: num_questions = len(vocab_list)`. */
  function QuizSize(pool: seq<VocabItem>, numQuestions: int): int {
    if |pool| < numQuestions then |pool| else numQuestions
  }

  lemma InPoolHasId(vocab: seq<VocabItem>, hskLevel: int, v: VocabItem)
    requires v in QuizPool(vocab, hskLevel)
    ensures HasId(vocab, v.id) && v in vocab && v.hskLevel == hskLevel
  {
    LevelPoolMembers(vocab, hskLevel);
    var j :| 0 <= j < |vocab| && vocab[j] == v;
  }

  /**
   * A translation quiz asks about `min(n, |pool|)` different words of the
   * requested level, each once, each a word of the vocabulary.
   */
  lemma TranslationQuizWords(vocab: seq<VocabItem>, nextId: int, hskLevel: int, picks: seq<nat>, direction: string)
    requires VocabularyValid(vocab, nextId)
    requires IsSample(picks, |QuizPool(vocab, hskLevel)|, |picks|)
    ensures var qs := TranslationQuestions(Pick(QuizPool(vocab, hskLevel), picks), direction);
      && |qs| == |picks|
      && (forall i :: 0 <= i < |qs| ==> !qs[i].MultipleChoice? && WellFormed(qs[i]))
      && (forall i :: 0 <= i < |qs| ==> HasIdAtLevel(vocab, qs[i].vocabId, hskLevel))
      && (forall i, j :: 0 <= i < j < |qs| ==> qs[i].vocabId != qs[j].vocabId)
      && AllKnownQuestions(vocab, qs)
  {
    var pool := QuizPool(vocab, hskLevel);
    var selected := Pick(pool, picks);
    var qs := TranslationQuestions(selected, direction);
    LevelPoolIdsUnique(vocab, nextId, hskLevel);
    PickKeysUnique(pool, picks, ItemId);
    forall i | 0 <= i < |qs| ensures qs[i] == TranslationQuestion(selected[i], direction) && qs[i].vocabId == selected[i].id {
    }
    forall i | 0 <= i < |qs| ensures !qs[i].MultipleChoice? && WellFormed(qs[i]) {
      assert QuestionType(qs[i]) == "translation";
    }
    forall i | 0 <= i < |qs|
      ensures HasIdAtLevel(vocab, qs[i].vocabId, hskLevel)
    {
      InPoolHasId(vocab, hskLevel, selected[i]);
      var j :| 0 <= j < |vocab| && vocab[j] == selected[i];
      assert vocab[j].id == qs[i].vocabId && vocab[j].hskLevel == hskLevel;
    }
    forall i | 0 <= i < |qs| ensures HasId(vocab, qs[i].vocabId) {
      InPoolHasId(vocab, hskLevel, selected[i]);
    }
    forall i, j | 0 <= i < j < |qs| ensures qs[i].vocabId != qs[j].vocabId {
      assert ItemId(selected[i]) != ItemId(selected[j]);
    }
  }

  /** The random choices of a multiple-choice quiz: which words, and per word its distractors and shuffle. */
  predicate ChoicePicks(pool: seq<VocabItem>, picks: seq<nat>, distractorPicks: seq<seq<nat>>, orders: seq<seq<nat>>) {
    && IsSample(picks, |pool|, |picks|)
    && |distractorPicks| == |picks| && |orders| == |picks|
    && forall i :: 0 <= i < |picks| ==> ValidChoicePicks(Others(pool, pool[picks[i]]), distractorPicks[i], orders[i])
  }

  /** One multiple-choice question about `target`, with distractors from the rest of the pool. */
  function ChoiceQuestionFor(pool: seq<VocabItem>, target: VocabItem, distractorPicks: seq<nat>, order: seq<nat>): (q: Question)
    requires KeysUnique(pool, ItemId) && |pool| >= 4 && target in pool
    requires ValidChoicePicks(Others(pool, target), distractorPicks, order)
  {
    OthersSize(pool, target);
    MultipleChoiceQuestion(target, Others(pool, target), distractorPicks, order)
  }

  /** The question about the `i`-th selected word. */
  function ChoiceQuestionAt(pool: seq<VocabItem>, picks: seq<nat>, distractorPicks: seq<seq<nat>>, orders: seq<seq<nat>>, i: nat)
    : Question
    requires KeysUnique(pool, ItemId) && |pool| >= 4 && ChoicePicks(pool, picks, distractorPicks, orders)
    requires i < |picks|
  {
    ChoiceQuestionFor(pool, pool[picks[i]], distractorPicks[i], orders[i])
  }

  /** The questions of a multiple-choice quiz, in selection order. */
  function MultipleChoiceQuestions(pool: seq<VocabItem>, picks: seq<nat>, distractorPicks: seq<seq<nat>>, orders: seq<seq<nat>>)
    : (qs: seq<Question>)
    requires KeysUnique(pool, ItemId) && |pool| >= 4 && ChoicePicks(pool, picks, distractorPicks, orders)
    ensures |qs| == |picks|
  {
    seq(|picks|, i requires 0 <= i < |picks| => ChoiceQuestionAt(pool, picks, distractorPicks, orders, i))
  }

  /**
   * Every multiple-choice question is about a different word of the level,
   * its answer letter labels that word's English, and the letter is one
   * `check_answer` can look up.
   */
  lemma MultipleChoiceQuizWords(
    vocab: seq<VocabItem>, nextId: int, hskLevel: int,
    picks: seq<nat>, distractorPicks: seq<seq<nat>>, orders: seq<seq<nat>>)
    requires VocabularyValid(vocab, nextId)
    requires |QuizPool(vocab, hskLevel)| >= 4
    requires KeysUnique(QuizPool(vocab, hskLevel), ItemId)
    requires ChoicePicks(QuizPool(vocab, hskLevel), picks, distractorPicks, orders)
    ensures var pool := QuizPool(vocab, hskLevel);
      var qs := MultipleChoiceQuestions(pool, picks, distractorPicks, orders);
      && (forall i :: 0 <= i < |qs| ==>
            && qs[i].MultipleChoice? && WellFormed(qs[i])
            && qs[i].vocabId == pool[picks[i]].id
            && qs[i].choices[qs[i].correctAnswer] == pool[picks[i]].english
            && HasId(vocab, qs[i].vocabId))
      && (forall i, j :: 0 <= i < j < |qs| ==> qs[i].vocabId != qs[j].vocabId)
  {
    var pool := QuizPool(vocab, hskLevel);
    var qs := MultipleChoiceQuestions(pool, picks, distractorPicks, orders);
    forall i | 0 <= i < |qs|
      ensures && qs[i].MultipleChoice? && WellFormed(qs[i])
              && qs[i].vocabId == pool[picks[i]].id
              && qs[i].choices[qs[i].correctAnswer] == pool[picks[i]].english
              && HasId(vocab, qs[i].vocabId)
    {
      var target := pool[picks[i]];
      assert qs[i] == ChoiceQuestionAt(pool, picks, distractorPicks, orders, i);
      assert qs[i] == ChoiceQuestionFor(pool, target, distractorPicks[i], orders[i]);
      LetterAnswer(qs[i].correctAnswer);
      InPoolHasId(vocab, hskLevel, target);
    }
    forall i, j | 0 <= i < j < |qs| ensures qs[i].vocabId != qs[j].vocabId {
      assert ItemId(pool[picks[i]]) != ItemId(pool[picks[j]]);
    }
  }

  // ---------------------------------------------------------------------------
  // Grading a submission as functions of the questions and the answers

  /** One entry of the `results` list `submit_quiz` returns. */
  datatype QuestionResult = QuestionResult(
    questionNumber: nat,
    question: string,
    userAnswer: string,
    correctAnswer: string,
    isCorrect: bool,
    feedback: string)

  /** The dictionary `submit_quiz` returns. */
  datatype QuizReport = QuizReport(
    quizId: string,
    totalQuestions: nat,
    correctAnswers: nat,
    incorrectAnswers: int,
    scorePercentage: real,
    durationSeconds: int,
    results: seq<QuestionResult>)

  /** The dictionary `submit_quiz` returns for a graded submission. */
  function Report(quizId: string, questions: seq<Question>, answers: seq<string>, duration: int): QuizReport
    requires |answers| == |questions| && AllWellFormed(questions)
  {
    var results := Grade(questions, answers);
    var c := CorrectCount(results);
    QuizReport(quizId, |questions|, c, |questions| - c, Percentage(c, |questions|), duration, results)
  }

  predicate AllWellFormed(questions: seq<Question>) {
    forall i :: 0 <= i < |questions| ==> WellFormed(questions[i])
  }

  function GradeOne(q: Question, number: nat, answer: string): QuestionResult
    requires WellFormed(q)
  {
    var v := CheckAnswer(q, answer);
    QuestionResult(number, q.text, answer, q.correctAnswer, v.isCorrect, v.feedback)
  }

  /** The per-question results, numbered from 1. */
  function Grade(questions: seq<Question>, answers: seq<string>): (r: seq<QuestionResult>)
    requires |answers| == |questions| && AllWellFormed(questions)
    ensures |r| == |questions|
  {
    seq(|questions|, i requires 0 <= i < |questions| => GradeOne(questions[i], i + 1, answers[i]))
  }

  /** `correct_count`: how many results are correct. */
  function CorrectCount(results: seq<QuestionResult>): (c: nat)
    ensures c <= |results|
  {
    if results == [] then 0
    else CorrectCount(results[..|results| - 1]) + (if results[|results| - 1].isCorrect then 1 else 0)
  }

  /** The count is the whole quiz exactly when every answer is correct, and 0 exactly when none is. */
  lemma {:induction false} CorrectCountExtremes(results: seq<QuestionResult>)
    ensures CorrectCount(results) == |results| <==> forall i :: 0 <= i < |results| ==> results[i].isCorrect
    ensures CorrectCount(results) == 0 <==> forall i :: 0 <= i < |results| ==> !results[i].isCorrect
  {
    if results != [] {
      var init := results[..|results| - 1];
      CorrectCountExtremes(init);
      assert forall i :: 0 <= i < |init| ==> init[i] == results[i];
    }
  }

  lemma CorrectCountAppend(results: seq<QuestionResult>, r: QuestionResult)
    ensures CorrectCount(results + [r]) == CorrectCount(results) + (if r.isCorrect then 1 else 0)
  {
    assert (results + [r])[..|results|] == results;
  }

  /**
   * A report's counts agree: right plus wrong answers make the question
   * count, which is the number of per-question results, each numbered by its
   * position and carrying that question's own verdict on that answer.
   */
  lemma ReportTotals(quizId: string, questions: seq<Question>, answers: seq<string>, duration: int)
    requires |answers| == |questions| && AllWellFormed(questions)
    ensures var rep := Report(quizId, questions, answers, duration);
      && rep.correctAnswers + rep.incorrectAnswers == rep.totalQuestions == |rep.results| == |questions|
      && rep.incorrectAnswers >= 0
      && (forall i :: 0 <= i < |rep.results| ==>
            && rep.results[i].questionNumber == i + 1
            && rep.results[i].userAnswer == answers[i]
            && rep.results[i].isCorrect == CheckAnswer(questions[i], answers[i]).isCorrect)
      && (rep.correctAnswers == rep.totalQuestions <==> forall i :: 0 <= i < |rep.results| ==> rep.results[i].isCorrect)
  {
    var results := Grade(questions, answers);
    var rep := Report(quizId, questions, answers, duration);
    assert rep.results == results && rep.correctAnswers == CorrectCount(results);
    assert rep.totalQuestions == |questions| && rep.incorrectAnswers == |questions| - CorrectCount(results);
    GradeEntries(questions, answers);
    CorrectCountExtremes(results);
  }

  /** The i-th graded result is numbered i + 1 and carries answer i with `check_answer`'s verdict on it. */
  lemma GradeEntries(questions: seq<Question>, answers: seq<string>)
    requires |answers| == |questions| && AllWellFormed(questions)
    ensures forall i :: 0 <= i < |questions| ==>
      && Grade(questions, answers)[i].questionNumber == i + 1
      && Grade(questions, answers)[i].userAnswer == answers[i]
      && Grade(questions, answers)[i].isCorrect == CheckAnswer(questions[i], answers[i]).isCorrect
  {
    var results := Grade(questions, answers);
    forall i | 0 <= i < |results|
      ensures && results[i].questionNumber == i + 1
              && results[i].userAnswer == answers[i]
              && results[i].isCorrect == CheckAnswer(questions[i], answers[i]).isCorrect
    {
      assert results[i] == GradeOne(questions[i], i + 1, answers[i]);
    }
  }

  /** One `update_progress(vocab_id, correct)` call of a submission. */
  datatype Answered = Answered(vocabularyId: int, correct: bool)

  /** The progress updates a submission makes, one per question in order. */
  function ProgressUpdates(questions: seq<Question>, results: seq<QuestionResult>): (us: seq<Answered>)
    requires |results| == |questions|
    ensures |us| == |questions|
  {
    seq(|questions|, i requires 0 <= i < |questions| => Answered(questions[i].vocabId, results[i].isCorrect))
  }

  predicate AllKnown(vocab: seq<VocabItem>, us: seq<Answered>) {
    forall i :: 0 <= i < |us| ==> HasId(vocab, us[i].vocabularyId)
  }

  /** Every update of a submission, and of each of its prefixes, is about a stored word. */
  lemma UpdatesKnown(vocab: seq<VocabItem>, questions: seq<Question>, results: seq<QuestionResult>)
    requires |results| == |questions| && AllKnownQuestions(vocab, questions)
    ensures AllKnown(vocab, ProgressUpdates(questions, results))
    ensures forall n :: 0 <= n <= |questions| ==> AllKnown(vocab, ProgressUpdates(questions, results)[..n])
  {
    var us := ProgressUpdates(questions, results);
    forall k | 0 <= k < |us| ensures HasId(vocab, us[k].vocabularyId) {
      assert us[k].vocabularyId == questions[k].vocabId;
    }
  }

  /** The progress table after the updates, applied in order; none is refused as every id is a word. */
  function ApplyUpdates(vocab: seq<VocabItem>, progress: map<int, ProgressRow>, us: seq<Answered>, now: int)
    : (r: map<int, ProgressRow>)
    requires AllKnown(vocab, us)
    decreases |us|
  {
    if us == [] then progress
    else
      var last := us[|us| - 1];
      var before := ApplyUpdates(vocab, progress, us[..|us| - 1], now);
      ProgressUpdate(vocab, before, last.vocabularyId, last.correct, now).value
  }

  /** After a run of updates the table holds the rows it had plus one for every word answered. */
  lemma {:induction false} ApplyUpdatesKeys(vocab: seq<VocabItem>, progress: map<int, ProgressRow>, us: seq<Answered>, now: int)
    requires AllKnown(vocab, us)
    ensures ApplyUpdates(vocab, progress, us, now).Keys == progress.Keys + UpdatedIds(us)
    decreases |us|
  {
    if us != [] {
      ApplyUpdatesKeys(vocab, progress, us[..|us| - 1], now);
    }
  }

  /** The words a run of updates touches. */
  function UpdatedIds(us: seq<Answered>): (ids: set<int>)
    ensures forall k :: k in ids <==> exists i :: 0 <= i < |us| && us[i].vocabularyId == k
  {
    if us == [] then {}
    else
      var init := us[..|us| - 1];
      assert forall i :: 0 <= i < |init| ==> init[i] == us[i];
      UpdatedIds(init) + {us[|us| - 1].vocabularyId}
  }

  /** Applying one more update of a run: the `i`-th one, to the table after the first `i`. */
  lemma ApplyUpdatesStep(vocab: seq<VocabItem>, progress: map<int, ProgressRow>, us: seq<Answered>, i: nat, now: int)
    requires AllKnown(vocab, us) && i < |us|
    ensures AllKnown(vocab, us[..i]) && AllKnown(vocab, us[..i + 1])
    ensures ProgressUpdate(vocab, ApplyUpdates(vocab, progress, us[..i], now), us[i].vocabularyId, us[i].correct, now)
      == Ok(ApplyUpdates(vocab, progress, us[..i + 1], now))
  {
    assert us[..i + 1][..i] == us[..i];
  }

  function CorrectUpdates(us: seq<Answered>): nat {
    if us == [] then 0 else CorrectUpdates(us[..|us| - 1]) + (if us[|us| - 1].correct then 1 else 0)
  }

  /** Updates keep the progress table valid, and rows of words not in the quiz are untouched. */
  lemma {:induction false} ApplyUpdatesValid(vocab: seq<VocabItem>, progress: map<int, ProgressRow>, us: seq<Answered>, now: int)
    requires AllKnown(vocab, us) && ProgressValid(progress, vocab)
    ensures ProgressValid(ApplyUpdates(vocab, progress, us, now), vocab)
    ensures forall k :: k in progress && (forall i :: 0 <= i < |us| ==> us[i].vocabularyId != k) ==>
      k in ApplyUpdates(vocab, progress, us, now) && ApplyUpdates(vocab, progress, us, now)[k] == progress[k]
    decreases |us|
  {
    if us != [] {
      var init := us[..|us| - 1];
      var last := us[|us| - 1];
      ApplyUpdatesValid(vocab, progress, init, now);
      var before := ApplyUpdates(vocab, progress, init, now);
      ProgressUpdateKeepsValid(vocab, before, last.vocabularyId, last.correct, now);
      forall k | k in progress && (forall i :: 0 <= i < |us| ==> us[i].vocabularyId != k)
        ensures k in ApplyUpdates(vocab, progress, us, now) && ApplyUpdates(vocab, progress, us, now)[k] == progress[k]
      {
        assert forall i :: 0 <= i < |init| ==> init[i].vocabularyId != k;
        assert last.vocabularyId != k;
      }
    }
  }

  /**
   * A submission adds one review per question to the statistics, one right
   * answer per correct answer and one wrong answer per incorrect one.
   */
  lemma {:induction false} ApplyUpdatesStats(vocab: seq<VocabItem>, progress: map<int, ProgressRow>, us: seq<Answered>, now: int)
    requires AllKnown(vocab, us)
    ensures var before := GetProgressStats(progress);
      var after := GetProgressStats(ApplyUpdates(vocab, progress, us, now));
      && after.totalReviews == before.totalReviews + |us|
      && after.totalCorrect == before.totalCorrect + CorrectUpdates(us)
      && after.totalIncorrect == before.totalIncorrect + (|us| - CorrectUpdates(us))
    decreases |us|
  {
    if us != [] {
      var init := us[..|us| - 1];
      var last := us[|us| - 1];
      ApplyUpdatesStats(vocab, progress, init, now);
      var before := ApplyUpdates(vocab, progress, init, now);
      ProgressUpdateStats(vocab, before, last.vocabularyId, last.correct, now);
      CorrectUpdatesBound(init);
    }
  }

  lemma {:induction false} CorrectUpdatesBound(us: seq<Answered>)
    ensures CorrectUpdates(us) <= |us|
  {
    if us != [] {
      CorrectUpdatesBound(us[..|us| - 1]);
    }
  }

  /** The updates of a submission carry exactly as many right answers as the report counts. */
  lemma {:induction false} UpdatesMatchResults(questions: seq<Question>, results: seq<QuestionResult>)
    requires |results| == |questions|
    ensures CorrectUpdates(ProgressUpdates(questions, results)) == CorrectCount(results)
    decreases |questions|
  {
    if questions != [] {
      var n := |questions| - 1;
      UpdatesMatchResults(questions[..n], results[..n]);
      assert ProgressUpdates(questions, results)[..n] == ProgressUpdates(questions[..n], results[..n]);
    }
  }

  /**
   * Submitting a translation quiz's own stored answers scores every question
   * correct.
   */
  lemma AnswerKeyScoresFull(questions: seq<Question>)
    requires forall i :: 0 <= i < |questions| ==> !questions[i].MultipleChoice?
    ensures var key := AnswerKey(questions);
      && AllWellFormed(questions)
      && CorrectCount(Grade(questions, key)) == |questions|
      && (|questions| > 0 ==> Percentage(CorrectCount(Grade(questions, key)), |questions|) == 100.0)
  {
    var key := AnswerKey(questions);
    var r := Grade(questions, key);
    forall i | 0 <= i < |r| ensures r[i].isCorrect {
      KeyAnswerCorrect(questions[i], i + 1);
    }
    CorrectCountExtremes(r);
    FullScore(|questions|);
  }

  /** The stored answers of the questions, in order. */
  function AnswerKey(questions: seq<Question>): (key: seq<string>)
    ensures |key| == |questions|
  {
    seq(|questions|, i requires 0 <= i < |questions| => questions[i].correctAnswer)
  }

  lemma KeyAnswerCorrect(q: Question, number: nat)
    requires !q.MultipleChoice?
    ensures GradeOne(q, number, q.correctAnswer).isCorrect
  {
    StoredAnswerAccepted(q);
  }

  lemma FullScore(n: int)
    ensures n > 0 ==> Percentage(n, n) == 100.0
  {
    PercentageMeaning(n, n);
  }

  /** The question-building loop of `generate_translation_quiz`. */
  method BuildTranslationQuestions(selected: seq<VocabItem>, direction: string) returns (questions: seq<Question>)
    ensures questions == TranslationQuestions(selected, direction)
  {
    questions := [];
    var i := 0;
    while i < |selected|
      invariant 0 <= i <= |selected|
      invariant |questions| == i
      invariant forall j :: 0 <= j < i ==> questions[j] == TranslationQuestion(selected[j], direction)
    {
      questions := questions + [TranslationQuestion(selected[i], direction)];
      i := i + 1;
    }
  }

  /** The question-building loop of `generate_multiple_choice_quiz`. */
  method BuildChoiceQuestions(pool: seq<VocabItem>, picks: seq<nat>, distractorPicks: seq<seq<nat>>, orders: seq<seq<nat>>)
    returns (questions: seq<Question>)
    requires KeysUnique(pool, ItemId) && |pool| >= 4 && ChoicePicks(pool, picks, distractorPicks, orders)
    ensures questions == MultipleChoiceQuestions(pool, picks, distractorPicks, orders)
  {
    ghost var all := MultipleChoiceQuestions(pool, picks, distractorPicks, orders);
    questions := [];
    var i := 0;
    while i < |picks|
      invariant 0 <= i <= |picks|
      invariant questions == all[..i]
    {
      var question := ChoiceQuestionAt(pool, picks, distractorPicks, orders, i);
      assert question == all[i];
      PrefixStep(all, i);
      questions := questions + [question];
      i := i + 1;
    }
    assert all[..i] == all;
  }

  // ---------------------------------------------------------------------------
  // The manager

  class QuizManager {
    const db: MandarinDatabase
    var activeQuizzes: map<string, Quiz>

    /**
     * The store is valid; every active quiz is filed under its own id, is not
     * completed, and asks only well-formed questions about stored words.
     */
    ghost predicate Valid()
      reads this, db, activeQuizzes.Values
    {
      && db.Valid()
      && forall id :: id in activeQuizzes ==>
           && activeQuizzes[id].quizId == id
           && !activeQuizzes[id].isCompleted
           && AllWellFormed(activeQuizzes[id].questions)
           && AllKnownQuestions(db.vocabulary, activeQuizzes[id].questions)
    }

    constructor (db: MandarinDatabase)
      requires db.Valid()
      ensures this.db == db && activeQuizzes == map[]
      ensures Valid()
    {
      this.db := db;
      activeQuizzes := map[];
    }

    /** `get_active_quiz(quiz_id)`: the quiz filed under the id, which is never a completed one. */
    function GetActiveQuiz(quizId: string): (r: Option<Quiz>)
      requires Valid()
      reads this, db, activeQuizzes.Values
      ensures r.Some? <==> quizId in activeQuizzes
      ensures r.Some? ==> r.value.quizId == quizId && !r.value.isCompleted
    {
      if quizId in activeQuizzes then Some(activeQuizzes[quizId]) else None
    }

    /**
     * `generate_translation_quiz`: samples `min(n, |pool|)` words of the level
     * (a negative `n` makes `random.sample` raise) and files a new quiz of
     * translation questions under a fresh id.
     */
    method GenerateTranslationQuiz(hskLevel: int, numQuestions: int, direction: string, picks: seq<nat>, quizId: string, now: int)
      returns (r: Result<Quiz, QuizError>)
      requires Valid() && quizId !in activeQuizzes
      requires QuizSize(QuizPool(db.vocabulary, hskLevel), numQuestions) >= 0 ==>
        IsSample(picks, |QuizPool(db.vocabulary, hskLevel)|, QuizSize(QuizPool(db.vocabulary, hskLevel), numQuestions))
      modifies this
      ensures Valid()
      ensures numQuestions < 0 ==> r == Err(NegativeSampleSize) && activeQuizzes == old(activeQuizzes)
      ensures numQuestions >= 0 ==>
        && r.Ok? && fresh(r.value)
        && r.value.quizId == quizId && r.value.hskLevel == hskLevel && r.value.quizType == "translation"
        && r.value.startTime == now && !r.value.isCompleted
        && r.value.questions == TranslationQuestions(Pick(QuizPool(db.vocabulary, hskLevel), picks), direction)
        && activeQuizzes == old(activeQuizzes)[quizId := r.value]
    {
      var pool := GetVocabularyByHskLevel(db.vocabulary, hskLevel, None);
      var n := numQuestions;
      if |pool| < n {
        n := |pool|;
      }
      if n < 0 {
        return Err(NegativeSampleSize);
      }
      var questions := BuildTranslationQuestions(Pick(pool, picks), direction);
      TranslationQuizWords(db.vocabulary, db.nextVocabularyId, hskLevel, picks, direction);
      var quiz := new Quiz(quizId, hskLevel, questions, "translation", now);
      Register(quiz);
      r := Ok(quiz);
    }

    /**
     * `generate_multiple_choice_quiz`: refuses a level with fewer than four
     * words, then samples `min(n, |pool|)` of them (a negative `n` makes
     * `random.sample` raise) and files a new quiz of lettered questions.
     */
    method GenerateMultipleChoiceQuiz(
      hskLevel: int, numQuestions: int,
      picks: seq<nat>, distractorPicks: seq<seq<nat>>, orders: seq<seq<nat>>, quizId: string, now: int)
      returns (r: Result<Quiz, QuizError>)
      requires Valid() && quizId !in activeQuizzes
      requires |QuizPool(db.vocabulary, hskLevel)| >= 4 && numQuestions >= 0 ==>
        && |picks| == QuizSize(QuizPool(db.vocabulary, hskLevel), numQuestions)
        && ChoicePicks(QuizPool(db.vocabulary, hskLevel), picks, distractorPicks, orders)
      modifies this
      ensures Valid()
      ensures |QuizPool(db.vocabulary, hskLevel)| < 4 ==> r == Err(NotEnoughVocabulary) && activeQuizzes == old(activeQuizzes)
      ensures |QuizPool(db.vocabulary, hskLevel)| >= 4 && numQuestions < 0 ==>
        r == Err(NegativeSampleSize) && activeQuizzes == old(activeQuizzes)
      ensures |QuizPool(db.vocabulary, hskLevel)| >= 4 && numQuestions >= 0 ==>
        && KeysUnique(QuizPool(db.vocabulary, hskLevel), ItemId)
        && r.Ok? && fresh(r.value)
        && r.value.quizId == quizId && r.value.hskLevel == hskLevel && r.value.quizType == "multiple_choice"
        && r.value.startTime == now && !r.value.isCompleted
        && r.value.questions == MultipleChoiceQuestions(QuizPool(db.vocabulary, hskLevel), picks, distractorPicks, orders)
        && activeQuizzes == old(activeQuizzes)[quizId := r.value]
    {
      var pool := GetVocabularyByHskLevel(db.vocabulary, hskLevel, None);
      var n := numQuestions;
      if |pool| < n {
        n := |pool|;
      }
      if |pool| < 4 {
        return Err(NotEnoughVocabulary);
      }
      if n < 0 {
        return Err(NegativeSampleSize);
      }
      LevelPoolIdsUnique(db.vocabulary, db.nextVocabularyId, hskLevel);
      var questions := BuildChoiceQuestions(pool, picks, distractorPicks, orders);
      MultipleChoiceQuizWords(db.vocabulary, db.nextVocabularyId, hskLevel, picks, distractorPicks, orders);
      var quiz := new Quiz(quizId, hskLevel, questions, "multiple_choice", now);
      Register(quiz);
      r := Ok(quiz);
    }

    /** `self.active_quizzes[quiz_id] = quiz` for a new quiz. */
    method Register(quiz: Quiz)
      requires Valid() && quiz.quizId !in activeQuizzes && !quiz.isCompleted
      requires AllWellFormed(quiz.questions) && AllKnownQuestions(db.vocabulary, quiz.questions)
      modifies this
      ensures Valid()
      ensures activeQuizzes == old(activeQuizzes)[quiz.quizId := quiz]
    {
      activeQuizzes := activeQuizzes[quiz.quizId := quiz];
    }

    /** One pass of the loop of `submit_quiz`: `check_answer`, the result entry, and `update_progress`. */
    method AnswerOne(question: Question, number: nat, answer: string, now: int) returns (result: QuestionResult)
      requires db.Valid() && WellFormed(question) && HasId(db.vocabulary, question.vocabId)
      modifies db
      ensures db.Valid()
      ensures result == GradeOne(question, number, answer)
      ensures Ok(db.progress) == ProgressUpdate(old(db.vocabulary), old(db.progress), question.vocabId, result.isCorrect, now)
      ensures db.vocabulary == old(db.vocabulary) && db.quizResults == old(db.quizResults)
      ensures db.learningSessions == old(db.learningSessions)
      ensures db.nextVocabularyId == old(db.nextVocabularyId) && db.nextQuizResultId == old(db.nextQuizResultId)
    {
      var verdict := CheckAnswer(question, answer);
      result := QuestionResult(number, question.text, answer, question.correctAnswer, verdict.isCorrect, verdict.feedback);
      var outcome := db.UpdateProgress(question.vocabId, verdict.isCorrect, now);
    }

    /**
     * The loop of `submit_quiz`: checks each answer in order and records its
     * progress update at once; no update is refused, as every question is
     * about a stored word.
     */
    method GradeAndRecordProgress(questions: seq<Question>, answers: seq<string>, now: int)
      returns (results: seq<QuestionResult>, correctCount: nat)
      requires db.Valid() && |answers| == |questions|
      requires AllWellFormed(questions) && AllKnownQuestions(db.vocabulary, questions)
      modifies db
      ensures db.Valid()
      ensures results == Grade(questions, answers) && correctCount == CorrectCount(results)
      ensures AllKnown(old(db.vocabulary), ProgressUpdates(questions, results))
      ensures db.progress == ApplyUpdates(old(db.vocabulary), old(db.progress), ProgressUpdates(questions, results), now)
      ensures db.vocabulary == old(db.vocabulary) && db.quizResults == old(db.quizResults)
      ensures db.learningSessions == old(db.learningSessions)
      ensures db.nextVocabularyId == old(db.nextVocabularyId) && db.nextQuizResultId == old(db.nextQuizResultId)
    {
      ghost var grade := Grade(questions, answers);
      ghost var us := ProgressUpdates(questions, grade);
      ghost var vocab0, progress0 := db.vocabulary, db.progress;
      UpdatesKnown(vocab0, questions, grade);
      results := [];
      correctCount := 0;
      var i := 0;
      while i < |questions|
        invariant 0 <= i <= |questions|
        invariant results == grade[..i] && correctCount == CorrectCount(results)
        invariant db.Valid() && db.vocabulary == vocab0
        invariant AllKnown(vocab0, us[..i])
        invariant db.progress == ApplyUpdates(vocab0, progress0, us[..i], now)
        invariant db.quizResults == old(db.quizResults) && db.learningSessions == old(db.learningSessions)
        invariant db.nextVocabularyId == old(db.nextVocabularyId) && db.nextQuizResultId == old(db.nextQuizResultId)
      {
        results, correctCount := GradeStep(questions, answers, now, i, results, correctCount, vocab0, progress0);
        i := i + 1;
      }
      assert grade[..i] == grade && us[..i] == us;
    }

    /** The bookkeeping of one pass of the loop of `submit_quiz`, against the whole submission's grading. */
    method GradeStep(questions: seq<Question>, answers: seq<string>, now: int, i: nat,
                     results: seq<QuestionResult>, correctCount: nat,
                     ghost vocab0: seq<VocabItem>, ghost progress0: map<int, ProgressRow>)
      returns (results': seq<QuestionResult>, correctCount': nat)
      requires |answers| == |questions| && i < |questions|
      requires AllWellFormed(questions) && AllKnownQuestions(vocab0, questions)
      requires db.Valid() && db.vocabulary == vocab0
      requires results == Grade(questions, answers)[..i] && correctCount == CorrectCount(results)
      requires db.progress == ApplyUpdates(vocab0, progress0, ProgressUpdates(questions, Grade(questions, answers))[..i], now)
      modifies db
      ensures db.Valid() && db.vocabulary == vocab0
      ensures results' == Grade(questions, answers)[..i + 1] && correctCount' == CorrectCount(results')
      ensures db.progress == ApplyUpdates(vocab0, progress0, ProgressUpdates(questions, Grade(questions, answers))[..i + 1], now)
      ensures db.quizResults == old(db.quizResults) && db.learningSessions == old(db.learningSessions)
      ensures db.nextVocabularyId == old(db.nextVocabularyId) && db.nextQuizResultId == old(db.nextQuizResultId)
    {
      GradeStepFacts(questions, answers, now, i, results, vocab0, progress0);
      var result := AnswerOne(questions[i], i + 1, answers[i], now);
      correctCount' := correctCount;
      if result.isCorrect {
        correctCount' := correctCount + 1;
      }
      results' := results + [result];
    }

    /** What one pass of the loop adds to the results, the count and the progress table. */
    static lemma GradeStepFacts(questions: seq<Question>, answers: seq<string>, now: int, i: nat,
                         results: seq<QuestionResult>, vocab0: seq<VocabItem>, progress0: map<int, ProgressRow>)
      requires |answers| == |questions| && i < |questions|
      requires AllWellFormed(questions) && AllKnownQuestions(vocab0, questions)
      requires results == Grade(questions, answers)[..i]
      ensures var result := GradeOne(questions[i], i + 1, answers[i]);
        var us := ProgressUpdates(questions, Grade(questions, answers));
        && results + [result] == Grade(questions, answers)[..i + 1]
        && CorrectCount(results + [result]) == CorrectCount(results) + (if result.isCorrect then 1 else 0)
        && AllKnown(vocab0, us) && AllKnown(vocab0, us[..i]) && AllKnown(vocab0, us[..i + 1])
        && ProgressUpdate(vocab0, ApplyUpdates(vocab0, progress0, us[..i], now), questions[i].vocabId, result.isCorrect, now)
           == Ok(ApplyUpdates(vocab0, progress0, us[..i + 1], now))
    {
      var grade := Grade(questions, answers);
      var us := ProgressUpdates(questions, grade);
      var result := GradeOne(questions[i], i + 1, answers[i]);
      assert result == grade[i];
      CorrectCountAppend(results, result);
      PrefixStep(grade, i);
      assert AllKnown(vocab0, us);
      ApplyUpdatesStep(vocab0, progress0, us, i, now);
    }

    /**
     * `submit_quiz`: grades every answer in order and records one progress
     * update per question, then one quiz result; only when that result is
     * stored is the quiz marked completed and removed. An unknown id or a
     * wrong number of answers changes nothing.
     */
    method SubmitQuiz(quizId: string, answers: seq<string>, now: int) returns (r: Result<QuizReport, QuizError>)
      requires Valid()
      modifies this, db, activeQuizzes.Values
      ensures Valid()
      ensures quizId !in old(activeQuizzes) ==>
        r == Err(QuizNotFound(quizId)) && activeQuizzes == old(activeQuizzes) && unchanged(db)
      ensures quizId in old(activeQuizzes) && |answers| != |old(activeQuizzes)[quizId].questions| ==>
        && r == Err(AnswerCountMismatch(|old(activeQuizzes)[quizId].questions|, |answers|))
        && activeQuizzes == old(activeQuizzes) && unchanged(db)
      ensures quizId in old(activeQuizzes) && |answers| == |old(activeQuizzes)[quizId].questions| ==>
        var quiz := old(activeQuizzes)[quizId];
        var results := Grade(quiz.questions, answers);
        var c := CorrectCount(results);
        var n := |quiz.questions|;
        && AllKnown(old(db.vocabulary), ProgressUpdates(quiz.questions, results))
        && db.progress == ApplyUpdates(old(db.vocabulary), old(db.progress), ProgressUpdates(quiz.questions, results), now)
        && db.vocabulary == old(db.vocabulary) && db.learningSessions == old(db.learningSessions)
        && (!(1 <= quiz.hskLevel <= 6) ==>
              && r == Err(Store(CheckViolation(quiz.hskLevel)))
              && db.quizResults == old(db.quizResults)
              && activeQuizzes == old(activeQuizzes) && !quiz.isCompleted)
        && (1 <= quiz.hskLevel <= 6 ==>
              && r == Ok(Report(quizId, quiz.questions, answers, quiz.DurationSeconds(now)))
              && db.quizResults == old(db.quizResults) + [QuizResultRow(old(db.nextQuizResultId), quiz.quizType,
                   Some(quiz.hskLevel), n, c, Percentage(c, n), Some(quiz.DurationSeconds(now)), now)]
              && activeQuizzes == old(activeQuizzes) - {quizId} && quiz.isCompleted)
    {
      if quizId !in activeQuizzes {
        return Err(QuizNotFound(quizId));
      }
      var quiz := activeQuizzes[quizId];
      if |answers| != |quiz.questions| {
        return Err(AnswerCountMismatch(|quiz.questions|, |answers|));
      }
      r := GradeAndFinish(quiz, answers, now);
    }

    /** `submit_quiz` once the quiz is found and every question has its answer. */
    method GradeAndFinish(quiz: Quiz, answers: seq<string>, now: int) returns (r: Result<QuizReport, QuizError>)
      requires Valid() && quiz.quizId in activeQuizzes && activeQuizzes[quiz.quizId] == quiz
      requires |answers| == |quiz.questions|
      modifies this, db, quiz
      ensures Valid()
      ensures
        var results := Grade(quiz.questions, answers);
        var c := CorrectCount(results);
        var n := |quiz.questions|;
        && AllKnown(old(db.vocabulary), ProgressUpdates(quiz.questions, results))
        && db.progress == ApplyUpdates(old(db.vocabulary), old(db.progress), ProgressUpdates(quiz.questions, results), now)
        && db.vocabulary == old(db.vocabulary) && db.learningSessions == old(db.learningSessions)
        && (!(1 <= quiz.hskLevel <= 6) ==>
              && r == Err(Store(CheckViolation(quiz.hskLevel)))
              && db.quizResults == old(db.quizResults)
              && activeQuizzes == old(activeQuizzes) && !quiz.isCompleted)
        && (1 <= quiz.hskLevel <= 6 ==>
              && r == Ok(Report(quiz.quizId, quiz.questions, answers, quiz.DurationSeconds(now)))
              && db.quizResults == old(db.quizResults) + [QuizResultRow(old(db.nextQuizResultId), quiz.quizType,
                   Some(quiz.hskLevel), n, c, Percentage(c, n), Some(quiz.DurationSeconds(now)), now)]
              && activeQuizzes == old(activeQuizzes) - {quiz.quizId} && quiz.isCompleted)
    {
      var results, correctCount := GradeAndRecordProgress(quiz.questions, answers, now);
      r := FinishQuiz(quiz, answers, results, correctCount, now);
    }

    /**
     * The end of `submit_quiz`: stores the quiz result, and only once it is
     * stored marks the quiz completed, drops it from the active quizzes and
     * builds the report.
     */
    method FinishQuiz(quiz: Quiz, ghost answers: seq<string>, results: seq<QuestionResult>, correctCount: nat, now: int)
      returns (r: Result<QuizReport, QuizError>)
      requires Valid() && quiz.quizId in activeQuizzes && activeQuizzes[quiz.quizId] == quiz
      requires |answers| == |quiz.questions|
      requires results == Grade(quiz.questions, answers) && correctCount == CorrectCount(results)
      modifies this, db, quiz
      ensures Valid()
      ensures db.vocabulary == old(db.vocabulary) && db.progress == old(db.progress)
      ensures db.learningSessions == old(db.learningSessions)
      ensures !(1 <= quiz.hskLevel <= 6) ==>
        && r == Err(Store(CheckViolation(quiz.hskLevel)))
        && db.quizResults == old(db.quizResults)
        && activeQuizzes == old(activeQuizzes) && !quiz.isCompleted
      ensures 1 <= quiz.hskLevel <= 6 ==>
        var n := |quiz.questions|;
        && r == Ok(Report(quiz.quizId, quiz.questions, answers, quiz.DurationSeconds(now)))
        && db.quizResults == old(db.quizResults) + [QuizResultRow(old(db.nextQuizResultId), quiz.quizType,
             Some(quiz.hskLevel), n, correctCount, Percentage(correctCount, n), Some(quiz.DurationSeconds(now)), now)]
        && activeQuizzes == old(activeQuizzes) - {quiz.quizId} && quiz.isCompleted
    {
      var total := |quiz.questions|;
      var score := Percentage(correctCount, total);
      var duration := quiz.DurationSeconds(now);
      assert Report(quiz.quizId, quiz.questions, answers, duration)
          == QuizReport(quiz.quizId, total, correctCount, total - correctCount, score, duration, results);
      var recorded := db.RecordQuizResult(quiz.quizType, Some(quiz.hskLevel), total, correctCount, Some(duration), now);
      if recorded.Err? {
        return Err(Store(recorded.error));
      }
      quiz.isCompleted := true;
      activeQuizzes := activeQuizzes - {quiz.quizId};
      r := Ok(QuizReport(quiz.quizId, total, correctCount, total - correctCount, score, duration, results));
    }
  }

  predicate AllKnownQuestions(vocab: seq<VocabItem>, questions: seq<Question>) {
    forall i :: 0 <= i < |questions| ==> HasId(vocab, questions[i].vocabId)
  }
}
