/**
 * The spaced-repetition policy behind `update_progress`: one progress row per
 * vocabulary item, a mastery level clamped to 0..5, counters that move in
 * lockstep, and a review date taken from a fixed table of day offsets.
 * Timestamps are whole microseconds supplied by the caller, the resolution
 * of Python's `datetime.now()`.
 */
module Mastery {
  import opened Wrappers

  const MicrosecondsPerSecond: int := 1_000_000
  const MicrosecondsPerDay: int := 86400 * MicrosecondsPerSecond

  /** Days until the next review, by the mastery level just reached. */
  const DaysMap: map<int, int> := map[0 := 1, 1 := 3, 2 := 7, 3 := 14, 4 := 30, 5 := 60]

  /** A row of the `user_progress` table. */
  datatype ProgressRow = ProgressRow(
    vocabularyId: int,
    masteryLevel: int,
    timesSeen: int,
    timesCorrect: int,
    timesIncorrect: int,
    lastReviewed: int,
    nextReview: int,
    createdAt: int,
    updatedAt: int)

  /** What every stored row satisfies: the CHECK on mastery and counters in lockstep. */
  predicate ValidRow(r: ProgressRow) {
    && 0 <= r.masteryLevel <= 5
    && r.timesCorrect >= 0 && r.timesIncorrect >= 0
    && r.timesSeen == r.timesCorrect + r.timesIncorrect
    && r.timesSeen >= 1
  }

  function Bit(b: bool): int { if b then 1 else 0 }

  /** Python `max(0, min(5, m))`. */
  function Clamp(m: int): (c: int)
    ensures 0 <= c <= 5
    ensures 0 <= m <= 5 ==> c == m
    ensures m < 0 ==> c == 0
    ensures m > 5 ==> c == 5
  {
    Max(0, Min(5, m))
  }

  /** The row inserted the first time an item is scored. */
  function FirstResult(vocabularyId: int, correct: bool, now: int): (r: ProgressRow)
    ensures ValidRow(r) && r.timesSeen == 1
  {
    ProgressRow(
      vocabularyId := vocabularyId,
      masteryLevel := Bit(correct),
      timesSeen := 1,
      timesCorrect := Bit(correct),
      timesIncorrect := Bit(!correct),
      lastReviewed := now,
      nextReview := now + MicrosecondsPerDay,
      createdAt := now,
      updatedAt := now)
  }

  /** The row after a later scoring event on an existing row. */
  function NextResult(row: ProgressRow, correct: bool, now: int): (r: ProgressRow)
    ensures 0 <= r.masteryLevel <= 5
    ensures r.masteryLevel in DaysMap
    ensures r.vocabularyId == row.vocabularyId && r.createdAt == row.createdAt
    ensures r.timesSeen == row.timesSeen + 1
    ensures ValidRow(row) ==> ValidRow(r)
  {
    var newMastery := Clamp(row.masteryLevel + (if correct then 1 else -1));
    row.(
      masteryLevel := newMastery,
      timesSeen := row.timesSeen + 1,
      timesCorrect := row.timesCorrect + Bit(correct),
      timesIncorrect := row.timesIncorrect + Bit(!correct),
      lastReviewed := now,
      nextReview := now + DaysMap[newMastery] * MicrosecondsPerDay,
      updatedAt := now)
  }

  /** `update_progress` on one row: insert when there is none, update otherwise. */
  function ApplyResult(existing: Option<ProgressRow>, vocabularyId: int, correct: bool, now: int): (r: ProgressRow)
    ensures existing.Some? && ValidRow(existing.value) ==> ValidRow(r)
    ensures existing.None? ==> ValidRow(r)
  {
    match existing
    case None => FirstResult(vocabularyId, correct, now)
    case Some(row) => NextResult(row, correct, now)
  }

  /** The first scoring event: mastery 1 or 0, one sighting, review one day later. */
  lemma FirstResultFields(vocabularyId: int, correct: bool, now: int)
    ensures var r := ApplyResult(None, vocabularyId, correct, now);
      && r.masteryLevel == (if correct then 1 else 0)
      && r.timesSeen == 1
      && r.timesCorrect == (if correct then 1 else 0)
      && r.timesIncorrect == (if correct then 0 else 1)
      && r.lastReviewed == now
      && r.nextReview == now + MicrosecondsPerDay
  {
  }

  /**
   * The first scoring event ignores the day table: a correct first answer
   * reaches mastery 1, for which the table says three days, yet the review is
   * set one day ahead.
   */
  lemma FirstReviewIgnoresTable(vocabularyId: int, now: int)
    ensures var r := ApplyResult(None, vocabularyId, true, now);
      r.masteryLevel == 1 && r.nextReview - now == MicrosecondsPerDay && DaysMap[1] * MicrosecondsPerDay != MicrosecondsPerDay
  {
  }

  /**
   * A later scoring event moves mastery one step towards 5 on a correct answer
   * and towards 0 otherwise, within 0..5; the counters grow by one and the
   * next review follows the day table for the new mastery.
   */
  lemma NextResultFields(row: ProgressRow, correct: bool, now: int)
    requires ValidRow(row)
    ensures var r := ApplyResult(Some(row), row.vocabularyId, correct, now);
      && r.masteryLevel == (if correct then Min(5, row.masteryLevel + 1) else Max(0, row.masteryLevel - 1))
      && r.timesSeen == row.timesSeen + 1
      && r.timesCorrect == row.timesCorrect + (if correct then 1 else 0)
      && r.timesIncorrect == row.timesIncorrect + (if correct then 0 else 1)
      && r.lastReviewed == now
      && r.nextReview == now + DaysMap[r.masteryLevel] * MicrosecondsPerDay
  {
  }

  /** The day table: 1, 3, 7, 14, 30, 60 days for mastery 0..5, growing with mastery. */
  lemma DaysMapGrows()
    ensures forall m :: 0 <= m <= 5 ==> m in DaysMap && DaysMap[m] >= 1
    ensures forall m, n :: 0 <= m < n <= 5 ==> DaysMap[m] < DaysMap[n]
  {
  }

  /** Wrong answers at mastery 0 stay at 0; right answers at mastery 5 stay at 5. */
  lemma MasteryFixedPoints(row: ProgressRow, now: int)
    requires ValidRow(row)
    ensures row.masteryLevel == 0 ==> NextResult(row, false, now).masteryLevel == 0
    ensures row.masteryLevel == 5 ==> NextResult(row, true, now).masteryLevel == 5
  {
  }

  /** A run of scoring events on one item, each with its own answer and clock reading. */
  datatype Event = Event(correct: bool, now: int)

  function ApplyEvents(existing: Option<ProgressRow>, vocabularyId: int, events: seq<Event>): (r: Option<ProgressRow>)
    ensures events != [] ==> r.Some?
    decreases |events|
  {
    if events == [] then existing
    else ApplyEvents(Some(ApplyResult(existing, vocabularyId, events[0].correct, events[0].now)), vocabularyId, events[1..])
  }

  function CountCorrect(events: seq<Event>): (n: nat)
    ensures n <= |events|
  {
    if events == [] then 0 else Bit(events[0].correct) + CountCorrect(events[1..])
  }

  /**
   * After any run of scoring events the row is valid and the counters have
   * grown by exactly the number of events, correct answers and wrong answers.
   */
  lemma {:induction false} ApplyEventsCounters(existing: Option<ProgressRow>, vocabularyId: int, events: seq<Event>)
    requires events != []
    requires existing.Some? ==> ValidRow(existing.value)
    decreases |events|
    ensures var r := ApplyEvents(existing, vocabularyId, events).value;
      var (seen, right, wrong) := if existing.Some?
        then (existing.value.timesSeen, existing.value.timesCorrect, existing.value.timesIncorrect)
        else (0, 0, 0);
      && ValidRow(r)
      && r.timesSeen == seen + |events|
      && r.timesCorrect == right + CountCorrect(events)
      && r.timesIncorrect == wrong + (|events| - CountCorrect(events))
  {
    var next := ApplyResult(existing, vocabularyId, events[0].correct, events[0].now);
    if |events| > 1 {
      ApplyEventsCounters(Some(next), vocabularyId, events[1..]);
    }
  }

  /**
   * Right, right, wrong from scratch: mastery 1 due a day later, then mastery 2
   * due seven days later, then back to mastery 1 due three days later.
   */
  lemma RightRightWrong(vocabularyId: int, t0: int, t1: int, t2: int)
    ensures var r0 := ApplyResult(None, vocabularyId, true, t0);
      var r1 := ApplyResult(Some(r0), vocabularyId, true, t1);
      var r2 := ApplyResult(Some(r1), vocabularyId, false, t2);
      && r0.masteryLevel == 1 && r0.timesSeen == 1 && r0.nextReview == t0 + MicrosecondsPerDay
      && r1.masteryLevel == 2 && r1.nextReview == t1 + 7 * MicrosecondsPerDay
      && r2.masteryLevel == 1 && r2.nextReview == t2 + 3 * MicrosecondsPerDay
      && r2.timesSeen == 3 && r2.timesCorrect == 2 && r2.timesIncorrect == 1
  {
  }

  /**
   * Right, right, wrong, right from scratch ends at mastery 2, seen 4 times,
   * 3 right and 1 wrong, due again 7 days after the last event.
   */
  lemma RightRightWrongRight(vocabularyId: int, t0: int, t1: int, t2: int, t3: int)
    ensures var events := [Event(true, t0), Event(true, t1), Event(false, t2), Event(true, t3)];
      var r := ApplyEvents(None, vocabularyId, events).value;
      && r.masteryLevel == 2 && r.timesSeen == 4 && r.timesCorrect == 3 && r.timesIncorrect == 1
      && r.nextReview == t3 + 7 * MicrosecondsPerDay
  {
    var events := [Event(true, t0), Event(true, t1), Event(false, t2), Event(true, t3)];
    var r0 := FirstResult(vocabularyId, true, t0);
    var r1 := NextResult(r0, true, t1);
    var r2 := NextResult(r1, false, t2);
    var r3 := NextResult(r2, true, t3);
    assert r1.masteryLevel == 2 && r2.masteryLevel == 1 && r3.masteryLevel == 2;
    assert events[1..][1..][1..][1..] == [];
    calc {
      ApplyEvents(None, vocabularyId, events);
      ApplyEvents(Some(r0), vocabularyId, events[1..]);
      ApplyEvents(Some(r1), vocabularyId, events[1..][1..]);
      ApplyEvents(Some(r2), vocabularyId, events[1..][1..][1..]);
      ApplyEvents(Some(r3), vocabularyId, events[1..][1..][1..][1..]);
    }
  }
}
