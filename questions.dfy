/**
 * Quiz questions and answer checking: the question records
 * `generate_translation_quiz` and `generate_multiple_choice_quiz` build from
 * vocabulary rows, and `check_answer`, which grades one answer and writes
 * the feedback line.
 */
module Questions {
  import opened Wrappers
  import opened Text
  import opened Seqs
  import opened Database

  /** A question record; its `question_type` is "translation" for the first two, "multiple_choice" for the last. */
  datatype Question =
    | ChineseToEnglish(text: string, vocabId: int, chinese: string, pinyin: string, correctAnswer: string)
    | EnglishToChinese(text: string, vocabId: int, english: string, correctAnswer: string, pinyinHint: string)
    | MultipleChoice(
        text: string, vocabId: int, chinese: string, pinyin: string,
        choices: map<string, string>, correctAnswer: string)

  function QuestionType(q: Question): string {
    if q.MultipleChoice? then "multiple_choice" else "translation"
  }

  // ---------------------------------------------------------------------------
  // Translation questions

  const ChineseToEnglishDirection: string := "chinese_to_english"

  /**
   * One translation question. Any direction other than "chinese_to_english"
   * produces an English-to-Chinese question. The expected English answer is
   * stored lower-cased and stripped; the expected Chinese answer verbatim.
   */
  function TranslationQuestion(v: VocabItem, direction: string): (q: Question)
    ensures q.vocabId == v.id && QuestionType(q) == "translation"
    ensures direction == ChineseToEnglishDirection ==> q.ChineseToEnglish? && q.correctAnswer == Strip(Lower(v.english))
    ensures direction != ChineseToEnglishDirection ==> q.EnglishToChinese? && q.correctAnswer == v.chinese
  {
    if direction == ChineseToEnglishDirection then
      ChineseToEnglish(
        text := "What does '" + v.chinese + "' (" + v.pinyin + ") mean in English?",
        vocabId := v.id,
        chinese := v.chinese,
        pinyin := v.pinyin,
        correctAnswer := Strip(Lower(v.english)))
    else
      EnglishToChinese(
        text := "How do you say '" + v.english + "' in Chinese? (Pinyin: " + v.pinyin + ")",
        vocabId := v.id,
        english := v.english,
        correctAnswer := v.chinese,
        pinyinHint := v.pinyin)
  }

  // ---------------------------------------------------------------------------
  // Multiple-choice questions

  function DifferentId(target: VocabItem): VocabItem -> bool {
    (v: VocabItem) => v.id != target.id
  }

  /** `[v for v in vocab_list if v['id'] != vocab['id']]`. */
  function Others(pool: seq<VocabItem>, target: VocabItem): (r: seq<VocabItem>)
    ensures forall i :: 0 <= i < |r| ==> r[i].id != target.id && r[i] in pool
  {
    Filter(pool, DifferentId(target))
  }

  /** In a pool with unique ids that holds the target, exactly the target is left out. */
  lemma OthersSize(pool: seq<VocabItem>, target: VocabItem)
    requires KeysUnique(pool, ItemId) && target in pool
    ensures |Others(pool, target)| == |pool| - 1
  {
    var k :| 0 <= k < |pool| && pool[k] == target;
    FilterDropsOne(pool, DifferentId(target), k);
  }

  /** How many distractors are drawn: `min(3, len(other_vocab))`. */
  function DistractorCount(others: seq<VocabItem>): nat {
    Min(3, |others|)
  }

  /** The random choices one question needs: a sample of distractors, then a shuffle of the choices. */
  predicate ValidChoicePicks(others: seq<VocabItem>, distractorPicks: seq<nat>, order: seq<nat>) {
    && IsSample(distractorPicks, |others|, DistractorCount(others))
    && IsPermutation(order, 1 + DistractorCount(others))
  }

  /** `[vocab['english']] + [d['english'] for d in distractors[:3]]`, before shuffling. */
  function Choices(target: VocabItem, others: seq<VocabItem>, distractorPicks: seq<nat>): (c: seq<string>)
    requires IsSample(distractorPicks, |others|, DistractorCount(others))
    ensures |c| == 1 + DistractorCount(others) && c[0] == target.english
    ensures forall i :: 1 <= i < |c| ==> c[i] == others[distractorPicks[i - 1]].english
  {
    [target.english] + seq(|distractorPicks|, i requires 0 <= i < |distractorPicks| => others[distractorPicks[i]].english)
  }

  const Letters: seq<string> := ["A", "B", "C", "D"]

  /** `chr(65 + i)`: the letter that labels the choice at position `i`. */
  function Letter(i: nat): (l: string)
    requires i < 4
    ensures l == Letters[i]
  {
    [(65 + i) as char]
  }

  /** The `choices` dictionary: A to C, and D falling back to the first choice when there are only three. */
  function ChoiceMap(shuffled: seq<string>): (m: map<string, string>)
    requires 3 <= |shuffled|
    ensures m.Keys == {"A", "B", "C", "D"}
    ensures forall i :: 0 <= i < |shuffled| && i < 4 ==> m[Letters[i]] == shuffled[i]
    ensures forall l :: l in m ==> m[l] in shuffled
  {
    map["A" := shuffled[0], "B" := shuffled[1], "C" := shuffled[2],
        "D" := if |shuffled| > 3 then shuffled[3] else shuffled[0]]
  }

  /**
   * One multiple-choice question: the choices shuffled by `order`, labelled A
   * to D (D repeats A when there are only three choices), and the letter of
   * the first choice equal to the target's English.
   */
  function MultipleChoiceQuestion(target: VocabItem, others: seq<VocabItem>, distractorPicks: seq<nat>, order: seq<nat>)
    : (q: Question)
    requires |others| >= 2 && ValidChoicePicks(others, distractorPicks, order)
    ensures q.MultipleChoice? && q.vocabId == target.id
    ensures q.correctAnswer in Letters && q.correctAnswer in q.choices
    ensures q.choices[q.correctAnswer] == target.english
    ensures q.choices.Keys == {"A", "B", "C", "D"}
  {
    var choices := Choices(target, others, distractorPicks);
    var shuffled := Pick(choices, order);
    ShuffleSameElements(choices, order);
    assert choices[0] in shuffled;
    var index := IndexOf(shuffled, target.english);
    MultipleChoice(
      text := "What does '" + target.chinese + "' (" + target.pinyin + ") mean?",
      vocabId := target.id,
      chinese := target.chinese,
      pinyin := target.pinyin,
      choices := ChoiceMap(shuffled),
      correctAnswer := Letter(index))
  }

  /**
   * Every choice of a generated question is the target's English or the
   * English of a different word of the pool, and the target's English is
   * offered.
   */
  lemma ChoicesFromPool(
    pool: seq<VocabItem>, target: VocabItem, distractorPicks: seq<nat>, order: seq<nat>)
    requires |Others(pool, target)| >= 2 && ValidChoicePicks(Others(pool, target), distractorPicks, order)
    ensures var q := MultipleChoiceQuestion(target, Others(pool, target), distractorPicks, order);
      forall l :: l in q.choices ==>
        q.choices[l] == target.english
        || exists j :: 0 <= j < |pool| && pool[j].id != target.id && q.choices[l] == pool[j].english
  {
    var others := Others(pool, target);
    var shuffled := Pick(Choices(target, others, distractorPicks), order);
    var q := MultipleChoiceQuestion(target, others, distractorPicks, order);
    assert q.choices == ChoiceMap(shuffled);
    forall l | l in q.choices
      ensures q.choices[l] == target.english
        || exists j :: 0 <= j < |pool| && pool[j].id != target.id && q.choices[l] == pool[j].english
    {
      var i :| 0 <= i < |shuffled| && shuffled[i] == q.choices[l];
      ShuffledChoiceFromPool(pool, target, distractorPicks, order, i);
    }
  }

  /** The choice shuffled into position `i` is the target's English or another pool word's. */
  lemma ShuffledChoiceFromPool(
    pool: seq<VocabItem>, target: VocabItem, distractorPicks: seq<nat>, order: seq<nat>, i: nat)
    requires ValidChoicePicks(Others(pool, target), distractorPicks, order) && i < |order|
    ensures var s := Pick(Choices(target, Others(pool, target), distractorPicks), order)[i];
      s == target.english || exists j :: 0 <= j < |pool| && pool[j].id != target.id && s == pool[j].english
  {
    var others := Others(pool, target);
    var choices := Choices(target, others, distractorPicks);
    var c := order[i];
    assert Pick(choices, order)[i] == choices[c];
    if c > 0 {
      var o := others[distractorPicks[c - 1]];
      assert choices[c] == o.english;
      assert o in pool && o.id != target.id;
      var j :| 0 <= j < |pool| && pool[j] == o;
    }
  }

  // ---------------------------------------------------------------------------
  // check_answer

  /** What `check_answer` returns: `(is_correct, feedback)`. */
  datatype Verdict = Verdict(isCorrect: bool, feedback: string)

  /**
   * The feedback marks as the source file spells them: the UTF-8 bytes of a
   * check mark and of a cross, read back as Windows-1252 text. The cross is
   * E2 9D 8C; its second byte, 9D, has no Windows-1252 character and is gone,
   * and its third, 8C, reads as U+0152.
   */
  const CorrectMark: string := "\U{e2}\U{153}\U{2026}"
  const IncorrectMark: string := "\U{e2}\U{152}"
  const CorrectFeedback: string := CorrectMark + " Correct!"
  const IncorrectPrefix: string := IncorrectMark + " Incorrect. The correct answer is"

  /** A multiple-choice question's answer letter labels one of its choices. */
  predicate WellFormed(q: Question) {
    q.MultipleChoice? ==> Upper(q.correctAnswer) in q.choices
  }

  /** `[ans.strip().lower() for ans in correct_answer.lower().split(',')]`. */
  function AcceptableAnswers(correctAnswer: string): (r: seq<string>)
    ensures |r| >= 1
  {
    var parts := Split(Lower(correctAnswer), ',');
    seq(|parts|, i requires 0 <= i < |parts| => Lower(Strip(parts[i])))
  }

  /** `user == acceptable or user in acceptable or acceptable in user`. */
  predicate Matches(user: string, acceptable: string) {
    user == acceptable || Contains(user, acceptable) || Contains(acceptable, user)
  }

  /**
   * `check_answer(question, user_answer)`: a multiple-choice answer must be
   * the letter, in either case; a translation answer must equal, lie inside or
   * contain one of the comma-separated acceptable answers, ignoring case and
   * surrounding whitespace. A wrong answer's feedback names the expected one.
   */
  function CheckAnswer(q: Question, userAnswer: string): (v: Verdict)
    requires WellFormed(q)
    ensures v.isCorrect <==> v.feedback == CorrectFeedback
    ensures q.MultipleChoice? ==> (v.isCorrect <==> Upper(Strip(userAnswer)) == Upper(q.correctAnswer))
    ensures q.MultipleChoice? && !v.isCorrect ==>
      v.feedback == IncorrectPrefix + " " + Upper(q.correctAnswer) + ": " + q.choices[Upper(q.correctAnswer)]
    ensures !q.MultipleChoice? && !v.isCorrect ==> v.feedback == IncorrectPrefix + ": " + q.correctAnswer
  {
    var answer := Strip(userAnswer);
    if q.MultipleChoice? then
      var correct := Upper(q.correctAnswer);
      if Upper(answer) == correct then Verdict(true, CorrectFeedback)
      else Verdict(false, IncorrectPrefix + " " + correct + ": " + q.choices[correct])
    else
      var user := Lower(answer);
      var acceptable := AcceptableAnswers(q.correctAnswer);
      if exists i :: 0 <= i < |acceptable| && Matches(user, acceptable[i]) then Verdict(true, CorrectFeedback)
      else Verdict(false, IncorrectPrefix + ": " + q.correctAnswer)
  }

  /** A translation question accepts its own stored answer. */
  lemma StoredAnswerAccepted(q: Question)
    requires !q.MultipleChoice?
    ensures CheckAnswer(q, q.correctAnswer).isCorrect
  {
    var c := q.correctAnswer;
    FirstAcceptableInAnswer(c);
    assert Matches(Lower(Strip(c)), AcceptableAnswers(c)[0]);
  }

  /** The first acceptable answer lies inside the whole answer, lower-cased and stripped. */
  lemma FirstAcceptableInAnswer(c: string)
    ensures Contains(AcceptableAnswers(c)[0], Lower(Strip(c)))
  {
    var l := Lower(c);
    var parts := Split(l, ',');
    var k := |parts[0]|;
    assert l[..k] == parts[0] by {
      SplitFirstIsPrefix(l, ',');
    }
    var p := Strip(l[..k]);
    assert AcceptableAnswers(c)[0] == Lower(p);
    assert Lower(p) == p by {
      assert IsLower(l) by {
        LowerIsLower(c);
      }
      assert IsLower(p) by {
        StripIsSlice(l[..k]);
      }
      LowerIsLower(p);
    }
    assert Contains(p, Strip(l)) by {
      StripPrefixContained(l, k);
    }
    assert Strip(l) == Lower(Strip(c)) by {
      LowerStripCommute(c);
    }
  }

  /**
   * A blank answer counts as correct for every translation question: the
   * empty string lies inside every acceptable answer.
   */
  lemma BlankTranslationAnswerAccepted(q: Question, userAnswer: string)
    requires !q.MultipleChoice?
    requires forall i :: 0 <= i < |userAnswer| ==> IsSpace(userAnswer[i])
    ensures CheckAnswer(q, userAnswer).isCorrect
  {
    var acceptable := AcceptableAnswers(q.correctAnswer);
    StripFacts(userAnswer);
    assert Strip(userAnswer) == [];
    assert Lower([]) == [];
    EmptyIsContained(acceptable[0]);
    assert Matches([], acceptable[0]);
  }

  /**
   * With several comma-separated answers, each of them, as listed, is
   * accepted on its own.
   */
  lemma EachListedAnswerAccepted(q: Question, i: nat)
    requires !q.MultipleChoice? && i < |AcceptableAnswers(q.correctAnswer)|
    ensures CheckAnswer(q, AcceptableAnswers(q.correctAnswer)[i]).isCorrect
  {
    var acceptable := AcceptableAnswers(q.correctAnswer);
    var parts := Split(Lower(q.correctAnswer), ',');
    var a := Strip(parts[i]);
    assert acceptable[i] == Lower(a);
    assert Lower(Strip(Lower(a))) == Lower(a) by {
      LowerStripCommute(a);
      StripIdempotent(parts[i]);
      LowerIsLower(a);
    }
    assert Matches(Lower(Strip(acceptable[i])), acceptable[i]);
  }

  /** An answer unrelated to the only acceptable one is rejected, and the feedback names the expected answer. */
  lemma UnrelatedAnswerRejected()
    ensures var q := ChineseToEnglish("What does '你好' (nǐ hǎo) mean in English?", 2, "你好", "nǐ hǎo", "hello");
      && !CheckAnswer(q, "goodbye").isCorrect
      && CheckAnswer(q, "goodbye").feedback == IncorrectPrefix + ": hello"
  {
    var q := ChineseToEnglish("What does '你好' (nǐ hǎo) mean in English?", 2, "你好", "nǐ hǎo", "hello");
    HelloIsOnlyAnswer();
    GoodbyeMissesHello();
    PlainWord("goodbye");
    assert Lower(Strip("goodbye")) == "goodbye";
  }

  /** "hello" has the single acceptable answer "hello". */
  lemma HelloIsOnlyAnswer()
    ensures AcceptableAnswers("hello") == ["hello"]
  {
    PlainWord("hello");
    SplitNoSeparator("hello", ',');
  }

  /** "goodbye" neither equals, lies inside nor contains "hello". */
  lemma GoodbyeMissesHello()
    ensures !Matches("goodbye", "hello")
  {
    forall i | 0 <= i <= 2 ensures !OccursAt("hello", "goodbye", i) {
      assert "goodbye"[i] != 'h';
    }
  }

  /** A word of lower-case letters is its own lower-cased, stripped form. */
  lemma PlainWord(w: string)
    requires forall i :: 0 <= i < |w| ==> 'a' <= w[i] <= 'z'
    ensures Lower(w) == w && Strip(w) == w
  {
    LowerIsLower(w);
    StripIsSlice(w);
    if w != [] {
      assert !IsSpace(w[0]) && !IsSpace(w[|w| - 1]);
      assert LeadingSpaces(w) == 0;
      assert TrailingSpaces(w) == 0;
    }
  }

  /**
   * A generated multiple-choice question accepts its letter in upper or lower
   * case and with surrounding blanks, and rejects the other letters with
   * feedback that names the target's English.
   */
  lemma MultipleChoiceLetters(
    target: VocabItem, others: seq<VocabItem>, distractorPicks: seq<nat>, order: seq<nat>, other: string)
    requires |others| >= 2 && ValidChoicePicks(others, distractorPicks, order)
    requires other in Letters
    ensures var q := MultipleChoiceQuestion(target, others, distractorPicks, order);
      && WellFormed(q)
      && CheckAnswer(q, q.correctAnswer).isCorrect
      && CheckAnswer(q, " " + Lower(q.correctAnswer) + "\n").isCorrect
      && (other != q.correctAnswer ==>
            && !CheckAnswer(q, other).isCorrect
            && CheckAnswer(q, other).feedback == IncorrectPrefix + " " + q.correctAnswer + ": " + target.english)
  {
    var q := MultipleChoiceQuestion(target, others, distractorPicks, order);
    LetterAnswer(q.correctAnswer);
    LetterAnswer(other);
  }

  /** An answer letter is upper case and blank-free, and survives lower-casing and padding with blanks. */
  lemma LetterAnswer(l: string)
    requires l in Letters
    ensures Upper(l) == l && Strip(l) == l
    ensures Upper(Strip(" " + Lower(l) + "\n")) == l
  {
    assert |l| == 1 && 'A' <= l[0] <= 'Z';
    var ch := l[0];
    assert l == [ch];
    CapitalLetter(ch);
    PaddedLetter(ch);
    assert " " + Lower([ch]) + "\n" == [' ', LowerChar(ch), '\n'];
  }

  lemma CapitalLetter(ch: char)
    requires 'A' <= ch <= 'Z'
    ensures Upper([ch]) == [ch] && Strip([ch]) == [ch]
  {
    StripIsSlice([ch]);
  }

  /** A capital letter typed in lower case between blanks still reads as that letter. */
  lemma PaddedLetter(ch: char)
    requires 'A' <= ch <= 'Z'
    ensures Upper(Strip([' ', LowerChar(ch), '\n'])) == [ch]
  {
    var padded := [' ', LowerChar(ch), '\n'];
    assert !IsSpace(LowerChar(ch));
    assert LeadingSpaces(padded) == 1 by {
      assert padded[1..] == [LowerChar(ch), '\n'];
    }
    assert TrailingSpaces(padded) == 1 by {
      assert padded[..2] == [' ', LowerChar(ch)];
    }
    StripIsSlice(padded);
    assert Strip(padded) == [LowerChar(ch)];
  }
}
