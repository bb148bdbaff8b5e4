/**
 * The vocabulary manager's read-only selections over the store: new words
 * to learn at a level, words at a mastery level, a text search over the
 * three text columns, and summary counts. Each is a function of the table
 * values; `random.shuffle` is an ordering chosen by the caller.
 */
module Vocabulary {
  import opened Wrappers
  import opened Text
  import opened Seqs
  import opened Mastery
  import opened SqlLike
  import opened Database

  /** Python's `if hsk_level:` — `None` and 0 both mean "every level". */
  predicate LevelGiven(hskLevel: Option<int>) {
    hskLevel.Some? && hskLevel.value != 0
  }

  // ---------------------------------------------------------------------------
  // get_new_vocabulary

  function NotStudied(progress: map<int, ProgressRow>): VocabItem -> bool {
    (v: VocabItem) => v.id !in StudiedIds(progress)
  }

  /** The level's words, without those already seen when `excludeLearned` holds. */
  function NewCandidates(vocab: seq<VocabItem>, progress: map<int, ProgressRow>, hskLevel: int, excludeLearned: bool)
    : (r: seq<VocabItem>)
    ensures forall i :: 0 <= i < |r| ==> r[i].hskLevel == hskLevel && r[i] in vocab
    ensures excludeLearned ==> forall i :: 0 <= i < |r| ==> r[i].id !in StudiedIds(progress)
  {
    var pool := GetVocabularyByHskLevel(vocab, hskLevel, None);
    LevelPoolMembers(vocab, hskLevel);
    if excludeLearned then Filter(pool, NotStudied(progress)) else pool
  }

  /**
   * `get_new_vocabulary(hsk_level, count, exclude_learned)`: the candidates in
   * the shuffled order `order`, cut by the Python slice `[:count]` (a negative
   * count drops that many from the end).
   */
  function GetNewVocabulary(
    vocab: seq<VocabItem>, progress: map<int, ProgressRow>, hskLevel: int, count: int, excludeLearned: bool,
    order: seq<nat>)
    : (r: seq<VocabItem>)
    requires IsPermutation(order, |NewCandidates(vocab, progress, hskLevel, excludeLearned)|)
    ensures forall i :: 0 <= i < |r| ==> r[i].hskLevel == hskLevel && r[i] in vocab
    ensures excludeLearned ==> forall i :: 0 <= i < |r| ==> r[i].id !in StudiedIds(progress)
    ensures count >= 0 ==> |r| == Min(count, |NewCandidates(vocab, progress, hskLevel, excludeLearned)|)
    ensures count < 0 ==> |r| == Max(0, |NewCandidates(vocab, progress, hskLevel, excludeLearned)| + count)
  {
    var candidates := NewCandidates(vocab, progress, hskLevel, excludeLearned);
    var shuffled := Pick(candidates, order);
    ShuffleSameElements(candidates, order);
    SliceTo(shuffled, count)
  }

  /**
   * Without `excludeLearned` the result is a prefix of the level's words in
   * the shuffled order: its `i`-th word is the pool's word at `order[i]`.
   */
  lemma NewVocabularyShuffledPool(
    vocab: seq<VocabItem>, progress: map<int, ProgressRow>, hskLevel: int, count: int, order: seq<nat>)
    requires IsPermutation(order, |NewCandidates(vocab, progress, hskLevel, false)|)
    ensures var r := GetNewVocabulary(vocab, progress, hskLevel, count, false, order);
      && |order| == |LevelPool(vocab, hskLevel)|
      && forall i :: 0 <= i < |r| ==> order[i] < |LevelPool(vocab, hskLevel)| && r[i] == LevelPool(vocab, hskLevel)[order[i]]
  {
    var pool := LevelPool(vocab, hskLevel);
    assert NewCandidates(vocab, progress, hskLevel, false) == pool;
    var r := GetNewVocabulary(vocab, progress, hskLevel, count, false, order);
    assert forall i :: 0 <= i < |r| ==> r[i] == Pick(pool, order)[i];
  }

  /** In a valid store, the new words are distinct items. */
  lemma NewVocabularyDistinct(
    vocab: seq<VocabItem>, nextId: int, progress: map<int, ProgressRow>, hskLevel: int, count: int, excludeLearned: bool,
    order: seq<nat>)
    requires VocabularyValid(vocab, nextId)
    requires IsPermutation(order, |NewCandidates(vocab, progress, hskLevel, excludeLearned)|)
    ensures KeysUnique(GetNewVocabulary(vocab, progress, hskLevel, count, excludeLearned, order), ItemId)
  {
    var candidates := NewCandidates(vocab, progress, hskLevel, excludeLearned);
    LevelPoolIdsUnique(vocab, nextId, hskLevel);
    if excludeLearned {
      FilterKeysUnique(LevelPool(vocab, hskLevel), NotStudied(progress), ItemId);
    }
    PickKeysUnique(candidates, order, ItemId);
    var r := GetNewVocabulary(vocab, progress, hskLevel, count, excludeLearned, order);
    var shuffled := Pick(candidates, order);
    assert forall i :: 0 <= i < |r| ==> r[i] == shuffled[i];
  }

  /**
   * When `count` covers them all, every unseen word of the level is offered:
   * the shuffle loses nothing.
   */
  lemma NewVocabularyComplete(
    vocab: seq<VocabItem>, progress: map<int, ProgressRow>, hskLevel: int, count: int, order: seq<nat>, i: nat)
    requires IsPermutation(order, |NewCandidates(vocab, progress, hskLevel, true)|)
    requires count >= |NewCandidates(vocab, progress, hskLevel, true)|
    requires i < |vocab| && vocab[i].hskLevel == hskLevel && vocab[i].id !in StudiedIds(progress)
    ensures vocab[i] in GetNewVocabulary(vocab, progress, hskLevel, count, true, order)
  {
    var candidates := NewCandidates(vocab, progress, hskLevel, true);
    LevelPoolMembers(vocab, hskLevel);
    var pool := LevelPool(vocab, hskLevel);
    var j :| 0 <= j < |pool| && pool[j] == vocab[i];
    assert NotStudied(progress)(pool[j]);
    var k :| 0 <= k < |candidates| && candidates[k] == vocab[i];
    ShuffleSameElements(candidates, order);
    var r := GetNewVocabulary(vocab, progress, hskLevel, count, true, order);
    assert r == Pick(candidates, order);
  }

  /** A word that has just been scored is no longer new. */
  lemma ScoredWordNotNew(
    vocab: seq<VocabItem>, progress: map<int, ProgressRow>, vocabularyId: int, correct: bool, now: int,
    hskLevel: int, count: int, order: seq<nat>)
    requires ProgressValid(progress, vocab)
    requires ProgressUpdate(vocab, progress, vocabularyId, correct, now).Ok?
    requires IsPermutation(order, |NewCandidates(vocab, ProgressUpdate(vocab, progress, vocabularyId, correct, now).value, hskLevel, true)|)
    ensures forall i :: 0 <= i < |GetNewVocabulary(vocab, ProgressUpdate(vocab, progress, vocabularyId, correct, now).value, hskLevel, count, true, order)| ==>
      GetNewVocabulary(vocab, ProgressUpdate(vocab, progress, vocabularyId, correct, now).value, hskLevel, count, true, order)[i].id != vocabularyId
  {
    var p := ProgressUpdate(vocab, progress, vocabularyId, correct, now).value;
    assert p[vocabularyId].timesSeen > 0;
    assert vocabularyId in StudiedIds(p);
  }

  // ---------------------------------------------------------------------------
  // get_vocabulary_by_mastery

  /** `WHERE up.mastery_level = ? [AND v.hsk_level = ?]`. */
  function MasteryFilter(masteryLevel: int, hskLevel: Option<int>): JoinedRow -> bool {
    (d: JoinedRow) => d.progress.masteryLevel == masteryLevel && (LevelGiven(hskLevel) ==> d.item.hskLevel == hskLevel.value)
  }

  /** `get_vocabulary_by_mastery(mastery_level, hsk_level, limit)`: studied words at that mastery. */
  function GetVocabularyByMastery(
    vocab: seq<VocabItem>, progress: map<int, ProgressRow>, masteryLevel: int, hskLevel: Option<int>, limit: int)
    : (r: seq<JoinedRow>)
    ensures forall i :: 0 <= i < |r| ==>
      && IsJoined(vocab, progress, r[i])
      && r[i].progress.masteryLevel == masteryLevel
      && (LevelGiven(hskLevel) ==> r[i].item.hskLevel == hskLevel.value)
    ensures limit >= 0 ==> |r| == Min(limit, |JoinWhere(vocab, progress, MasteryFilter(masteryLevel, hskLevel))|)
    ensures limit < 0 ==> |r| == |JoinWhere(vocab, progress, MasteryFilter(masteryLevel, hskLevel))|
  {
    var rows := JoinWhere(vocab, progress, MasteryFilter(masteryLevel, hskLevel));
    var r := Limit(rows, limit);
    assert forall i :: 0 <= i < |r| ==> r[i] == rows[i];
    r
  }

  /**
   * With no limit, or a limit that covers every match, every studied word at
   * the mastery level (and level, when given) is listed.
   */
  lemma MasteryWordListed(
    vocab: seq<VocabItem>, progress: map<int, ProgressRow>, masteryLevel: int, hskLevel: Option<int>, limit: int, i: nat)
    requires limit < 0 || |JoinWhere(vocab, progress, MasteryFilter(masteryLevel, hskLevel))| <= limit
    requires i < |vocab| && vocab[i].id in progress && progress[vocab[i].id].masteryLevel == masteryLevel
    requires LevelGiven(hskLevel) ==> vocab[i].hskLevel == hskLevel.value
    ensures JoinedRow(vocab[i], progress[vocab[i].id]) in GetVocabularyByMastery(vocab, progress, masteryLevel, hskLevel, limit)
  {
    JoinWhereComplete(vocab, progress, MasteryFilter(masteryLevel, hskLevel), i);
  }

  // ---------------------------------------------------------------------------
  // search_vocabulary

  /** `(chinese LIKE ? OR pinyin LIKE ? OR english LIKE ?) [AND hsk_level = ?]` with `?` = `%term%`. */
  function SearchFilter(term: string, hskLevel: Option<int>): VocabItem -> bool {
    (v: VocabItem) =>
      var pattern := "%" + term + "%";
      && (Like(pattern, v.chinese) || Like(pattern, v.pinyin) || Like(pattern, v.english))
      && (LevelGiven(hskLevel) ==> v.hskLevel == hskLevel.value)
  }

  /** `ORDER BY hsk_level, chinese`. */
  predicate LevelThenChinese(a: VocabItem, b: VocabItem) {
    a.hskLevel < b.hskLevel || (a.hskLevel == b.hskLevel && LexLe(a.chinese, b.chinese))
  }

  /** `search_vocabulary(search_term, hsk_level)`: every matching row, ordered by level then characters. */
  function SearchVocabulary(vocab: seq<VocabItem>, term: string, hskLevel: Option<int>): (r: seq<VocabItem>)
    ensures multiset(r) == multiset(Filter(vocab, SearchFilter(term, hskLevel)))
  {
    SortBy(Filter(vocab, SearchFilter(term, hskLevel)), LevelThenChinese)
  }

  lemma LevelThenChineseTotal()
    ensures TotalPreorder(LevelThenChinese)
  {
    forall a: VocabItem, b: VocabItem ensures LevelThenChinese(a, b) || LevelThenChinese(b, a) {
      LexLeTotal(a.chinese, b.chinese);
    }
    forall a: VocabItem, b: VocabItem, c: VocabItem | LevelThenChinese(a, b) && LevelThenChinese(b, c)
      ensures LevelThenChinese(a, c)
    {
      if a.hskLevel == b.hskLevel == c.hskLevel {
        LexLeTransitive(a.chinese, b.chinese, c.chinese);
      }
    }
  }

  /**
   * For a term without wildcards, the search returns exactly the items whose
   * characters, pinyin or English contain the term, ignoring ASCII case (and
   * of the given level), each once, ordered by level and then by characters.
   */
  lemma SearchFindsContainingItems(vocab: seq<VocabItem>, term: string, hskLevel: Option<int>)
    requires NoWildcards(term)
    ensures var r := SearchVocabulary(vocab, term, hskLevel);
      && (forall i :: 0 <= i < |r| ==> r[i] in vocab && (LevelGiven(hskLevel) ==> r[i].hskLevel == hskLevel.value))
      && (forall i :: 0 <= i < |r| ==>
            Contains(Lower(term), Lower(r[i].chinese)) || Contains(Lower(term), Lower(r[i].pinyin))
            || Contains(Lower(term), Lower(r[i].english)))
      && (forall i ::
            (0 <= i < |vocab| && (LevelGiven(hskLevel) ==> vocab[i].hskLevel == hskLevel.value)
             && (Contains(Lower(term), Lower(vocab[i].chinese)) || Contains(Lower(term), Lower(vocab[i].pinyin))
                 || Contains(Lower(term), Lower(vocab[i].english))))
            ==> vocab[i] in r)
      && SortedBy(r, LevelThenChinese)
  {
    var keep := SearchFilter(term, hskLevel);
    var matches := Filter(vocab, keep);
    var r := SearchVocabulary(vocab, term, hskLevel);
    forall v: VocabItem
      ensures keep(v) <==>
        (LevelGiven(hskLevel) ==> v.hskLevel == hskLevel.value)
        && (Contains(Lower(term), Lower(v.chinese)) || Contains(Lower(term), Lower(v.pinyin))
            || Contains(Lower(term), Lower(v.english)))
    {
      LikeContains(term, v.chinese);
      LikeContains(term, v.pinyin);
      LikeContains(term, v.english);
    }
    forall i | 0 <= i < |r| ensures r[i] in matches {
      assert r[i] in multiset(r);
    }
    forall i | 0 <= i < |vocab| && keep(vocab[i]) ensures vocab[i] in r {
      assert vocab[i] in matches;
      assert vocab[i] in multiset(matches);
    }
    LevelThenChineseTotal();
    SortBySorted(matches, LevelThenChinese);
  }

  // ---------------------------------------------------------------------------
  // get_vocabulary_statistics

  /** The dictionary `get_vocabulary_statistics` returns. */
  datatype VocabularyStatistics = VocabularyStatistics(
    totalVocabulary: nat,
    learnedVocabulary: nat,
    newVocabulary: int,
    hskLevelCounts: map<int, nat>,
    wordTypeCounts: map<string, nat>)

  function HasWordType(t: string): VocabItem -> bool {
    (v: VocabItem) => v.wordType == Some(t)
  }

  /** `SELECT hsk_level, COUNT(*) FROM vocabulary GROUP BY hsk_level`. */
  function HskLevelCounts(vocab: seq<VocabItem>): map<int, nat> {
    map l | l in (set i | 0 <= i < |vocab| :: vocab[i].hskLevel) :: |LevelPool(vocab, l)|
  }

  /** `SELECT word_type, COUNT(*) FROM vocabulary WHERE word_type IS NOT NULL GROUP BY word_type`. */
  function WordTypeCounts(vocab: seq<VocabItem>): map<string, nat> {
    map t | t in (set i | 0 <= i < |vocab| && vocab[i].wordType.Some? :: vocab[i].wordType.value)
      :: |Filter(vocab, HasWordType(t))|
  }

  /** `get_vocabulary_statistics()`. */
  function GetVocabularyStatistics(vocab: seq<VocabItem>, progress: map<int, ProgressRow>): VocabularyStatistics {
    var learned := |StudiedIds(progress)|;
    VocabularyStatistics(
      totalVocabulary := |vocab|,
      learnedVocabulary := learned,
      newVocabulary := |vocab| - learned,
      hskLevelCounts := HskLevelCounts(vocab),
      wordTypeCounts := WordTypeCounts(vocab))
  }

  /** The ids the vocabulary holds. */
  function IdSet(vocab: seq<VocabItem>): (ids: set<int>)
    ensures |ids| <= |vocab|
    ensures forall k :: k in ids <==> HasId(vocab, k)
  {
    if vocab == [] then {}
    else
      var rest := IdSet(vocab[1..]);
      assert forall k :: HasId(vocab, k) <==> k == vocab[0].id || HasId(vocab[1..], k) by {
        forall k | HasId(vocab, k) && k != vocab[0].id ensures HasId(vocab[1..], k) {
          var i :| 0 <= i < |vocab| && vocab[i].id == k;
          assert vocab[1..][i - 1].id == k;
        }
        forall k | HasId(vocab[1..], k) ensures HasId(vocab, k) {
          var i :| 0 <= i < |vocab[1..]| && vocab[1..][i].id == k;
          assert vocab[i + 1].id == k;
        }
      }
      {vocab[0].id} + rest
  }

  /**
   * In a valid store the learned words are among the vocabulary, so the count
   * of new words is never negative and all three counts agree.
   */
  lemma StatisticsLearnedWithinTotal(vocab: seq<VocabItem>, progress: map<int, ProgressRow>)
    requires ProgressValid(progress, vocab)
    ensures var s := GetVocabularyStatistics(vocab, progress);
      && s.learnedVocabulary <= s.totalVocabulary
      && s.newVocabulary >= 0
      && s.learnedVocabulary + s.newVocabulary == s.totalVocabulary
  {
    forall k | k in StudiedIds(progress) ensures k in IdSet(vocab) {
      assert HasId(vocab, k);
    }
    var a, b := StudiedIds(progress), IdSet(vocab);
    assert b == a + (b - a);
    assert |b| == |a| + |b - a|;
  }

  /** In a valid store the six level counts add up to the vocabulary size. */
  lemma {:induction false} LevelCountsAddUp(vocab: seq<VocabItem>)
    requires forall i :: 0 <= i < |vocab| ==> 1 <= vocab[i].hskLevel <= 6
    ensures |LevelPool(vocab, 1)| + |LevelPool(vocab, 2)| + |LevelPool(vocab, 3)|
      + |LevelPool(vocab, 4)| + |LevelPool(vocab, 5)| + |LevelPool(vocab, 6)| == |vocab|
  {
    if vocab != [] {
      LevelCountsAddUp(vocab[1..]);
    }
  }

  /**
   * The level counts have a key exactly for each level some word has, each
   * counting that level's words, and in a valid store only levels 1..6.
   */
  lemma HskLevelCountsKeys(vocab: seq<VocabItem>)
    requires forall i :: 0 <= i < |vocab| ==> 1 <= vocab[i].hskLevel <= 6
    ensures var c := HskLevelCounts(vocab);
      && (forall l :: l in c ==> 1 <= l <= 6 && c[l] == |LevelPool(vocab, l)| > 0)
      && (forall i :: 0 <= i < |vocab| ==> vocab[i].hskLevel in c)
  {
    var c := HskLevelCounts(vocab);
    forall l | l in c ensures 1 <= l <= 6 && |LevelPool(vocab, l)| > 0 {
      var i :| 0 <= i < |vocab| && vocab[i].hskLevel == l;
      LevelPoolMembers(vocab, l);
      assert vocab[i] in LevelPool(vocab, l);
    }
  }
}
