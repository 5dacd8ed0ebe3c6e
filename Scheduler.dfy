/**
 * The review-word store and its spaced-repetition scheduler: the upsert run when a word
 * is observed or marked learned, the interval table behind it, and the filter that
 * picks the words due today.
 */
module Scheduler {
  import opened Wrappers
  import opened JsString
  import opened Calendar
  import opened DateHelper

  /** One vocabulary item under review. The source keeps `reviewDate` as the ISO date text of
      a day; here it is that day's number, and `IsoDay(reviewDate)` is the text. */
  datatype ReviewWord = ReviewWord(id: string, word: string, translation: string, level: nat, reviewDate: Day)

  /** What a caller supplies to create a word that is not yet stored. */
  datatype WordDetails = WordDetails(word: string, translation: string)

  /** Days until the next review, by level. */
  const Intervals: seq<nat> := [1, 3, 7, 14, 30, 90]

  /** The interval for a level, level by level; levels past the table share its last entry. */
  function Interval(level: nat): (days: nat)
    ensures 1 <= days <= 90
  {
    if level == 0 then 1 else if level == 1 then 3 else if level == 2 then 7
    else if level == 3 then 14 else if level == 4 then 30 else 90
  }

  /** `Interval` is the table lookup `intervals[Math.min(level, intervals.length - 1)]`. */
  lemma IntervalIsTableEntry(level: nat)
    ensures Interval(level) == Intervals[if level < |Intervals| - 1 then level else |Intervals| - 1]
  {
  }

  /** The interval grows with the level, from 1 day up to 90 days, which it keeps from level 5 on. */
  lemma IntervalSchedule(l1: nat, l2: nat)
    requires l1 <= l2
    ensures 1 <= Interval(l1) <= Interval(l2) <= 90
    ensures l2 >= 5 ==> Interval(l2) == 90
  {
  }

  /** The `findIndex` test: the same id, or, only when details are given, the same word ignoring case. */
  predicate Matches(w: ReviewWord, id: string, details: Option<WordDetails>) {
    w.id == id || (details.Some? && Lower(w.word) == Lower(details.value.word))
  }

  /** The index of the first stored word that matches, if any. */
  function FirstMatch(words: seq<ReviewWord>, id: string, details: Option<WordDetails>): (r: Option<nat>)
    ensures r.Some? ==> r.value < |words| && Matches(words[r.value], id, details)
    ensures r.Some? ==> forall j :: 0 <= j < r.value ==> !Matches(words[j], id, details)
    ensures r.None? ==> forall j :: 0 <= j < |words| ==> !Matches(words[j], id, details)
    decreases |words|
  {
    if |words| == 0 then None
    else if Matches(words[0], id, details) then Some(0)
    else match FirstMatch(words[1..], id, details)
      case Some(k) => Some(k + 1)
      case None => None
  }

  /** `prev.findIndex(...)`: the first matching index, or -1. */
  method FindIndex(words: seq<ReviewWord>, id: string, details: Option<WordDetails>) returns (index: int)
    ensures -1 <= index < |words|
    ensures index >= 0 ==> Matches(words[index], id, details)
    ensures forall j :: 0 <= j < |words| && (index < 0 || j < index) ==> !Matches(words[j], id, details)
  {
    index := 0;
    while index < |words|
      invariant 0 <= index <= |words|
      invariant forall j :: 0 <= j < index ==> !Matches(words[j], id, details)
    {
      if Matches(words[index], id, details) {
        return;
      }
      index := index + 1;
    }
    index := -1;
  }

  /** The store after `handleAddOrUpdateReviewWord(id, level, details)` at instant `now`;
      `newId` is the identifier the create path would take from the clock. */
  function Upsert(words: seq<ReviewWord>, id: string, level: nat, details: Option<WordDetails>, now: Instant, newId: string): (r: seq<ReviewWord>)
    ensures FirstMatch(words, id, details).Some? ==>
      var k := FirstMatch(words, id, details).value;
      |r| == |words| &&
      (forall j :: 0 <= j < |words| && j != k ==> r[j] == words[j]) &&
      r[k].id == words[k].id && r[k].word == words[k].word && r[k].translation == words[k].translation &&
      r[k].level == level + 1 && r[k].reviewDate == DayOf(now) + Interval(level)
    ensures FirstMatch(words, id, details).None? && details.Some? ==>
      |r| == |words| + 1 && r[..|words|] == words &&
      r[|words|] == ReviewWord(newId, details.value.word, details.value.translation, 0, DayOf(now))
    ensures FirstMatch(words, id, details).None? && details.None? ==> r == words
  {
    match FirstMatch(words, id, details)
    case Some(k) =>
      words[k := words[k].(level := level + 1, reviewDate := DayOf(now) + Interval(level))]
    case None =>
      if details.Some? then
        words + [ReviewWord(newId, details.value.word, details.value.translation, 0, DayOf(now))]
      else words
  }

  /** No two stored words are the same ignoring case. */
  predicate DistinctWords(words: seq<ReviewWord>) {
    forall i, j :: 0 <= i < j < |words| ==> Lower(words[i].word) != Lower(words[j].word)
  }

  /** An upsert never makes two stored words the same ignoring case. */
  lemma UpsertKeepsWordsDistinct(words: seq<ReviewWord>, id: string, level: nat, details: Option<WordDetails>, now: Instant, newId: string)
    requires DistinctWords(words)
    ensures DistinctWords(Upsert(words, id, level, details, now, newId))
  {
    var r := Upsert(words, id, level, details, now, newId);
    assert forall i :: 0 <= i < |words| ==> r[i].word == words[i].word;
  }

  /** Observing a word with details leaves a stored word equal to it ignoring case, provided
      no stored id equals the one passed (the chat path passes the empty id). */
  lemma ObservedWordIsStored(words: seq<ReviewWord>, id: string, level: nat, d: WordDetails, now: Instant, newId: string)
    requires forall i :: 0 <= i < |words| ==> words[i].id != id
    ensures var r := Upsert(words, id, level, Some(d), now, newId);
      exists i :: 0 <= i < |r| && Lower(r[i].word) == Lower(d.word)
  {
    var r := Upsert(words, id, level, Some(d), now, newId);
    match FirstMatch(words, id, Some(d))
    case Some(k) =>
      assert Lower(r[k].word) == Lower(d.word);
    case None =>
      assert Lower(r[|words|].word) == Lower(d.word);
  }

  /** Once a word equal to the details ignoring case is stored, an upsert with those
      details never appends. */
  lemma StoredWordIsNotAppended(words: seq<ReviewWord>, id: string, level: nat, d: WordDetails, now: Instant, newId: string)
    requires exists i :: 0 <= i < |words| && Lower(words[i].word) == Lower(d.word)
    ensures |Upsert(words, id, level, Some(d), now, newId)| == |words|
  {
    var i :| 0 <= i < |words| && Lower(words[i].word) == Lower(d.word);
    assert Matches(words[i], id, Some(d));
  }

  /** Observing the same word twice, in any casing, stores exactly one entry for it. */
  lemma ObservingTwiceStoresOnce(words: seq<ReviewWord>, d1: WordDetails, d2: WordDetails, id1: string, id2: string,
                                 level1: nat, level2: nat, now1: Instant, now2: Instant, newId1: string, newId2: string)
    requires DistinctWords(words)
    requires Lower(d1.word) == Lower(d2.word)
    requires forall i :: 0 <= i < |words| ==> words[i].id != id1
    ensures var once := Upsert(words, id1, level1, Some(d1), now1, newId1);
      var twice := Upsert(once, id2, level2, Some(d2), now2, newId2);
      |twice| == |once| <= |words| + 1 && DistinctWords(twice) &&
      exists i :: 0 <= i < |twice| && Lower(twice[i].word) == Lower(d1.word)
  {
    var once := Upsert(words, id1, level1, Some(d1), now1, newId1);
    var twice := Upsert(once, id2, level2, Some(d2), now2, newId2);
    ObservedWordIsStored(words, id1, level1, d1, now1, newId1);
    UpsertKeepsWordsDistinct(words, id1, level1, Some(d1), now1, newId1);
    UpsertKeepsWordsDistinct(once, id2, level2, Some(d2), now2, newId2);
    StoredWordIsNotAppended(once, id2, level2, d2, now2, newId2);
    var i :| 0 <= i < |once| && Lower(once[i].word) == Lower(d1.word);
    assert Lower(twice[i].word) == Lower(d1.word);
  }

  /** Marking a stored word learned, as the review screen does with the word's own id and level,
      raises its level by one and schedules it the interval for its old level ahead: from
      level 2, level 3 and seven days ahead. */
  lemma MarkLearnedAdvances(words: seq<ReviewWord>, k: nat, now: Instant, newId: string)
    requires k < |words|
    requires forall j :: 0 <= j < k ==> words[j].id != words[k].id
    ensures var r := Upsert(words, words[k].id, words[k].level, None, now, newId);
      |r| == |words| && r[k].level == words[k].level + 1 &&
      r[k].reviewDate == DayOf(now) + Interval(words[k].level) &&
      (words[k].level == 2 ==> r[k].level == 3 && r[k].reviewDate == DayOf(now) + 7)
  {
    assert FirstMatch(words, words[k].id, None) == Some(k);
  }

  /** The level written is the caller's level plus one, not the stored one: when the chat path
      observes a stored word again it passes level 0, so the word drops back to level 1. */
  lemma ReobservedWordDropsToLevelOne(words: seq<ReviewWord>, k: nat, d: WordDetails, now: Instant, newId: string)
    requires FirstMatch(words, "", Some(d)) == Some(k)
    ensures var r := Upsert(words, "", 0, Some(d), now, newId);
      r[k].level == 1 && r[k].reviewDate == DayOf(now) + 1 &&
      (words[k].level > 1 ==> r[k].level < words[k].level)
  {
  }

  /** The due test of the review tab, `w.reviewDate <= today`, on day numbers. */
  predicate IsDue(w: ReviewWord, today: Day) {
    w.reviewDate <= today
  }

  /** The source compares the date texts with JavaScript's `<=`; for four-digit years that
      gives the same verdict as comparing the days. */
  lemma DueAgreesWithDateText(w: ReviewWord, now: Instant)
    requires FourDigitYear(w.reviewDate) && FourDigitYear(DayOf(now))
    ensures StringAtMost(IsoDay(w.reviewDate), TodayString(now)) <==> IsDue(w, DayOf(now))
  {
    IsoDayOrder(w.reviewDate, DayOf(now));
  }

  /** `a` can be obtained from `b` by deleting elements. */
  predicate IsSubsequence(a: seq<ReviewWord>, b: seq<ReviewWord>)
    decreases |b|
  {
    if |a| == 0 then true
    else if |b| == 0 then false
    else if a[0] == b[0] then IsSubsequence(a[1..], b[1..])
    else IsSubsequence(a, b[1..])
  }

  /** `reviewWords.filter(w => w.reviewDate <= today)`: the due words, in store order. */
  function DueWords(words: seq<ReviewWord>, today: Day): (r: seq<ReviewWord>)
    ensures forall i :: 0 <= i < |r| ==> IsDue(r[i], today)
    ensures forall w :: multiset(r)[w] == if IsDue(w, today) then multiset(words)[w] else 0
    ensures IsSubsequence(r, words)
    decreases |words|
  {
    if |words| == 0 then []
    else
      assert words == [words[0]] + words[1..];
      var rest := DueWords(words[1..], today);
      if IsDue(words[0], today) then [words[0]] + rest else rest
  }

  /** Three words scheduled before, on and after today: the first two are due, in store order. */
  lemma DueFilterExample(w1: ReviewWord, w2: ReviewWord, w3: ReviewWord, today: Day)
    requires w1.reviewDate < today && w2.reviewDate == today && today < w3.reviewDate
    ensures DueWords([w1, w2, w3], today) == [w1, w2]
  {
    assert [w1, w2, w3][1..] == [w2, w3];
    assert [w2, w3][1..] == [w3];
    assert [w3][1..] == [];
  }

  /** A stored word is on the list for a day exactly when it is due on that day. */
  lemma DueWordsMembership(words: seq<ReviewWord>, w: ReviewWord, today: Day)
    ensures w in DueWords(words, today) <==> w in words && IsDue(w, today)
  {
    var r := DueWords(words, today);
    assert w in r <==> multiset(r)[w] > 0;
    assert w in words <==> multiset(words)[w] > 0;
  }

  /** A stored word scheduled after today is off today's list and on the list of its review day. */
  lemma ScheduledWordWaits(words: seq<ReviewWord>, w: ReviewWord, today: Day, next: Day)
    requires w in words && w.reviewDate == next && today < next
    ensures w !in DueWords(words, today) && w in DueWords(words, next)
  {
    DueWordsMembership(words, w, today);
    DueWordsMembership(words, w, next);
  }

  /** A word just reviewed leaves today's review list and is on the list again on the day its interval ends. */
  lemma ReviewedWordLeavesToday(words: seq<ReviewWord>, id: string, level: nat, details: Option<WordDetails>,
                                now: Instant, newId: string, k: nat)
    requires FirstMatch(words, id, details) == Some(k)
    ensures var r := Upsert(words, id, level, details, now, newId);
      k < |r| && r[k] !in DueWords(r, DayOf(now)) && r[k] in DueWords(r, DayOf(now) + Interval(level))
  {
    var r := Upsert(words, id, level, details, now, newId);
    var today, next := DayOf(now), DayOf(now) + Interval(level);
    assert k < |r| && r[k].reviewDate == next;
    ScheduledWordWaits(r, r[k], today, next);
  }

  /** A word just created is due at once: it is on today's review list. */
  lemma CreatedWordIsDueToday(words: seq<ReviewWord>, id: string, level: nat, d: WordDetails, now: Instant, newId: string)
    requires FirstMatch(words, id, Some(d)).None?
    ensures var r := Upsert(words, id, level, Some(d), now, newId);
      |r| == |words| + 1 && r[|words|].level == 0 && r[|words|] in DueWords(r, DayOf(now))
  {
    var r := Upsert(words, id, level, Some(d), now, newId);
    DueWordsMembership(r, r[|words|], DayOf(now));
  }

  /** The review-word list held as application state. */
  class ReviewStore {
    var words: seq<ReviewWord>

    /** Starts from the list read back from storage (empty when none was saved). */
    constructor (saved: seq<ReviewWord>)
      ensures words == saved
    {
      words := saved;
    }

    /** `handleAddOrUpdateReviewWord(id, level, details)`: updates the first matching word in
        place, or appends a new word due today, or leaves the list as it is. */
    method AddOrUpdate(id: string, level: nat, details: Option<WordDetails>, now: Instant, newId: string)
      modifies this
      ensures words == Upsert(old(words), id, level, details, now, newId)
      ensures DistinctWords(old(words)) ==> DistinctWords(words)
    {
      var existing := FindIndex(words, id, details);
      var nextLevel := level + 1;
      var nextReviewDate := DayOf(now) + Interval(level);
      if existing > -1 {
        assert FirstMatch(words, id, details) == Some(existing);
        words := words[existing := words[existing].(level := nextLevel, reviewDate := nextReviewDate)];
      } else if details.Some? {
        assert FirstMatch(words, id, details) == None;
        var created := ReviewWord(newId, details.value.word, details.value.translation, 0, DayOf(now));
        words := words + [created];
      } else {
        assert FirstMatch(words, id, details) == None;
      }
    }
  }
}
