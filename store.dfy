/**
 * The word list of App.tsx and the pure updaters the component hands to `setWords`:
 * quick-add, delete, the review-outcome update, the pending-word enrichment, and the
 * two filters it renders (words due for review, search results).
 */
module Store {

  import opened Wrappers
  import opened Types
  import opened Text
  import opened Seqs

  /** Defaults of a quick-added word (App.tsx:62-65). */
  const PlaceholderMeaning: string := "正在解析..."
  const DefaultCategory: string := "通用"
  const DefaultLevel: Level := N3

  /** Milliseconds in a day: the unit `setDate` adds in (App.tsx:140). */
  const MsPerDay: int := 86_400_000

  function IdOf(w: Word): string { w.id }

  /** No two words share an id (the source relies on `crypto.randomUUID`). */
  predicate UniqueIds(ws: seq<Word>) {
    DistinctKeys(ws, IdOf)
  }

  /** `id` is not the id of any word in `ws`. */
  predicate FreshId(ws: seq<Word>, id: string) {
    forall i :: 0 <= i < |ws| ==> ws[i].id != id
  }

  predicate AllMasteryInRange(ws: seq<Word>) {
    forall i :: 0 <= i < |ws| ==> MasteryInRange(ws[i])
  }

  /** What every operation of the store keeps. */
  predicate StoreInvariant(ws: seq<Word>) {
    UniqueIds(ws) && AllMasteryInRange(ws)
  }

  // ---------------------------------------------------------------- quick-add

  /** The record `handleQuickAdd` builds (App.tsx:59-70). */
  function NewWord(kanji: string, id: string, now: Time): Word {
    Word(id, kanji, "", PlaceholderMeaning, None, None, None,
         DefaultCategory, DefaultLevel, 0, now, now, Pending)
  }

  /**
   * `handleQuickAdd` on the list (App.tsx:58-71): whitespace-only input is ignored;
   * otherwise a new word for the trimmed input goes to the front of the list.
   */
  function QuickAdded(ws: seq<Word>, input: string, id: string, now: Time): (r: seq<Word>)
    ensures AllWhitespace(input) ==> r == ws
    ensures !AllWhitespace(input) ==> |r| == |ws| + 1 && r[1..] == ws
  {
    var kanji := Trim(input);
    if kanji == "" then ws else [NewWord(kanji, id, now)] + ws
  }

  /** The added word carries the defaults, is pending, and is due at once. */
  lemma QuickAddedWord(ws: seq<Word>, input: string, id: string, now: Time)
    requires !AllWhitespace(input)
    ensures var w := QuickAdded(ws, input, id, now)[0];
      && w.id == id && w.kanji == Trim(input) && w.kanji != ""
      && w.reading == "" && w.meaning == PlaceholderMeaning
      && w.example.None? && w.exampleTranslation.None? && w.mnemonic.None?
      && w.category == DefaultCategory && w.level == N3
      && w.masteryLevel == 0 && MasteryInRange(w) && w.status == Pending
      && w.createdAt == now && w.nextReviewDate == now && IsDue(w, now)
  {
  }

  lemma {:induction false} QuickAddPreservesInvariant(ws: seq<Word>, input: string, id: string, now: Time)
    requires StoreInvariant(ws) && FreshId(ws, id)
    ensures StoreInvariant(QuickAdded(ws, input, id, now))
  {
    var r := QuickAdded(ws, input, id, now);
    if !AllWhitespace(input) {
      forall i, j | 0 <= i < j < |r| ensures r[i].id != r[j].id {
        if i > 0 { assert r[i] == ws[i - 1] && r[j] == ws[j - 1]; }
        else { assert r[j] == ws[j - 1]; }
      }
      forall i | 0 <= i < |r| ensures MasteryInRange(r[i]) {
        if i > 0 { assert r[i] == ws[i - 1]; }
      }
    }
  }

  // ------------------------------------------------------------------- delete

  /** The delete updater `prev.filter(w => w.id !== id)` (App.tsx:127). */
  function Deleted(ws: seq<Word>, id: string): (r: seq<Word>)
    ensures forall i :: 0 <= i < |r| ==> r[i] in ws && r[i].id != id
    ensures forall i :: 0 <= i < |ws| && ws[i].id != id ==> ws[i] in r
  {
    Filter(ws, (w: Word) => w.id != id)
  }

  /** Deleting an id that is not in the list changes nothing. */
  lemma DeleteMissingIsNoOp(ws: seq<Word>, id: string)
    requires FreshId(ws, id)
    ensures Deleted(ws, id) == ws
  {
    FilterKeepsAll(ws, (w: Word) => w.id != id);
  }

  /** With unique ids, deleting a present id removes exactly one word. */
  lemma {:induction false} DeleteRemovesOne(ws: seq<Word>, id: string)
    requires UniqueIds(ws) && !FreshId(ws, id)
    ensures |Deleted(ws, id)| == |ws| - 1
  {
    var p := (w: Word) => w.id != id;
    assert Deleted(ws, id) == Filter(ws, p);
    if ws[0].id == id {
      assert Filter(ws, p) == Filter(ws[1..], p);
      assert FreshId(ws[1..], id) by {
        forall i | 0 <= i < |ws[1..]| ensures ws[1..][i].id != id {
          assert IdOf(ws[0]) != IdOf(ws[i + 1]);
        }
        FilterDropsAll(ws[1..], p);
      }
      FilterKeepsAll(ws[1..], p);
    } else {
      assert Filter(ws, p) == [ws[0]] + Filter(ws[1..], p);
      assert UniqueIds(ws[1..]) by {
        forall i, j | 0 <= i < j < |ws[1..]| ensures IdOf(ws[1..][i]) != IdOf(ws[1..][j]) {
          assert IdOf(ws[i + 1]) != IdOf(ws[j + 1]);
        }
      }
      DeleteRemovesOne(ws[1..], id);
      assert Deleted(ws[1..], id) == Filter(ws[1..], p);
    }
  }

  lemma DeletePreservesInvariant(ws: seq<Word>, id: string)
    requires StoreInvariant(ws)
    ensures StoreInvariant(Deleted(ws, id))
  {
    FilterDistinct(ws, (w: Word) => w.id != id, IdOf);
  }

  // ------------------------------------------------------------ review outcome

  /**
   * The new mastery after a judgment (App.tsx:138): one level up when correct, one down
   * when not, kept within [0, 5].
   */
  function NewMastery(m: int, correct: bool): (r: int)
    ensures MinMastery <= m <= MaxMastery ==> MinMastery <= r <= MaxMastery
    ensures correct ==> r == (if m < MaxMastery then m + 1 else MaxMastery)
    ensures !correct ==> r == (if m > MinMastery then m - 1 else MinMastery)
  {
    if correct then (if MaxMastery < m + 1 then MaxMastery else m + 1)
    else (if m - 1 < MinMastery then MinMastery else m - 1)
  }

  function Pow2(n: nat): (r: nat)
    ensures r >= 1
  {
    if n == 0 then 1 else 2 * Pow2(n - 1)
  }

  /**
   * The whole days `setDate(getDate() + Math.pow(2, m))` moves the date by (App.tsx:140).
   * For a negative `m` the power is a fraction that the day arithmetic truncates to 0.
   */
  function IntervalDays(m: int): (d: nat)
    ensures d == 0 <==> m < 0
  {
    if m < 0 then 0 else Pow2(m)
  }

  /** The schedule: 1, 2, 4, 8, 16 and 32 days for levels 0 to 5. */
  lemma IntervalSchedule()
    ensures IntervalDays(0) == 1 && IntervalDays(1) == 2 && IntervalDays(2) == 4
    ensures IntervalDays(3) == 8 && IntervalDays(4) == 16 && IntervalDays(5) == 32
  {
  }

  /** Each mastery level waits twice as long as the one below it. */
  lemma IntervalDoubles(m: int)
    requires 0 <= m
    ensures IntervalDays(m + 1) == 2 * IntervalDays(m)
  {
  }

  /**
   * The reviewed word (App.tsx:137-141): only the mastery and the next review date change;
   * the next review is `now` plus the new level's interval, so a word whose mastery was in
   * range is no longer due at `now`.
   */
  function ReviewedWord(w: Word, correct: bool, now: Time): (r: Word)
    ensures r.masteryLevel == NewMastery(w.masteryLevel, correct)
    ensures r.nextReviewDate == now + IntervalDays(r.masteryLevel) * MsPerDay
    ensures r.(masteryLevel := w.masteryLevel, nextReviewDate := w.nextReviewDate) == w
    ensures MasteryInRange(w) ==> MasteryInRange(r) && !IsDue(r, now)
    ensures MasteryInRange(w) ==>
      now + MsPerDay <= r.nextReviewDate <= now + 32 * MsPerDay
  {
    var m := NewMastery(w.masteryLevel, correct);
    IntervalSchedule();
    w.(masteryLevel := m, nextReviewDate := now + IntervalDays(m) * MsPerDay)
  }

  /** `prev.map(w => w.id === id ? f(w) : w)`: apply `f` to the words with that id. */
  function UpdateById(ws: seq<Word>, id: string, f: Word -> Word): (r: seq<Word>)
    ensures |r| == |ws|
    ensures forall i :: 0 <= i < |ws| ==> r[i] == (if ws[i].id == id then f(ws[i]) else ws[i])
  {
    if ws == [] then []
    else [if ws[0].id == id then f(ws[0]) else ws[0]] + UpdateById(ws[1..], id, f)
  }

  /** The `onFinishReview` updater (App.tsx:136-142). */
  function Reviewed(ws: seq<Word>, id: string, correct: bool, now: Time): (r: seq<Word>)
    ensures |r| == |ws|
    ensures forall i :: 0 <= i < |ws| && ws[i].id != id ==> r[i] == ws[i]
    ensures forall i :: 0 <= i < |ws| && ws[i].id == id ==> r[i] == ReviewedWord(ws[i], correct, now)
  {
    UpdateById(ws, id, (w: Word) => ReviewedWord(w, correct, now))
  }

  lemma ReviewPreservesInvariant(ws: seq<Word>, id: string, correct: bool, now: Time)
    requires StoreInvariant(ws)
    ensures StoreInvariant(Reviewed(ws, id, correct, now))
  {
    var r := Reviewed(ws, id, correct, now);
    forall i, j | 0 <= i < j < |r| ensures IdOf(r[i]) != IdOf(r[j]) {
      assert IdOf(ws[i]) != IdOf(ws[j]);
    }
    forall i | 0 <= i < |r| ensures MasteryInRange(r[i]) {
      assert MasteryInRange(ws[i]);
    }
  }

  // ------------------------------------------------------------------ filters

  /** `new Date(w.nextReviewDate) <= new Date()` (App.tsx:81). */
  predicate IsDue(w: Word, now: Time) {
    w.nextReviewDate <= now
  }

  /** `wordsToReview` (App.tsx:81): the words due at `now`, in list order. */
  function Due(ws: seq<Word>, now: Time): (r: seq<Word>)
    ensures forall i :: 0 <= i < |r| ==> r[i] in ws && IsDue(r[i], now)
    ensures forall i :: 0 <= i < |ws| && IsDue(ws[i], now) ==> ws[i] in r
  {
    Filter(ws, (w: Word) => IsDue(w, now))
  }

  /** The due list is built front to back: a due head word stays first, a later one is dropped. */
  lemma DueCons(w: Word, ws: seq<Word>, now: Time)
    ensures Due([w] + ws, now) == (if IsDue(w, now) then [w] else []) + Due(ws, now)
  {
    assert ([w] + ws)[1..] == ws;
  }

  /** Once reviewed, a word whose mastery was in range leaves the due list. */
  lemma ReviewedLeavesDue(ws: seq<Word>, id: string, correct: bool, now: Time)
    requires AllMasteryInRange(ws)
    ensures forall i :: 0 <= i < |Due(Reviewed(ws, id, correct, now), now)| ==>
      Due(Reviewed(ws, id, correct, now), now)[i].id != id
  {
    var r := Reviewed(ws, id, correct, now);
    forall i | 0 <= i < |Due(r, now)| ensures Due(r, now)[i].id != id {
      var w := Due(r, now)[i];
      var k :| 0 <= k < |r| && r[k] == w;
      assert MasteryInRange(ws[k]);
    }
  }

  /** The search match: the query occurs in the headword or in the meaning (App.tsx:126). */
  predicate Matches(w: Word, query: string) {
    Contains(w.kanji, query) || Contains(w.meaning, query)
  }

  /** The list the word view shows (App.tsx:126), in list order; an empty query keeps every word. */
  function Search(ws: seq<Word>, query: string): (r: seq<Word>)
    ensures forall i :: 0 <= i < |r| ==> r[i] in ws && Matches(r[i], query)
    ensures forall i :: 0 <= i < |ws| && Matches(ws[i], query) ==> ws[i] in r
    ensures query == "" ==> r == ws
  {
    var p := (w: Word) => Matches(w, query);
    if query == "" then
      assert forall i :: 0 <= i < |ws| ==> p(ws[i]) by {
        forall i | 0 <= i < |ws| ensures p(ws[i]) { ContainsEmpty(ws[i].kanji); }
      }
      FilterKeepsAll(ws, p);
      Filter(ws, p)
    else
      Filter(ws, p)
  }

  // --------------------------------------------------------------- enrichment

  predicate IsPending(w: Word) {
    w.status == Pending
  }

  /** `ws[i]` is the first pending word of `ws`. */
  predicate FirstPendingAt(ws: seq<Word>, i: int) {
    0 <= i < |ws| && IsPending(ws[i]) && forall j :: 0 <= j < i ==> !IsPending(ws[j])
  }

  /** `words.find(w => w.status === 'pending')` (App.tsx:40). */
  function FindPending(ws: seq<Word>): (r: Option<Word>)
    ensures r.None? <==> forall i :: 0 <= i < |ws| ==> !IsPending(ws[i])
    ensures r.Some? ==> exists i :: FirstPendingAt(ws, i) && ws[i] == r.value
  {
    if ws == [] then None
    else if IsPending(ws[0]) then
      assert FirstPendingAt(ws, 0);
      Some(ws[0])
    else
      var r := FindPending(ws[1..]);
      assert r.Some? ==> exists i :: FirstPendingAt(ws, i) && ws[i] == r.value by {
        if r.Some? {
          var i :| FirstPendingAt(ws[1..], i) && ws[1..][i] == r.value;
          assert FirstPendingAt(ws, i + 1);
        }
      }
      assert r.None? ==> forall i :: 0 <= i < |ws| ==> !IsPending(ws[i]) by {
        if r.None? {
          forall i | 0 <= i < |ws| ensures !IsPending(ws[i]) {
            if i > 0 { assert ws[i] == ws[1..][i - 1]; }
          }
        }
      }
      r
  }

  /** `{ ...w, ...suggestion, status: 'completed' }` (App.tsx:46). */
  function EnrichedWord(w: Word, s: Suggestion): (r: Word)
    ensures r.status == Completed
    ensures r.reading == s.reading && r.meaning == s.meaning
    ensures r.example == Some(s.example) && r.exampleTranslation == Some(s.exampleTranslation)
    ensures r.mnemonic == Some(s.mnemonic)
    ensures r.(reading := w.reading, meaning := w.meaning, example := w.example,
               exampleTranslation := w.exampleTranslation, mnemonic := w.mnemonic,
               status := w.status) == w
  {
    w.(reading := s.reading, meaning := s.meaning, example := Some(s.example),
       exampleTranslation := Some(s.exampleTranslation), mnemonic := Some(s.mnemonic),
       status := Completed)
  }

  /**
   * What the provider's answer does to the pending word (App.tsx:44-50): a suggestion
   * completes it, no suggestion only marks it failed.
   */
  function Resolve(w: Word, answer: Option<Suggestion>): (r: Word)
    ensures !IsPending(r)
    ensures answer.Some? ==> r == EnrichedWord(w, answer.value)
    ensures answer.None? ==> r == w.(status := Failed)
  {
    match answer
    case Some(s) => EnrichedWord(w, s)
    case None => w.(status := Failed)
  }

  /** The enrichment updater applied to the words with the pending word's id. */
  function Resolved(ws: seq<Word>, id: string, answer: Option<Suggestion>): (r: seq<Word>)
    ensures |r| == |ws|
    ensures forall i :: 0 <= i < |ws| && ws[i].id != id ==> r[i] == ws[i]
    ensures forall i :: 0 <= i < |ws| && ws[i].id == id ==> r[i] == Resolve(ws[i], answer)
  {
    UpdateById(ws, id, (w: Word) => Resolve(w, answer))
  }

  /**
   * One enrichment (App.tsx:39-54), taken as one atomic step: the first pending word is
   * resolved with the provider's answer; with no pending word nothing changes.
   */
  function EnrichStep(ws: seq<Word>, answer: Option<Suggestion>): (r: seq<Word>)
    ensures |r| == |ws|
    ensures FindPending(ws).None? ==> r == ws
    ensures FindPending(ws).Some? ==> forall i :: 0 <= i < |ws| ==>
      r[i] == (if ws[i].id == FindPending(ws).value.id then Resolve(ws[i], answer) else ws[i])
    ensures forall i :: 0 <= i < |ws| ==> r[i].id == ws[i].id
  {
    match FindPending(ws)
    case None => ws
    case Some(p) => Resolved(ws, p.id, answer)
  }

  /** The number of pending words. */
  function PendingCount(ws: seq<Word>): nat {
    Count(ws, IsPending)
  }

  function PendingWithId(ws: seq<Word>, id: string): nat {
    Count(ws, (w: Word) => IsPending(w) && w.id == id)
  }

  lemma {:induction false} ResolvedPendingCount(ws: seq<Word>, id: string, answer: Option<Suggestion>)
    ensures PendingCount(Resolved(ws, id, answer)) == PendingCount(ws) - PendingWithId(ws, id)
  {
    if ws != [] {
      var r := Resolved(ws, id, answer);
      assert r[1..] == Resolved(ws[1..], id, answer);
      ResolvedPendingCount(ws[1..], id, answer);
      CountCons(r, IsPending);
      CountCons(ws, IsPending);
      CountCons(ws, (w: Word) => IsPending(w) && w.id == id);
    }
  }

  lemma {:induction false} PendingWithIdAtMostOne(ws: seq<Word>, id: string)
    requires UniqueIds(ws)
    ensures PendingWithId(ws, id) <= 1
  {
    if ws != [] {
      var p := (w: Word) => IsPending(w) && w.id == id;
      assert UniqueIds(ws[1..]) by {
        forall i, j | 0 <= i < j < |ws[1..]| ensures IdOf(ws[1..][i]) != IdOf(ws[1..][j]) {
          assert IdOf(ws[i + 1]) != IdOf(ws[j + 1]);
        }
      }
      PendingWithIdAtMostOne(ws[1..], id);
      CountCons(ws, p);
      if p(ws[0]) {
        forall i | 0 <= i < |ws[1..]| ensures !p(ws[1..][i]) {
          assert IdOf(ws[0]) != IdOf(ws[i + 1]);
        }
        FilterDropsAll(ws[1..], p);
      }
    }
  }

  /**
   * Enrichment makes progress: while a word is pending, each step leaves fewer pending
   * words, and with unique ids exactly one fewer.
   */
  lemma EnrichStepProgress(ws: seq<Word>, answer: Option<Suggestion>)
    requires FindPending(ws).Some?
    ensures PendingCount(EnrichStep(ws, answer)) < PendingCount(ws)
    ensures UniqueIds(ws) ==> PendingCount(EnrichStep(ws, answer)) == PendingCount(ws) - 1
  {
    var p := FindPending(ws).value;
    var i :| FirstPendingAt(ws, i) && ws[i] == p;
    var q := (w: Word) => IsPending(w) && w.id == p.id;
    assert ws[i] in Filter(ws, q);
    ResolvedPendingCount(ws, p.id, answer);
    if UniqueIds(ws) { PendingWithIdAtMostOne(ws, p.id); }
  }

  lemma EnrichPreservesInvariant(ws: seq<Word>, answer: Option<Suggestion>)
    requires StoreInvariant(ws)
    ensures StoreInvariant(EnrichStep(ws, answer))
  {
    var r := EnrichStep(ws, answer);
    forall i, j | 0 <= i < j < |r| ensures IdOf(r[i]) != IdOf(r[j]) {
      assert IdOf(ws[i]) != IdOf(ws[j]);
    }
    forall i | 0 <= i < |r| ensures MasteryInRange(r[i]) {
      assert MasteryInRange(ws[i]);
    }
  }

  /** What one enrichment round keeps and what it makes progress on. */
  lemma EnrichStepFacts(ws: seq<Word>, answer: Option<Suggestion>)
    ensures StoreInvariant(ws) ==> StoreInvariant(EnrichStep(ws, answer))
    ensures FindPending(ws).Some? ==> PendingCount(EnrichStep(ws, answer)) < PendingCount(ws)
  {
    if StoreInvariant(ws) {
      EnrichPreservesInvariant(ws, answer);
    }
    if FindPending(ws).Some? {
      EnrichStepProgress(ws, answer);
    }
  }
}
