/**
 * The review session of components/ReviewSession.tsx over a fixed list of words:
 * the component's state, what `handleAnswer` and the flip do to it, and the screen it
 * renders. `ReviewSession` is the component as an object whose methods update its fields.
 */
module Session {

  import opened Wrappers
  import opened Types
  import opened Seqs
  import Store

  /** One entry of `sessionResults` (components/ReviewSession.tsx:16). */
  datatype SessionResult = SessionResult(id: string, correct: bool)

  /** The component's four state slots (components/ReviewSession.tsx:13-16). */
  datatype SessionState = SessionState(
    currentIndex: int,
    isFlipped: bool,
    completed: bool,
    sessionResults: seq<SessionResult>)

  /** The `useState` initial values. */
  const Initial: SessionState := SessionState(0, false, false, [])

  /** What one `handleAnswer` call produces: the new state and the `onFinishReview` call made, if any. */
  datatype Answer = Answer(next: SessionState, reported: Option<SessionResult>)

  /** `words[currentIndex]`, which is `undefined` out of range (components/ReviewSession.tsx:18). */
  function CurrentWord(words: seq<Word>, st: SessionState): Option<Word> {
    if 0 <= st.currentIndex < |words| then Some(words[st.currentIndex]) else None
  }

  /**
   * `handleAnswer(correct)` (components/ReviewSession.tsx:20-32): without a current word nothing happens;
   * otherwise one result for the current word is appended and reported once, and the session
   * moves to the next word or, at the last one, completes.
   */
  function Answered(words: seq<Word>, st: SessionState, correct: bool): (a: Answer)
    ensures CurrentWord(words, st).None? ==> a == Answer(st, None)
    ensures CurrentWord(words, st).Some? ==>
      && a.reported == Some(SessionResult(words[st.currentIndex].id, correct))
      && a.next.sessionResults == st.sessionResults + [a.reported.value]
    ensures CurrentWord(words, st).Some? && st.currentIndex < |words| - 1 ==>
      && a.next.currentIndex == st.currentIndex + 1
      && !a.next.isFlipped && a.next.completed == st.completed
    ensures CurrentWord(words, st).Some? && st.currentIndex == |words| - 1 ==>
      && a.next.currentIndex == st.currentIndex
      && a.next.isFlipped == st.isFlipped && a.next.completed
  {
    match CurrentWord(words, st)
    case None => Answer(st, None)
    case Some(w) =>
      var result := SessionResult(w.id, correct);
      var results := st.sessionResults + [result];
      if st.currentIndex < |words| - 1 then
        Answer(st.(currentIndex := st.currentIndex + 1, isFlipped := false, sessionResults := results),
               Some(result))
      else
        Answer(st.(completed := true, sessionResults := results), Some(result))
  }

  /** The flip button and the card's `onClick` (components/ReviewSession.tsx:81, 124). */
  function Flipped(st: SessionState): (r: SessionState)
    ensures r.isFlipped == !st.isFlipped
    ensures r.(isFlipped := st.isFlipped) == st
  {
    st.(isFlipped := !st.isFlipped)
  }

  predicate IsCorrect(r: SessionResult) {
    r.correct
  }

  /** `sessionResults.filter(r => r.correct).length` (components/ReviewSession.tsx:48). */
  function Score(st: SessionState): (n: nat)
    ensures n <= |st.sessionResults|
  {
    Count(st.sessionResults, IsCorrect)
  }

  /** The screens the component renders. */
  datatype View =
    | NothingToReview                                        // components/ReviewSession.tsx:34-45
    | Finished(score: nat, total: nat)                       // components/ReviewSession.tsx:47-59
    | Card(word: Word, position: nat, total: nat, flipped: bool)
    | Broken  // the card render reads fields of an undefined word (components/ReviewSession.tsx:85)

  /**
   * The screen for a list and a state (components/ReviewSession.tsx:34-85): the empty screen for an
   * empty list, the score screen once completed, otherwise the card for the word at the
   * index, or the undefined-word card when the index is past the list.
   */
  function ViewOf(words: seq<Word>, st: SessionState): (v: View)
    ensures v == NothingToReview <==> |words| == 0
    ensures v.Finished? <==> |words| > 0 && st.completed
    ensures v.Finished? ==> v.score == Score(st) && v.total == |words|
    ensures v == Broken <==> |words| > 0 && !st.completed && !(0 <= st.currentIndex < |words|)
    ensures v.Card? ==> && 0 <= st.currentIndex < |words| && v.word == words[st.currentIndex]
                        && v.position == st.currentIndex + 1 && v.total == |words| && v.flipped == st.isFlipped
  {
    if |words| == 0 then NothingToReview
    else if st.completed then Finished(Score(st), |words|)
    else match CurrentWord(words, st)
      case None => Broken
      case Some(w) => Card(w, st.currentIndex + 1, |words|, st.isFlipped)
  }

  /**
   * The answer buttons exist only on the card and are disabled until it is flipped
   * (components/ReviewSession.tsx:115, 132); when they are enabled there is a current word.
   */
  function AnswerEnabled(words: seq<Word>, st: SessionState): (b: bool)
    ensures b ==> CurrentWord(words, st).Some? && !st.completed && st.isFlipped
  {
    ViewOf(words, st).Card? && st.isFlipped
  }

  /** Flipping a card face down enables the answer buttons; flipping it back disables them. */
  lemma FlipTogglesAnswer(words: seq<Word>, st: SessionState)
    requires ViewOf(words, st).Card?
    ensures AnswerEnabled(words, Flipped(st)) <==> !st.isFlipped
  {
    assert ViewOf(words, Flipped(st)).Card?;
  }

  /** An enabled answer button always judges the card's word: one result is recorded and reported. */
  lemma EnabledAnswerReports(words: seq<Word>, st: SessionState, correct: bool)
    requires AnswerEnabled(words, st)
    ensures var a := Answered(words, st, correct);
      && a.reported == Some(SessionResult(ViewOf(words, st).word.id, correct))
      && a.next.sessionResults == st.sessionResults + [a.reported.value]
  {
  }

  /**
   * What holds on a fixed list: the index stays in range, one result per word already
   * passed (all of them once completed), and the results are for the list's words in order.
   */
  predicate Invariant(words: seq<Word>, st: SessionState) {
    && 0 <= st.currentIndex
    && (|words| == 0 ==> st.currentIndex == 0 && st.sessionResults == [] && !st.completed)
    && (|words| > 0 ==> st.currentIndex < |words|)
    && (!st.completed ==> |st.sessionResults| == st.currentIndex)
    && (st.completed ==> |st.sessionResults| == |words| && st.currentIndex == |words| - 1)
    && forall k :: 0 <= k < |st.sessionResults| ==> st.sessionResults[k].id == words[k].id
  }

  lemma InitialInvariant(words: seq<Word>)
    ensures Invariant(words, Initial)
    ensures |words| == 0 <==> ViewOf(words, Initial) == NothingToReview
    ensures |words| > 0 ==> ViewOf(words, Initial) == Card(words[0], 1, |words|, false)
  {
  }

  /** Answering from any screen but the finished one keeps the invariant. */
  lemma AnsweredPreservesInvariant(words: seq<Word>, st: SessionState, correct: bool)
    requires Invariant(words, st) && !st.completed
    ensures Invariant(words, Answered(words, st, correct).next)
  {
    var a := Answered(words, st, correct);
    if CurrentWord(words, st).Some? {
      forall k | 0 <= k < |a.next.sessionResults| ensures a.next.sessionResults[k].id == words[k].id {
        if k < |st.sessionResults| {
          assert a.next.sessionResults[k] == st.sessionResults[k];
        }
      }
    }
  }

  lemma FlipPreservesInvariant(words: seq<Word>, st: SessionState)
    requires Invariant(words, st)
    ensures Invariant(words, Flipped(st))
    ensures CurrentWord(words, Flipped(st)) == CurrentWord(words, st)
  {
  }

  /** On a fixed list the card screen never reads past the end of the list. */
  lemma InvariantNeverBroken(words: seq<Word>, st: SessionState)
    requires Invariant(words, st)
    ensures ViewOf(words, st) != Broken
  {
  }

  /** The score shown on the finished screen is between 0 and the number of words. */
  lemma ScoreBound(words: seq<Word>, st: SessionState)
    requires Invariant(words, st)
    ensures Score(st) <= |words|
  {
  }

  function ResultId(r: SessionResult): string {
    r.id
  }

  /** If the list has no repeated id, no word is judged twice in one session. */
  lemma NoWordJudgedTwice(words: seq<Word>, st: SessionState)
    requires Invariant(words, st) && Store.UniqueIds(words)
    ensures DistinctKeys(st.sessionResults, ResultId)
  {
    forall i, j | 0 <= i < j < |st.sessionResults|
      ensures ResultId(st.sessionResults[i]) != ResultId(st.sessionResults[j])
    {
      assert Store.IdOf(words[i]) != Store.IdOf(words[j]);
    }
  }

  /** The session after a sequence of judgments. */
  function Run(words: seq<Word>, st: SessionState, answers: seq<bool>): SessionState
    decreases |answers|
  {
    if answers == [] then st else Run(words, Answered(words, st, answers[0]).next, answers[1..])
  }

  /**
   * From any unfinished state, one judgment per remaining word completes the session, and
   * the new results are, in order, those words with those judgments.
   */
  lemma {:induction false} RunCompletes(words: seq<Word>, st: SessionState, answers: seq<bool>)
    requires Invariant(words, st) && !st.completed && |words| > 0
    requires |answers| == |words| - st.currentIndex
    ensures var f := Run(words, st, answers);
      && Invariant(words, f) && f.completed
      && f.sessionResults[..|st.sessionResults|] == st.sessionResults
      && forall k :: st.currentIndex <= k < |words| ==>
           f.sessionResults[k] == SessionResult(words[k].id, answers[k - st.currentIndex])
    decreases |answers|
  {
    var a := Answered(words, st, answers[0]);
    AnsweredPreservesInvariant(words, st, answers[0]);
    if |answers| == 1 {
      assert Run(words, a.next, answers[1..]) == a.next;
    } else {
      RunCompletes(words, a.next, answers[1..]);
      var f := Run(words, a.next, answers[1..]);
      assert f.sessionResults[..|st.sessionResults|] == st.sessionResults by {
        assert f.sessionResults[..|a.next.sessionResults|][..|st.sessionResults|] == st.sessionResults;
      }
      forall k | st.currentIndex <= k < |words|
        ensures f.sessionResults[k] == SessionResult(words[k].id, answers[k - st.currentIndex])
      {
        if k == st.currentIndex {
          assert f.sessionResults[k] == f.sessionResults[..|a.next.sessionResults|][k];
        } else {
          assert answers[1..][k - a.next.currentIndex] == answers[k - st.currentIndex];
        }
      }
    }
  }

  /** A whole session from the start: every word judged once, in order; the score counts the correct ones. */
  lemma FullSession(words: seq<Word>, answers: seq<bool>)
    requires |words| > 0 && |answers| == |words|
    ensures var f := Run(words, Initial, answers);
      && f.completed && ViewOf(words, f) == Finished(Score(f), |words|)
      && |f.sessionResults| == |words|
      && (forall k :: 0 <= k < |words| ==> f.sessionResults[k] == SessionResult(words[k].id, answers[k]))
      && Score(f) <= |words|
  {
    RunCompletes(words, Initial, answers);
  }

  /** The component as an object; `words` is the list it is given, taken as fixed. */
  class ReviewSession {
    const words: seq<Word>
    var currentIndex: int
    var isFlipped: bool
    var completed: bool
    var sessionResults: seq<SessionResult>

    function State(): SessionState
      reads this
    {
      SessionState(currentIndex, isFlipped, completed, sessionResults)
    }

    constructor (words: seq<Word>)
      ensures this.words == words && State() == Initial
      ensures Invariant(words, State())
    {
      this.words := words;
      currentIndex := 0;
      isFlipped := false;
      completed := false;
      sessionResults := [];
    }

    /** `handleAnswer` (components/ReviewSession.tsx:20-32); `reported` is the `onFinishReview` call. */
    method HandleAnswer(correct: bool) returns (reported: Option<SessionResult>)
      modifies this
      ensures State() == Answered(words, old(State()), correct).next
      ensures reported == Answered(words, old(State()), correct).reported
      ensures Invariant(words, old(State())) && !old(completed) ==> Invariant(words, State())
    {
      if Invariant(words, State()) && !completed {
        AnsweredPreservesInvariant(words, State(), correct);
      }
      if !(0 <= currentIndex < |words|) {
        return None;
      }
      var result := SessionResult(words[currentIndex].id, correct);
      sessionResults := sessionResults + [result];
      reported := Some(result);
      if currentIndex < |words| - 1 {
        currentIndex := currentIndex + 1;
        isFlipped := false;
      } else {
        completed := true;
      }
    }

    /** The flip toggle (components/ReviewSession.tsx:81, 124). */
    method Flip()
      modifies this
      ensures State() == Flipped(old(State()))
    {
      isFlipped := !isFlipped;
    }

    function View(): View
      reads this
    {
      ViewOf(words, State())
    }
  }
}
