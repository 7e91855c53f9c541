/**
 * How App.tsx connects the review session to the store. The session's `words` is
 * `wordsToReview`, recomputed on every render (App.tsx:81, 134), and every answer
 * reschedules the judged word (App.tsx:136-142), which drops it from that list while the
 * session's index moves on (components/ReviewSession.tsx:26-28). `LiveAnswer` is that wiring as
 * written; `SnapshotAnswer` is the session run over the due list taken when it starts.
 */
module LiveReview {

  import opened Wrappers
  import opened Types
  import opened Store
  import opened Session

  /** The store's words and the session's state. */
  datatype Screen = Screen(words: seq<Word>, session: SessionState)

  /**
   * As written: the session takes its step on the due list of the moment, and a reported
   * result reschedules every word with the judged id while the others stay.
   */
  function LiveAnswer(sc: Screen, correct: bool, now: Time): (r: Screen)
    ensures var a := Answered(Due(sc.words, now), sc.session, correct);
      && r.session == a.next
      && |r.words| == |sc.words|
      && (a.reported.None? ==> r.words == sc.words)
      && (a.reported.Some? ==> forall i :: 0 <= i < |sc.words| ==>
            r.words[i] == (if sc.words[i].id == a.reported.value.id then ReviewedWord(sc.words[i], correct, now) else sc.words[i]))
  {
    var a := Answered(Due(sc.words, now), sc.session, correct);
    match a.reported
    case None => Screen(sc.words, a.next)
    case Some(r) => Screen(Reviewed(sc.words, r.id, r.correct, now), a.next)
  }

  /**
   * What is rendered: the session's screen over the due list of the moment. A card always
   * shows a stored word that is due, and the empty screen means no stored word is due.
   */
  function LiveView(sc: Screen, now: Time): (v: View)
    ensures v.Card? ==> v.word in sc.words && IsDue(v.word, now)
    ensures v == NothingToReview <==> forall i :: 0 <= i < |sc.words| ==> !IsDue(sc.words[i], now)
  {
    var due := Due(sc.words, now);
    assert due != [] ==> exists i :: 0 <= i < |sc.words| && IsDue(sc.words[i], now) by {
      if due != [] {
        var j :| 0 <= j < |sc.words| && sc.words[j] == due[0];
        assert IsDue(sc.words[j], now);
      }
    }
    ViewOf(due, sc.session)
  }

  /** A freshly added word, due at time 0. */
  function Fresh(id: string, kanji: string): Word {
    NewWord(kanji, id, 0)
  }

  lemma DueOf2(a: Word, b: Word, now: Time)
    ensures Due([a, b], now) == (if IsDue(a, now) then [a] else []) + (if IsDue(b, now) then [b] else [])
  {
    DueCons(a, [b], now);
    DueCons(b, [], now);
    assert [a, b] == [a] + [b];
    assert [b] == [b] + [];
  }

  lemma DueOf3(a: Word, b: Word, c: Word, now: Time)
    ensures Due([a, b, c], now) ==
      (if IsDue(a, now) then [a] else []) + (if IsDue(b, now) then [b] else []) + (if IsDue(c, now) then [c] else [])
  {
    DueCons(a, [b, c], now);
    DueOf2(b, c, now);
    assert [a, b, c] == [a] + [b, c];
  }

  /** The first answer judges the first due word and reschedules it; the index moves to 1. */
  lemma LiveFirstAnswer(a: Word, b: Word, c: Word)
    requires a == Fresh("a", "猫") && b == Fresh("b", "犬") && c == Fresh("c", "鳥")
    ensures LiveAnswer(Screen([a, b, c], Initial), true, 0)
         == Screen([ReviewedWord(a, true, 0), b, c], SessionState(1, false, false, [SessionResult("a", true)]))
  {
    DueOf3(a, b, c, 0);
    var r := Reviewed([a, b, c], "a", true, 0);
    assert r == [ReviewedWord(a, true, 0), b, c];
  }

  /** The second answer is taken at index 1 of the shrunken due list `[b, c]`: it judges `c`. */
  lemma LiveSecondAnswer(a': Word, b: Word, c: Word)
    requires a' == ReviewedWord(Fresh("a", "猫"), true, 0) && b == Fresh("b", "犬") && c == Fresh("c", "鳥")
    ensures var s2 := LiveAnswer(Screen([a', b, c], SessionState(1, false, false, [SessionResult("a", true)])), true, 0);
      && s2.session == SessionState(1, false, true, [SessionResult("a", true), SessionResult("c", true)])
      && s2.words[1] == b
  {
    DueOf3(a', b, c, 0);
    assert Due([a', b, c], 0) == [b, c];
  }

  /**
   * With three due words, judging the first moves the session to index 1 of a list that
   * has lost the first word, so the second word is never shown: the session completes
   * after two answers, with results for "a" and "c", while "b" is still due.
   */
  lemma LiveSessionSkipsWord()
    ensures var ws := [Fresh("a", "猫"), Fresh("b", "犬"), Fresh("c", "鳥")];
      var s1 := LiveAnswer(Screen(ws, Initial), true, 0);
      var s2 := LiveAnswer(s1, true, 0);
      && s2.session.completed
      && s2.session.sessionResults == [SessionResult("a", true), SessionResult("c", true)]
      && s2.words[1] == ws[1] && IsDue(s2.words[1], 0)
  {
    var a, b, c := Fresh("a", "猫"), Fresh("b", "犬"), Fresh("c", "鳥");
    LiveFirstAnswer(a, b, c);
    LiveSecondAnswer(ReviewedWord(a, true, 0), b, c);
  }

  /** With two due words, the first answer judges the first and reschedules it; the index moves to 1. */
  lemma LiveFirstOfTwo(a: Word, b: Word)
    requires a == Fresh("a", "猫") && b == Fresh("b", "犬")
    ensures LiveAnswer(Screen([a, b], Initial), true, 0)
         == Screen([ReviewedWord(a, true, 0), b], SessionState(1, false, false, [SessionResult("a", true)]))
  {
    DueOf2(a, b, 0);
    var r := Reviewed([a, b], "a", true, 0);
    assert r == [ReviewedWord(a, true, 0), b];
  }

  /**
   * With two due words, after one answer the index is 1 but the due list has one word:
   * the session is neither finished nor empty, and the card would read an undefined word.
   */
  lemma LiveSessionBreaks()
    ensures var ws := [Fresh("a", "猫"), Fresh("b", "犬")];
      LiveView(LiveAnswer(Screen(ws, Initial), true, 0), 0) == Broken
  {
    var a, b := Fresh("a", "猫"), Fresh("b", "犬");
    LiveFirstOfTwo(a, b);
    var a' := ReviewedWord(a, true, 0);
    DueOf2(a', b, 0);
    assert Due([a', b], 0) == [b];
  }

  /** The store's words, the due list as it was when the session began, and the session's state. */
  datatype SnapshotScreen = SnapshotScreen(words: seq<Word>, snapshot: seq<Word>, session: SessionState)

  /** Corrected: the session answers against its snapshot; its report updates the store as before. */
  function SnapshotAnswer(sc: SnapshotScreen, correct: bool, now: Time): SnapshotScreen {
    var a := Answered(sc.snapshot, sc.session, correct);
    match a.reported
    case None => sc.(session := a.next)
    case Some(r) => sc.(words := Reviewed(sc.words, r.id, r.correct, now), session := a.next)
  }

  function SnapshotRun(sc: SnapshotScreen, answers: seq<bool>, now: Time): SnapshotScreen
    decreases |answers|
  {
    if answers == [] then sc else SnapshotRun(SnapshotAnswer(sc, answers[0], now), answers[1..], now)
  }

  /** Whatever the store does in between, the session over a snapshot runs as on a fixed list. */
  lemma {:induction false} SnapshotRunIsRun(sc: SnapshotScreen, answers: seq<bool>, now: Time)
    ensures SnapshotRun(sc, answers, now).session == Run(sc.snapshot, sc.session, answers)
    ensures SnapshotRun(sc, answers, now).snapshot == sc.snapshot
    decreases |answers|
  {
    if answers != [] {
      SnapshotRunIsRun(SnapshotAnswer(sc, answers[0], now), answers[1..], now);
    }
  }

  /**
   * With a fixed snapshot, one answer per word of the snapshot judges every word of it
   * exactly once, in list order, and the session ends on the finished screen.
   */
  lemma SnapshotJudgesEveryWord(ws: seq<Word>, snapshot: seq<Word>, answers: seq<bool>, now: Time)
    requires |snapshot| > 0 && |answers| == |snapshot|
    ensures var f := SnapshotRun(SnapshotScreen(ws, snapshot, Initial), answers, now);
      && f.session.completed
      && ViewOf(snapshot, f.session) == Finished(Score(f.session), |snapshot|)
      && |f.session.sessionResults| == |snapshot|
      && forall k :: 0 <= k < |snapshot| ==> f.session.sessionResults[k] == SessionResult(snapshot[k].id, answers[k])
  {
    SnapshotRunIsRun(SnapshotScreen(ws, snapshot, Initial), answers, now);
    FullSession(snapshot, answers);
  }

  /**
   * With a snapshot taken when the session opens, one answer per due word judges every
   * due word exactly once, in list order, and the session ends on the finished screen.
   */
  lemma SnapshotJudgesEveryDueWord(ws: seq<Word>, answers: seq<bool>, now: Time)
    requires |Due(ws, now)| > 0 && |answers| == |Due(ws, now)|
    ensures var due := Due(ws, now);
      var f := SnapshotRun(SnapshotScreen(ws, due, Initial), answers, now);
      && f.session.completed
      && ViewOf(due, f.session) == Finished(Score(f.session), |due|)
      && |f.session.sessionResults| == |due|
      && forall k :: 0 <= k < |due| ==> f.session.sessionResults[k] == SessionResult(due[k].id, answers[k])
  {
    SnapshotJudgesEveryWord(ws, Due(ws, now), answers, now);
  }

  /** On the three words of `LiveSessionSkipsWord`, the snapshot session judges all three, in order. */
  lemma SnapshotSessionJudgesAll(a: Word, b: Word, c: Word, answers: seq<bool>)
    requires a == Fresh("a", "猫") && b == Fresh("b", "犬") && c == Fresh("c", "鳥")
    requires |answers| == 3
    ensures var f := SnapshotRun(SnapshotScreen([a, b, c], Due([a, b, c], 0), Initial), answers, 0);
      && f.session.completed
      && |f.session.sessionResults| == 3
      && f.session.sessionResults[0] == SessionResult("a", answers[0])
      && f.session.sessionResults[1] == SessionResult("b", answers[1])
      && f.session.sessionResults[2] == SessionResult("c", answers[2])
  {
    assert IsDue(a, 0) && IsDue(b, 0) && IsDue(c, 0);
    DueOf3(a, b, c, 0);
    assert Due([a, b, c], 0) == [a, b, c];
    SnapshotJudgesEveryWord([a, b, c], [a, b, c], answers, 0);
  }
}
