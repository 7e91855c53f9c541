/**
 * The App component's state slots (App.tsx:22-25) as an object, with one method per
 * handler that replaces them. Each method applies the matching pure updater of `Store`.
 */
module App {

  import opened Wrappers
  import opened Types
  import opened Text
  import opened Store

  class AppState {
    var words: seq<Word>
    var mode: AppMode
    var searchQuery: string
    var quickInput: string

    /** The store invariant: unique ids and every mastery level in [0, 5]. */
    ghost predicate Valid()
      reads this
    {
      StoreInvariant(words)
    }

    /** The initial state (App.tsx:22-25); loading a saved list is not part of this model. */
    constructor ()
      ensures Valid()
      ensures words == [] && mode == List && searchQuery == "" && quickInput == ""
    {
      words := [];
      mode := List;
      searchQuery := "";
      quickInput := "";
    }

    /** The input box's `onChange` (App.tsx:107). */
    method SetQuickInput(s: string)
      modifies this
      ensures quickInput == s
      ensures words == old(words) && mode == old(mode) && searchQuery == old(searchQuery)
    {
      quickInput := s;
    }

    /** The search box's `onChange` (App.tsx:121). */
    method SetSearchQuery(q: string)
      modifies this
      ensures searchQuery == q
      ensures words == old(words) && mode == old(mode) && quickInput == old(quickInput)
    {
      searchQuery := q;
    }

    /** The navigation buttons and the review screen's exit (App.tsx:144, 154, 161, 173). */
    method SetMode(m: AppMode)
      modifies this
      ensures mode == m
      ensures words == old(words) && searchQuery == old(searchQuery) && quickInput == old(quickInput)
    {
      mode := m;
    }

    /**
     * `handleQuickAdd` (App.tsx:56-73). `id` stands for `crypto.randomUUID()` and is fresh;
     * `now` for `new Date()`. Whitespace-only input returns early and leaves the box as it is.
     */
    method QuickAdd(id: string, now: Time)
      requires FreshId(words, id)
      modifies this
      ensures words == QuickAdded(old(words), old(quickInput), id, now)
      ensures quickInput == (if AllWhitespace(old(quickInput)) then old(quickInput) else "")
      ensures mode == old(mode) && searchQuery == old(searchQuery)
      ensures old(Valid()) ==> Valid()
    {
      if Trim(quickInput) == "" {
        return;
      }
      if StoreInvariant(words) {
        QuickAddPreservesInvariant(words, quickInput, id, now);
      }
      words := QuickAdded(words, quickInput, id, now);
      quickInput := "";
    }

    /** The list's `onDelete` (App.tsx:127). */
    method Delete(id: string)
      modifies this
      ensures words == Deleted(old(words), id)
      ensures mode == old(mode) && searchQuery == old(searchQuery) && quickInput == old(quickInput)
      ensures old(Valid()) ==> Valid()
    {
      if StoreInvariant(words) {
        DeletePreservesInvariant(words, id);
      }
      words := Deleted(words, id);
    }

    /** The review session's `onFinishReview` (App.tsx:135-143), judged at time `now`. */
    method FinishReview(id: string, correct: bool, now: Time)
      modifies this
      ensures words == Reviewed(old(words), id, correct, now)
      ensures mode == old(mode) && searchQuery == old(searchQuery) && quickInput == old(quickInput)
      ensures old(Valid()) ==> Valid()
    {
      if StoreInvariant(words) {
        ReviewPreservesInvariant(words, id, correct, now);
      }
      words := Reviewed(words, id, correct, now);
    }

    /**
     * One run of the enrichment effect (App.tsx:39-54) as one step: `answer` is what
     * `getWordSuggestion` resolved to for the first pending word, which is returned.
     */
    method EnrichNext(answer: Option<Suggestion>) returns (target: Option<Word>)
      modifies this
      ensures target == FindPending(old(words))
      ensures words == EnrichStep(old(words), answer)
      ensures target.Some? ==> PendingCount(words) < PendingCount(old(words))
      ensures mode == old(mode) && searchQuery == old(searchQuery) && quickInput == old(quickInput)
      ensures old(Valid()) ==> Valid()
    {
      var ws := words;
      target := FindPending(ws);
      EnrichStepFacts(ws, answer);
      words := EnrichStep(ws, answer);
    }

    /** `wordsToReview` (App.tsx:81). */
    function WordsToReview(now: Time): (r: seq<Word>)
      reads this
      ensures forall i :: 0 <= i < |r| ==> r[i] in words && IsDue(r[i], now)
      ensures forall i :: 0 <= i < |words| && IsDue(words[i], now) ==> words[i] in r
    {
      Due(words, now)
    }

    /** The words handed to the list view (App.tsx:126). */
    function VisibleWords(): (r: seq<Word>)
      reads this
      ensures forall i :: 0 <= i < |r| ==> r[i] in words && Matches(r[i], searchQuery)
      ensures forall i :: 0 <= i < |words| && Matches(words[i], searchQuery) ==> words[i] in r
      ensures searchQuery == "" ==> r == words
    {
      Search(words, searchQuery)
    }
  }
}
