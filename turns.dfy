/**
 * The invariant the game engine keeps between turns, stated over a game state, the solver's
 * two fields and the feedback table, and the facts about one turn that preserve it.
 */
module Turns {
  import opened Wrappers
  import opened Words
  import opened Feedback
  import opened State
  import opened Consistent

  /**
   * What the engine is configured with: the vocabularies are what the loader delivers, the
   * table caches the codec over them, and the turn limit is positive.
   */
  ghost predicate Setup(table: array2<nat>, s: GameState)
    reads table
  {
    IsVocabulary(s.wordBank, s.validWords) && IsEncodeTable(table, s.wordBank, s.validWords) &&
    s.maxTurns > 0
  }

  /**
   * The history of a configured game: no longer than the limit, every guess a valid word,
   * empty while there is no answer, and every code the table entry of its guess against the
   * hidden answer.
   */
  ghost predicate Recorded(table: array2<nat>, s: GameState)
    reads table
    requires Setup(table, s)
  {
    |s.history| <= s.maxTurns &&
    (forall k :: 0 <= k < |s.history| ==> s.history[k].guess in s.validWords) &&
    (forall k :: 0 <= k < |s.history| ==> s.history[k].guess in s.wordBank) &&
    (s.answer.None? ==> s.history == []) &&
    (s.answer.Some? ==>
      s.answer.value in s.validWords &&
      Agrees(table, s.history, s.wordBank, s.validWords, s.answer.value))
  }

  /** Once a game has started, the solver has folded in every entry but the last. */
  ghost predicate InSync(
    table: array2<nat>, s: GameState, candidates: Option<seq<string>>, processed: nat)
    reads table
    requires Setup(table, s) && Recorded(table, s)
  {
    s.answer.Some? ==>
      (s.history == [] ==> candidates == None && processed == 0) &&
      (s.history != [] ==>
        processed == |s.history| - 1 &&
        candidates == Some(Winnow(s.validWords, table, s.history[..|s.history| - 1],
                                  s.wordBank, s.validWords)))
  }

  /** The engine's invariant over a state and the solver's fields. */
  ghost predicate Inv(
    table: array2<nat>, s: GameState, candidates: Option<seq<string>>, processed: nat)
    reads table
  {
    Setup(table, s) && Recorded(table, s) && InSync(table, s, candidates, processed)
  }

  /** The candidates of a solver that has caught up with the whole history. */
  ghost function Folded(table: array2<nat>, s: GameState): seq<string>
    reads table
    requires Setup(table, s) && Recorded(table, s)
  {
    Winnow(s.validWords, table, s.history, s.wordBank, s.validWords)
  }

  /**
   * A configured game may hand its state to the solver: the table fits the vocabularies, a
   * solver that is behind can read the latest entry, and its candidates are valid words.
   */
  lemma SolverCallable(
    table: array2<nat>, s: GameState, candidates: Option<seq<string>>, processed: nat)
    requires Inv(table, s, candidates, processed) && s.answer.Some?
    ensures table.Length0 == |s.wordBank| && table.Length1 == |s.validWords|
    ensures |s.history| != processed ==>
      s.history != [] && s.history[|s.history| - 1].guess in s.wordBank
    ensures candidates.Some? ==> forall w :: w in candidates.value ==> w in s.validWords
  {
    if candidates.Some? && s.history != [] {
      var h := s.history;
      forall w | w in candidates.value
        ensures w in s.validWords
      {
        WinnowMembers(s.validWords, table, h[..|h| - 1], s.wordBank, s.validWords, w);
      }
    }
  }

  /**
   * Before a turn of a game in progress, the solver may be asked for a guess; after catching
   * up, its candidates are the fold of the whole history, which still holds the answer, and
   * it has processed exactly the turns played.
   */
  lemma Ready(table: array2<nat>, s: GameState, candidates: Option<seq<string>>, processed: nat)
    requires Inv(table, s, candidates, processed) && s.answer.Some?
    ensures table.Length0 == |s.wordBank| && table.Length1 == |s.validWords|
    ensures |s.history| != processed ==>
      s.history != [] && s.history[|s.history| - 1].guess in s.wordBank
    ensures candidates.Some? ==> forall w :: w in candidates.value ==> w in s.validWords
    ensures Refreshed(candidates, processed, s, table) == Folded(table, s)
    ensures s.answer.value in Folded(table, s)
    ensures (if |s.history| == processed then processed else processed + 1) == |s.history|
  {
    SolverCallable(table, s, candidates, processed);
    var h := s.history;
    if h != [] {
      CatchUp(s, table);
    }
    AnswerSurvives(s.validWords, table, h, s.wordBank, s.validWords, s.answer.value);
  }

  /** The entry a turn records: the guess and its table code against the answer. */
  function TurnEntry(table: array2<nat>, s: GameState, guess: string): Entry
    reads table
    requires table.Length0 == |s.wordBank| && table.Length1 == |s.validWords|
    requires s.answer.Some? && s.answer.value in s.validWords && guess in s.wordBank
  {
    Entry(guess, table[IndexOf(s.wordBank, guess), IndexOf(s.validWords, s.answer.value)])
  }

  /**
   * Recording a guess with its table code against the answer keeps every recorded code
   * consistent with the answer.
   */
  lemma AgreesExtend(
    table: array2<nat>, h: seq<Entry>, e: Entry, wordBank: seq<string>, validWords: seq<string>,
    answer: string)
    requires table.Length0 == |wordBank| && table.Length1 == |validWords|
    requires forall k :: 0 <= k < |h| ==> h[k].guess in wordBank
    requires e.guess in wordBank && answer in validWords
    requires Agrees(table, h, wordBank, validWords, answer)
    requires e.feedback == table[IndexOf(wordBank, e.guess), IndexOf(validWords, answer)]
    ensures forall k :: 0 <= k < |h + [e]| ==> (h + [e])[k].guess in wordBank
    ensures Agrees(table, h + [e], wordBank, validWords, answer)
  {
    var h' := h + [e];
    assert forall k :: 0 <= k < |h| ==> h'[k] == h[k];
  }

  /**
   * Recording a candidate of the full fold keeps the history well formed, and that
   * candidate agrees with every code recorded before it.
   */
  lemma AdvanceRecorded(table: array2<nat>, s: GameState, guess: string)
    requires Setup(table, s) && Recorded(table, s) && s.answer.Some? && !s.Terminal()
    requires guess in Folded(table, s)
    ensures guess in s.validWords && guess in s.wordBank
    ensures Setup(table, s.Append(TurnEntry(table, s, guess)))
    ensures Recorded(table, s.Append(TurnEntry(table, s, guess)))
    ensures Agrees(table, s.history, s.wordBank, s.validWords, guess)
  {
    var h, vw, wb, answer := s.history, s.validWords, s.wordBank, s.answer.value;
    WinnowMembers(vw, table, h, wb, vw, guess);
    AgreesExtend(table, h, TurnEntry(table, s, guess), wb, vw, answer);
    ContinuingHasTurnLeft(s);
  }

  /**
   * One turn keeps the invariant: whichever candidate of the full fold the solver guesses,
   * recording it with its table code leaves a caught-up solver that has folded every entry
   * but the new last one. The recorded code is the codec's.
   */
  lemma Advance(table: array2<nat>, s: GameState)
    requires Setup(table, s) && Recorded(table, s) && s.answer.Some? && !s.Terminal()
    ensures forall guess :: guess in Folded(table, s) ==>
      guess in s.validWords && guess in s.wordBank &&
      Inv(table, s.Append(TurnEntry(table, s, guess)), Some(Folded(table, s)), |s.history|) &&
      Agrees(table, s.history, s.wordBank, s.validWords, guess) &&
      TurnEntry(table, s, guess).feedback == Code(guess, s.answer.value)
  {
    forall guess | guess in Folded(table, s)
      ensures guess in s.validWords && guess in s.wordBank
      ensures Inv(table, s.Append(TurnEntry(table, s, guess)), Some(Folded(table, s)), |s.history|)
      ensures Agrees(table, s.history, s.wordBank, s.validWords, guess)
      ensures TurnEntry(table, s, guess).feedback == Code(guess, s.answer.value)
    {
      AdvanceRecorded(table, s, guess);
      var h' := s.Append(TurnEntry(table, s, guess)).history;
      assert h'[..|h'| - 1] == s.history;
    }
  }

  /**
   * After at least one turn, the game is won exactly when the last guess is the hidden
   * answer: its code is the table's, the table's is the codec's, and the codec gives the
   * win code only to the answer itself.
   */
  lemma WonIffGuessedAnswer(table: array2<nat>, s: GameState)
    requires Setup(table, s) && Recorded(table, s) && s.answer.Some? && s.history != []
    ensures s.Won() <==> s.history[|s.history| - 1].guess == s.answer.value
  {
    var last := s.history[|s.history| - 1];
    assert last.guess in s.wordBank;
    assert table[IndexOf(s.wordBank, last.guess), IndexOf(s.validWords, s.answer.value)] == last.feedback;
    WinIff(last.guess, s.answer.value);
  }
}
