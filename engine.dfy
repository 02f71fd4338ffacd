/**
 * The game engine of `engine.py`: a state machine that picks a hidden answer, asks the
 * consistency-filter solver for guesses, reads each guess's code from the feedback table and
 * appends it to the history until the game is over.
 */
module Engine {
  import opened Wrappers
  import opened Words
  import opened Feedback
  import opened State
  import opened Chooser
  import opened Consistent
  import opened Turns

  class GameEngine {
    /** The guess-by-answer feedback table, built once from the two vocabularies. */
    const table: array2<nat>
    /** The solving strategy consulted once per turn. */
    const solver: RandomConsistentSolver
    var state: GameState

    ghost predicate Valid()
      reads this, solver, table
    {
      Inv(table, state, solver.candidates, solver.processedTurns)
    }

    /** A new engine with an empty history and no hidden answer yet. */
    constructor(
      table: array2<nat>, solver: RandomConsistentSolver,
      wordBank: seq<string>, validWords: seq<string>, maxTurns: int)
      requires IsVocabulary(wordBank, validWords)
      requires IsEncodeTable(table, wordBank, validWords)
      requires maxTurns > 0
      ensures Valid()
      ensures this.table == table && this.solver == solver
      ensures state == GameState([], None, wordBank, validWords, maxTurns)
    {
      this.table := table;
      this.solver := solver;
      state := GameState([], None, wordBank, validWords, maxTurns);
    }

    /**
     * Starts a new game: clears the history, takes a hidden answer from the chooser over the
     * valid words, and resets the solver.
     */
    method Reset()
      requires Valid()
      modifies this, solver
      ensures Valid()
      ensures state.history == [] && state.answer.Some? && state.answer.value in state.validWords
      ensures state == old(state).(history := [], answer := state.answer)
      ensures solver.candidates == None && solver.processedTurns == 0
    {
      var chosen := Choose(state.validWords);
      state := state.(history := [], answer := Some(chosen.value));
      solver.Reset();
    }

    /**
     * One turn. A terminal game fails with `GameAlreadyTerminal` and a game without an answer
     * with `NoAnswerSet`, both leaving everything unchanged. Otherwise the solver's guess and
     * its table entry against the answer are appended to the history and returned; the guess
     * agrees with every code recorded before it, and its code is the codec's.
     */
    method PlayTurn() returns (r: Result<Entry>)
      requires Valid()
      modifies this, solver
      ensures Valid()
      ensures old(state.Terminal()) ==> r == Err(GameAlreadyTerminal) && state == old(state)
      ensures !old(state.Terminal()) && old(state.answer).None? ==>
        r == Err(NoAnswerSet) && state == old(state)
      ensures r.Err? ==> unchanged(solver)
      ensures !old(state.Terminal()) && old(state.answer).Some? ==>
        r.Ok? && state == old(state).Append(r.value) &&
        r.value.guess in state.validWords &&
        r.value.feedback == table[IndexOf(state.wordBank, r.value.guess), IndexOf(state.validWords, state.answer.value)] &&
        r.value.feedback == Code(r.value.guess, state.answer.value) &&
        Agrees(table, old(state.history), state.wordBank, state.validWords, r.value.guess)
    {
      if state.Terminal() {
        return Err(GameAlreadyTerminal);
      }
      if state.answer.None? {
        return Err(NoAnswerSet);
      }
      var entry := TakeTurn();
      return Ok(entry);
    }

    /** The successful path of a turn: ask the solver, look the code up, append the entry. */
    method TakeTurn() returns (entry: Entry)
      requires Valid() && state.answer.Some? && !state.Terminal()
      modifies this, solver
      ensures Valid()
      ensures state == old(state).Append(entry)
      ensures entry.guess in state.validWords
      ensures entry.feedback == table[IndexOf(state.wordBank, entry.guess), IndexOf(state.validWords, state.answer.value)]
      ensures entry.feedback == Code(entry.guess, state.answer.value)
      ensures Agrees(table, old(state.history), state.wordBank, state.validWords, entry.guess)
    {
      Ready(table, state, solver.candidates, solver.processedTurns);
      Advance(table, state);
      var guessed := solver.Guess(state, table);
      var guess := guessed.value;
      entry := TurnEntry(table, state, guess);
      state := state.Append(entry);
    }

    /**
     * `run`: a reset followed by turns until the game is terminal. With a positive turn
     * limit this takes between one and `max_turns` turns, and the game is won exactly when
     * the last guess is the hidden answer.
     */
    method Run() returns (final: GameState)
      requires Valid()
      modifies this, solver
      ensures Valid() && final == state
      ensures final.Terminal()
      ensures 1 <= |final.history| <= final.maxTurns
      ensures final.answer.Some? && final.answer.value in final.validWords
      ensures final.Won() <==> final.history[|final.history| - 1].guess == final.answer.value
      ensures final.wordBank == old(state.wordBank) && final.validWords == old(state.validWords)
      ensures final.maxTurns == old(state.maxTurns)
    {
      Reset();
      while !state.Terminal()
        invariant Valid() && state.answer.Some?
        invariant state.wordBank == old(state.wordBank) && state.validWords == old(state.validWords)
        invariant state.maxTurns == old(state.maxTurns)
        decreases state.maxTurns - |state.history|
      {
        ContinuingHasTurnLeft(state);
        var played := PlayTurn();
      }
      WonIffGuessedAnswer(table, state);
      final := state;
    }
  }

  // ---------------------------------------------------------------------------------
  // End-to-end games over the vocabulary apple, grape, mango with three turns
  // ---------------------------------------------------------------------------------

  const Fruits: seq<string> := ["apple", "grape", "mango"]

  /** Guessing the answer on the first turn ends the game at once, won, with code 242. */
  lemma FirstGuessWins()
    ensures IsWord("apple")
    ensures
      var s := GameState([], Some("apple"), Fruits, Fruits, 3).Append(Entry("apple", Code("apple", "apple")));
      s.history == [Entry("apple", 242)] && s.Terminal() && s.Won()
  {
    WinIff("apple", "apple");
  }

  /** Guessing "mango" against "apple" goes on for two turns and is lost on the third. */
  lemma WrongGuessLosesAtLimit()
    ensures IsWord("mango") && IsWord("apple")
    ensures
      var e := Entry("mango", Code("mango", "apple"));
      var s0 := GameState([], Some("apple"), Fruits, Fruits, 3);
      !s0.Append(e).Terminal() &&
      !s0.Append(e).Append(e).Terminal() &&
      s0.Append(e).Append(e).Append(e).Terminal() && !s0.Append(e).Append(e).Append(e).Won()
  {
    assert "mango"[0] != "apple"[0];
    WinIff("mango", "apple");
  }
}
