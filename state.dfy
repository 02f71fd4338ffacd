/**
 * The game state of `state.py`: a record of one game's progress, with the turn count,
 * the remaining turns and the terminal / won predicates derived from its history.
 */
module State {
  import opened Wrappers

  /** `WIN_FEEDBACK`: the code whose five digits are all "correct". */
  const WinFeedback: nat := 242

  /** One history entry: a guess and the code it received. */
  datatype Entry = Entry(guess: string, feedback: nat)

  datatype GameState = GameState(
    history: seq<Entry>,
    answer: Option<string>,
    wordBank: seq<string>,
    validWords: seq<string>,
    maxTurns: int)
  {
    /** Number of guesses already made: zero exactly before the first guess. */
    function Turn(): (t: nat)
      ensures t == 0 <==> history == []
    {
      |history|
    }

    /** Guesses left: together with the guesses made, they add up to the turn limit. */
    function RemainingTurns(): (r: int)
      ensures r + Turn() == maxTurns
      ensures r <= maxTurns
    {
      maxTurns - Turn()
    }

    /** Solved, or out of turns; never on an empty history. */
    predicate Terminal()
      ensures Terminal() ==> history != []
      ensures history != [] && history[|history| - 1].feedback == WinFeedback ==> Terminal()
      ensures history != [] && Turn() >= maxTurns ==> Terminal()
    {
      if history == [] then false
      else
        var last := history[|history| - 1];
        last.feedback == WinFeedback || Turn() >= maxTurns
    }

    /** The last guess received the win code; a won game is over. */
    predicate Won()
      ensures Won() ==> history != [] && Terminal()
      ensures history != [] && history[|history| - 1].feedback == WinFeedback ==> Won()
    {
      if history == [] then false
      else history[|history| - 1].feedback == WinFeedback
    }

    /** The state with one more entry at the end of its history. */
    function Append(entry: Entry): GameState {
      this.(history := history + [entry])
    }
  }

  /** A fresh game is neither terminal nor won. */
  lemma EmptyHistory(s: GameState)
    requires s.history == []
    ensures s.Turn() == 0 && s.RemainingTurns() == s.maxTurns
    ensures !s.Terminal() && !s.Won()
  {
  }

  /** A won game is over. */
  lemma WonIsTerminal(s: GameState)
    ensures s.Won() ==> s.Terminal()
  {
  }

  /** While the game goes on with a positive turn limit, there is a turn to play. */
  lemma ContinuingHasTurnLeft(s: GameState)
    requires s.maxTurns > 0 && !s.Terminal()
    ensures s.Turn() < s.maxTurns && s.RemainingTurns() >= 1
  {
  }

  /**
   * Appending an entry advances the turn by one, keeps the earlier history as a prefix, and
   * the new state is won exactly for the win code and terminal exactly when won or out of turns.
   */
  lemma AppendEntry(s: GameState, entry: Entry)
    ensures s.Append(entry).Turn() == s.Turn() + 1
    ensures s.Append(entry).RemainingTurns() == s.RemainingTurns() - 1
    ensures s.Append(entry).history[..s.Turn()] == s.history
    ensures s.Append(entry).Won() <==> entry.feedback == WinFeedback
    ensures s.Append(entry).Terminal() <==> entry.feedback == WinFeedback || s.Turn() + 1 >= s.maxTurns
  {
    assert s.Append(entry).history[..s.Turn()] == s.history;
  }
}
