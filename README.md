# Wordle feedback engine and game loop

A Dafny model of the core of a Wordle solver simulator:

- **Feedback codec and tables.** A guess is scored against the hidden answer position by position: 2 = correct, 1 = present elsewhere, 0 = absent. The five digits are packed as a base-3 code in 0..242, with position 0 the least significant digit. Scoring takes two passes over a 26-entry letter histogram of the answer. Correct positions use up their letter first. Present-elsewhere marks then take only the copies that are left, so repeated letters are never over-credited. Two tables are built from the codec: a guess-by-answer table of codes and a 243-entry table of display patterns over `A`/`P`/`C`.
- **Game state.** A history of (guess, code) entries, a hidden answer, the two vocabularies and a turn limit. The turn count, the remaining turns, `terminal` and `won` are derived from the history. 242 is the win code.
- **Game engine.** A state machine. `reset` clears the history, takes a hidden answer from the chooser and resets the solver. `play_turn` refuses a terminal game and a game with no answer. Otherwise it appends exactly one entry: the solver's guess and its table code against the answer. `run` plays turns until the game is terminal.
- **Consistency-filter solver.** Keeps the list of answers still consistent with the feedback seen so far and guesses one of them. Each call folds in the latest history entry, keeping exactly the words `c` with `table[guess][c] == code`.

Modules: `Wrappers` (Option, Result, error kinds), `Words` (vocabulary and word-to-index map), `Feedback` (`feedback.py`), `State` (`state.py`), `Chooser` (the answer oracle), `Consistent` (`random_consistent.py`), `Turns` (the invariant the engine keeps between turns, and the lemmas about one turn), `Engine` (`engine.py`).

The codec has two definitions. `Feedback.Mark` is a reference rule with no loops: a misplaced letter is present exactly when fewer of its earlier misplaced copies come before it than the answer has copies left after the correct matches. `Feedback.EncodeFeedback` is the two-pass loop over the histogram arrays, and it is proved to compute `Pack` of those marks. The properties of the code are proved about the reference rule.

Word lists and tables are wired as the builder's signature `build_feedback_encode_table(word_bank, valid_words)` (`feedback.py:94-96`) and the chooser interface `choose(valid_words)` (`game/chooser/base.py:16`) declare, which is not how `engine.py` and `random_consistent.py` call them:
- The encode table is built from `word_bank` × `valid_words` and looked up through word-to-index maps (`Words.IndexOf` on duplicate-free lists). `engine.py:53` calls the builder with no arguments, and `engine.py:80` indexes the array by strings.
- The engine passes its table to the solver explicitly. `random_consistent.py:67-72` reads `word_bank_index`, `valid_word_index` and `feedback_encode_table` from `GameState`, which has no such fields.
- The chooser is given `valid_words`, as the interface in `game/chooser/base.py:16` declares. `engine.py:123` calls it with no argument.

Random choices (the chooser's answer, the solver's guess) are modelled as an arbitrary element of the list, picked with `:|`. The word-list loader is replaced by the precondition `Words.IsVocabulary`: both lists are non-empty, every word is five letters a–z, there are no duplicates, and every valid word is also in the word bank. The turn-limit setting is replaced by the precondition `max_turns > 0`. The encode table is a constructor parameter of the engine, with the precondition that it caches the codec (`Feedback.IsEncodeTable`).

## Model

| member | source | states |
|---|---|---|
| `Feedback.PowersOfThreeArePowers` | src/solver/game/feedback.py:7 | entry i of the place-value table is 3^i |
| `Feedback.CountLetters` | src/solver/game/feedback.py:36-38 | the 26-entry histogram holds, for each letter, its number of occurrences in the answer |
| `Feedback.MarkCorrect` | src/solver/game/feedback.py:43-49 | the first pass marks exactly the correct positions with 2, adds 2·3^i for each, and leaves each letter's count at its occurrences minus its correct matches, never below zero |
| `Feedback.MarkPresent` | src/solver/game/feedback.py:51-60 | the second pass turns the first-pass value into the packed reference marks; a count is decremented only when it is positive |
| `Feedback.EncodeFeedback` | src/solver/game/feedback.py:10-62 | the two-pass scorer returns the base-3 packing of the reference marks, and that value is at most 242 |
| `Feedback.CodeBound` | src/solver/game/feedback.py:33 | every code lies in 0..242 |
| `Feedback.CodeDigits` | src/solver/game/feedback.py:40-62 | base-3 digit i of the code (position 0 least significant) is the mark of position i |
| `Feedback.CorrectPosition` | src/solver/game/feedback.py:44-49 | digit i is 2 exactly when the guess and the answer have the same letter at position i |
| `Feedback.WinIff` | src/solver/game/feedback.py:44-49 | the code is 242 exactly when the guess equals the answer |
| `Feedback.BudgetNonNegative` | src/solver/game/feedback.py:46-47 | after the correct matches, every letter's remaining count is non-negative |
| `Feedback.LetterBudget` | src/solver/game/feedback.py:58-60 | for every letter, the positions of the guess with that letter marked 1 or 2 are at most that letter's count in the answer |
| `Feedback.AbsentLetter` | src/solver/game/feedback.py:56-60 | a guessed letter that does not occur in the answer gets digit 0 |
| `Feedback.SpeedAgainstAbide` | src/solver/game/feedback.py:51-60 | "speed" against "abide" marks only one of the two e's present, giving marks [0,0,1,0,1] and code 90 |
| `Feedback.SassyAgainstSilly` | src/solver/game/feedback.py:43-60 | "sassy" against "silly": the correct s uses up the answer's only s, giving marks [2,0,0,0,2] and code 164 |
| `Feedback.DecodeFeedback` | src/solver/game/feedback.py:65-91 | taking the code mod 3 and dividing by 3, five times, yields the display pattern of the code |
| `Feedback.PatternShape` | src/solver/game/feedback.py:77-91 | the pattern has exactly five letters over A, P, C, and letter i is C, P or A exactly when digit i is 2, 1 or 0 |
| `Feedback.DecodeRoundTrip` | src/solver/game/feedback.py:79-89 | re-packing the digits of the pattern gives back every code in 0..242 |
| `Feedback.DecodedCorrect` | src/solver/game/feedback.py:82-83 | the decoded pattern of a guess's code shows C exactly where the guess has the answer's letter |
| `Feedback.BuildFeedbackEncodeTable` | src/solver/game/feedback.py:94-124 | the table has shape len(word_bank) × len(valid_words) and every cell is the codec applied to its guess and answer |
| `Feedback.BuildFeedbackDecodeTable` | src/solver/game/feedback.py:127-154 | the table has 243 entries and entry i is the pattern of code i |
| `Words.IndexOf` | src/solver/strategy/impl/random_consistent.py:67 | the word-to-index map gives a position holding the word, the first such position |
| `Words.IndexOfInverse` | src/solver/strategy/impl/random_consistent.py:72 | on a duplicate-free list the map sends each word back to its own index |
| `State.WinFeedback` | src/solver/game/state.py:5 | the win code is 242, the code whose five base-3 digits are all "correct" (`Feedback.WinIff`) |
| `State.GameState.Turn` | src/solver/game/state.py:27-35 | the number of guesses made, zero exactly when the history is empty |
| `State.GameState.RemainingTurns` | src/solver/game/state.py:37-45 | the remaining turns and the turns made add up to max_turns, so the remaining turns never exceed max_turns |
| `State.GameState.Terminal` | src/solver/game/state.py:47-65 | never true on an empty history; true whenever the last code is 242 or the turn count has reached max_turns (`State.AppendEntry` states both directions for the entry just appended) |
| `State.GameState.Won` | src/solver/game/state.py:67-79 | true whenever the last code is 242; a won game has a non-empty history and is terminal |
| `State.EmptyHistory` | src/solver/game/state.py:27-79 | on an empty history the turn is 0, the remaining turns are max_turns, and the game is neither terminal nor won |
| `State.WonIsTerminal` | src/solver/game/state.py:47-79 | a won game is terminal |
| `State.ContinuingHasTurnLeft` | src/solver/game/state.py:47-65 | with a positive limit, a game that is not terminal has made fewer than max_turns guesses |
| `State.AppendEntry` | src/solver/game/state.py:27-79 | appending one entry adds 1 to the turn and removes 1 from the remaining turns, keeps the old history as a prefix, makes the game won exactly for code 242, and terminal exactly when won or the turn reaches max_turns |
| `Chooser.Choose` | src/solver/oracle/impl/random_uniform.py:26-39 | an empty list fails with EmptyVocabulary; otherwise the result is some element of the list |
| `Consistent.KeepConsistent` | src/solver/strategy/impl/random_consistent.py:69-74 | the filtered list is an ordered subsequence of the candidates, and a word is in it exactly when it is a candidate whose table entry for the guess equals the observed code |
| `Consistent.Winnow` | src/solver/strategy/impl/random_consistent.py:47-76 | folding the history in one entry at a time gives an ordered subsequence of the starting list |
| `Consistent.WinnowMembers` | src/solver/strategy/impl/random_consistent.py:47-76 | after the fold, a word remains exactly when it was in the starting list and its table entries match every recorded code |
| `Consistent.AnswerKept` | src/solver/strategy/impl/random_consistent.py:69-74 | a candidate whose own table entry produced the observed code survives the filter |
| `Consistent.AnswerSurvives` | src/solver/strategy/impl/random_consistent.py:69-74 | over a whole game whose codes come from the true answer's table entries, the true answer is never pruned |
| `Consistent.CatchUp` | src/solver/strategy/impl/random_consistent.py:58-76 | a solver that has folded all entries but the last reaches the fold of the whole history in one update |
| `Consistent.RandomConsistentSolver.constructor` | src/solver/strategy/impl/random_consistent.py:17-28 | a new solver has no candidate list and has processed no turns |
| `Consistent.RandomConsistentSolver.UpdateCandidates` | src/solver/strategy/impl/random_consistent.py:47-76 | nothing changes when the history length equals the processed count; otherwise only the last entry is folded into the candidates (a copy of valid_words on first use) and the counter grows by exactly 1 |
| `Consistent.RandomConsistentSolver.Guess` | src/solver/strategy/impl/random_consistent.py:30-45 | after catching up, the guess is an element of the candidate list; an empty list fails with EmptyCandidateSet |
| `Consistent.RandomConsistentSolver.Reset` | src/solver/strategy/impl/random_consistent.py:78-83 | the candidate list is cleared and the processed counter set to 0 |
| `Engine.GameEngine.constructor` | src/solver/game/engine.py:32-62 | a new engine has an empty history, no answer, the given vocabularies, limit and table |
| `Engine.GameEngine.Reset` | src/solver/game/engine.py:114-128 | the history is emptied, the answer is set to a word of valid_words, the solver is reset, and nothing else changes |
| `Engine.GameEngine.PlayTurn` | src/solver/game/engine.py:64-89 | a terminal game fails with GameAlreadyTerminal and an unset answer with NoAnswerSet, both with no change. Otherwise exactly one entry is appended (the old history stays a prefix) and returned: a valid word that agrees with all earlier codes, and its table code against the unchanged answer, which equals the codec's code |
| `Engine.GameEngine.TakeTurn` | src/solver/game/engine.py:78-89 | the successful path of a turn appends exactly the solver's guess and its table code against the answer, keeps the engine invariant, and the code equals the codec's |
| `Turns.SolverCallable` | src/solver/strategy/impl/random_consistent.py:65-72 | in a configured game, the table fits the vocabularies, a solver that is behind can read the latest entry and look its guess up, and every candidate is a valid word, so the lookups never fail |
| `Turns.Ready` | src/solver/game/engine.py:78 | before a turn of a game in progress the solver's preconditions hold; after catching up, its candidates are the fold of the whole history, they hold the answer, and it has processed exactly the turns played |
| `Turns.AgreesExtend` | src/solver/game/engine.py:80-82 | appending the table code of a guess against the answer keeps every recorded code consistent with the answer |
| `Turns.AdvanceRecorded` | src/solver/game/engine.py:78-82 | recording a candidate of the fold keeps the history well formed and within the limit, and the guess agrees with every earlier code |
| `Turns.Advance` | src/solver/game/engine.py:78-82 | whichever candidate is guessed, recording it keeps the engine invariant with the solver one turn behind, and the recorded code is the codec's |
| `Turns.WonIffGuessedAnswer` | src/solver/game/engine.py:104-110 | after at least one turn, the game is won exactly when the last guess is the answer |
| `Engine.GameEngine.Run` | src/solver/game/engine.py:91-112 | with max_turns > 0 the loop ends in a terminal state after between 1 and max_turns turns; the game is won exactly when the last guess equals the answer; vocabularies and limit are unchanged |
| `Engine.FirstGuessWins` | src/solver/game/state.py:47-79 | over apple/grape/mango with 3 turns and answer apple, the history a game guessing apple would record is [("apple", 242)], and that state is terminal and won |
| `Engine.WrongGuessLosesAtLimit` | src/solver/game/state.py:47-79 | with answer apple, the histories a game guessing mango would record are not terminal after one or two turns, and terminal and lost after three |

## Left out

- Statistics (aggregation, benchmark, export, plots), the table cache, and settings and logging setup are not part of this model. They are floating point, file I/O, hashing and configuration. The process entry point is left out for the same reason.
- Word-list loading is replaced by the `Words.IsVocabulary` precondition, and the table cache by the engine's table parameter.
- The engine's decode table is used only in a log message, so the engine does not hold one. Its construction is modelled in `Feedback.BuildFeedbackDecodeTable`.
- The numpy `uint8` cell type is not modelled. Cells are naturals, and every cell is proved to be at most 242, so it fits.
- The uniform-random solver and chooser are not modelled as separate strategies. The engine accepts any subclass of the abstract `Solver` class (`strategy/base.py:6-32`, with abstract `guess` and `reset`); modelling those variants would need a trait, so the engine here is built around the consistency-filter solver. The chooser's pick is the `Chooser.Choose` oracle.
- The `hasattr(solver, "reset")` probe is dropped. The solver always has `Reset`.
- `Engine.GameEngine.Run`: in the source `GameState` is one shared mutable object. The engine hands that same object to `solver.guess` (`engine.py:78`), `run` returns it (`engine.py:112`), and the next `reset` clears its history in place (`engine.py:122`), so a caller's reference to a finished game changes under it. Here `GameState` is an immutable value and `Run` returns a snapshot, so that aliasing is not captured.
- `Consistent.RandomConsistentSolver.UpdateCandidates`: the precondition excludes three inputs on which the source raises, and those raising paths are not modelled. An empty history while `processedTurns` is non-zero raises `IndexError` at `history[-1]` (`random_consistent.py:65`). A latest guess outside the word bank raises `KeyError` at `random_consistent.py:67`. A candidate outside the valid words raises `KeyError` at `valid_word_index[word]` (`random_consistent.py:72`). The engine never reaches any of them: its `reset` always resets the solver, every guess comes from the valid words, and the valid words never change.
- `Consistent.RandomConsistentSolver.Guess`: carries the same precondition as `UpdateCandidates`, which it calls first, for the same reason.
- `UnknownWord` is not an error path. Under the engine's invariant, every word that is looked up is in its index map, which is proved rather than checked at run time.
- The engine always consults the solver once per turn. So folding only the latest history entry, as the source does, equals folding every entry; this is proved in the engine's invariant. A solver consulted less often would miss entries, and the model keeps that behaviour in `UpdateCandidates`.
- The random choices are an arbitrary element, not a uniform distribution. Seeding and reproducibility are not modelled.
