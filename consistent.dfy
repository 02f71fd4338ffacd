/**
 * The consistency-filter solver of `random_consistent.py`: it keeps the answers still
 * consistent with the feedback seen so far and guesses one of them.
 */
module Consistent {
  import opened Wrappers
  import opened Words
  import opened State

  /** `s` is `t` with some elements left out, the rest in their original order. */
  predicate IsSubsequence(s: seq<string>, t: seq<string>)
    decreases |t|
  {
    if t == [] then s == []
    else (s != [] && s[0] == t[0] && IsSubsequence(s[1..], t[1..])) || IsSubsequence(s, t[1..])
  }

  /**
   * The filter of `_update_candidates`: keeps, in order, exactly the candidates that
   * would have produced `feedback` for the guess in row `guessIndex` of the table.
   */
  function KeepConsistent(
    candidates: seq<string>, table: array2<nat>, guessIndex: nat, feedback: nat,
    validWords: seq<string>): (kept: seq<string>)
    reads table
    requires guessIndex < table.Length0 && |validWords| <= table.Length1
    requires forall w :: w in candidates ==> w in validWords
    ensures IsSubsequence(kept, candidates)
    ensures forall w :: w in kept <==>
      w in candidates && table[guessIndex, IndexOf(validWords, w)] == feedback
    decreases |candidates|
  {
    if candidates == [] then []
    else
      var rest := KeepConsistent(candidates[1..], table, guessIndex, feedback, validWords);
      if table[guessIndex, IndexOf(validWords, candidates[0])] == feedback
      then [candidates[0]] + rest
      else rest
  }

  /** Word `w` would have received every recorded code of `history`, read from the table. */
  predicate Agrees(
    table: array2<nat>, history: seq<Entry>, wordBank: seq<string>, validWords: seq<string>,
    w: string)
    reads table
    requires table.Length0 == |wordBank| && table.Length1 == |validWords|
    requires forall k :: 0 <= k < |history| ==> history[k].guess in wordBank
    requires w in validWords
  {
    forall k :: 0 <= k < |history| ==>
      table[IndexOf(wordBank, history[k].guess), IndexOf(validWords, w)] == history[k].feedback
  }

  /** The candidates after folding in the entries of `history` one at a time, oldest first. */
  function Winnow(
    start: seq<string>, table: array2<nat>, history: seq<Entry>, wordBank: seq<string>,
    validWords: seq<string>): (r: seq<string>)
    reads table
    requires table.Length0 == |wordBank| && table.Length1 == |validWords|
    requires forall k :: 0 <= k < |history| ==> history[k].guess in wordBank
    requires forall w :: w in start ==> w in validWords
    ensures IsSubsequence(r, start) && forall w :: w in r ==> w in start
    decreases |history|
  {
    if history == [] then SubsequenceReflexive(start); start
    else
      var last := history[|history| - 1];
      var prior := Winnow(start, table, history[..|history| - 1], wordBank, validWords);
      var kept := KeepConsistent(prior, table, IndexOf(wordBank, last.guess), last.feedback, validWords);
      SubsequenceTransitive(kept, prior, start);
      SubsequenceMembers(kept, start);
      KeepConsistent(prior, table, IndexOf(wordBank, last.guess), last.feedback, validWords)
  }

  lemma {:induction false} SubsequenceReflexive(s: seq<string>)
    ensures IsSubsequence(s, s)
    decreases |s|
  {
    if s != [] {
      SubsequenceReflexive(s[1..]);
    }
  }

  lemma {:induction false} SubsequenceTransitive(s: seq<string>, t: seq<string>, u: seq<string>)
    requires IsSubsequence(s, t) && IsSubsequence(t, u)
    ensures IsSubsequence(s, u)
    decreases |u|
  {
    if u == [] {
    } else if t != [] && t[0] == u[0] && IsSubsequence(t[1..], u[1..]) {
      if s != [] && s[0] == t[0] && IsSubsequence(s[1..], t[1..]) {
        SubsequenceTransitive(s[1..], t[1..], u[1..]);
      } else {
        SubsequenceTransitive(s, t[1..], u[1..]);
      }
    } else {
      SubsequenceTransitive(s, t, u[1..]);
    }
  }

  lemma {:induction false} SubsequenceMembers(s: seq<string>, t: seq<string>)
    requires IsSubsequence(s, t)
    ensures forall w :: w in s ==> w in t
    decreases |t|
  {
    if t != [] {
      if s != [] && s[0] == t[0] && IsSubsequence(s[1..], t[1..]) {
        SubsequenceMembers(s[1..], t[1..]);
        forall w | w in s
          ensures w in t
        {
          if w != s[0] {
            assert w in s[1..];
            assert w in t[1..];
          }
        }
      } else {
        SubsequenceMembers(s, t[1..]);
      }
    }
  }

  /**
   * The candidates after the fold are exactly the words of `start` that agree with every
   * entry of the history.
   */
  lemma {:induction false} WinnowMembers(
    start: seq<string>, table: array2<nat>, history: seq<Entry>, wordBank: seq<string>,
    validWords: seq<string>, w: string)
    requires table.Length0 == |wordBank| && table.Length1 == |validWords|
    requires forall k :: 0 <= k < |history| ==> history[k].guess in wordBank
    requires forall w :: w in start ==> w in validWords
    ensures w in Winnow(start, table, history, wordBank, validWords) <==>
      w in start && Agrees(table, history, wordBank, validWords, w)
    decreases |history|
  {
    if history != [] {
      var n := |history| - 1;
      WinnowMembers(start, table, history[..n], wordBank, validWords, w);
      if w in start {
        assert Agrees(table, history, wordBank, validWords, w) <==>
          Agrees(table, history[..n], wordBank, validWords, w) &&
          table[IndexOf(wordBank, history[n].guess), IndexOf(validWords, w)] == history[n].feedback;
      }
    }
  }

  /** A candidate that produced the observed code for the guess survives the filter. */
  lemma AnswerKept(
    candidates: seq<string>, table: array2<nat>, guessIndex: nat, validWords: seq<string>,
    answer: string)
    requires guessIndex < table.Length0 && |validWords| <= table.Length1
    requires forall w :: w in candidates ==> w in validWords
    requires answer in candidates
    ensures answer in KeepConsistent(
      candidates, table, guessIndex, table[guessIndex, IndexOf(validWords, answer)], validWords)
  {
  }

  /**
   * Across a whole game whose codes all come from the table row of the true answer, the
   * true answer is never pruned.
   */
  lemma {:induction false} AnswerSurvives(
    start: seq<string>, table: array2<nat>, history: seq<Entry>, wordBank: seq<string>,
    validWords: seq<string>, answer: string)
    requires table.Length0 == |wordBank| && table.Length1 == |validWords|
    requires forall k :: 0 <= k < |history| ==> history[k].guess in wordBank
    requires forall w :: w in start ==> w in validWords
    requires answer in start
    requires Agrees(table, history, wordBank, validWords, answer)
    ensures answer in Winnow(start, table, history, wordBank, validWords)
  {
    WinnowMembers(start, table, history, wordBank, validWords, answer);
  }

  /** The candidate list the solver guesses from once it has caught up with `state`. */
  function Refreshed(
    candidates: Option<seq<string>>, processedTurns: nat, state: GameState, table: array2<nat>)
    : seq<string>
    reads table
    requires table.Length0 == |state.wordBank| && table.Length1 == |state.validWords|
    requires |state.history| != processedTurns ==>
      state.history != [] && state.history[|state.history| - 1].guess in state.wordBank
    requires candidates.Some? ==> forall w :: w in candidates.value ==> w in state.validWords
  {
    var current := candidates.GetOr(state.validWords);
    if |state.history| == processedTurns then current
    else
      var last := state.history[|state.history| - 1];
      KeepConsistent(current, table, IndexOf(state.wordBank, last.guess), last.feedback, state.validWords)
  }

  /**
   * A solver that has folded every entry but the last catches up to the whole history in
   * one call: the fold of one more entry is the filter by that entry.
   */
  lemma CatchUp(state: GameState, table: array2<nat>)
    requires table.Length0 == |state.wordBank| && table.Length1 == |state.validWords|
    requires forall k :: 0 <= k < |state.history| ==> state.history[k].guess in state.wordBank
    requires state.history != []
    ensures Refreshed(
        Some(Winnow(state.validWords, table, state.history[..|state.history| - 1], state.wordBank, state.validWords)),
        |state.history| - 1, state, table)
      == Winnow(state.validWords, table, state.history, state.wordBank, state.validWords)
  {
  }

  class RandomConsistentSolver {
    /** `None` until first use after a reset. */
    var candidates: Option<seq<string>>
    /** How many history entries have been folded into `candidates`. */
    var processedTurns: nat

    constructor()
      ensures candidates == None && processedTurns == 0
    {
      candidates := None;
      processedTurns := 0;
    }

    /**
     * Folds the latest history entry into the candidates when the history is longer than
     * what has been processed: only `history[-1]`, and the counter grows by exactly one.
     */
    method UpdateCandidates(state: GameState, table: array2<nat>)
      requires table.Length0 == |state.wordBank| && table.Length1 == |state.validWords|
      requires |state.history| != processedTurns ==>
        state.history != [] && state.history[|state.history| - 1].guess in state.wordBank
      requires candidates.Some? ==> forall w :: w in candidates.value ==> w in state.validWords
      modifies this
      ensures |state.history| == old(processedTurns) ==>
        candidates == old(candidates) && processedTurns == old(processedTurns)
      ensures |state.history| != old(processedTurns) ==>
        processedTurns == old(processedTurns) + 1 &&
        candidates == Some(Refreshed(old(candidates), old(processedTurns), state, table))
    {
      if |state.history| == processedTurns {
        return;
      }
      if candidates.None? {
        candidates := Some(state.validWords);
      }
      var last := state.history[|state.history| - 1];
      var guessIndex := IndexOf(state.wordBank, last.guess);
      candidates := Some(KeepConsistent(candidates.value, table, guessIndex, last.feedback, state.validWords));
      processedTurns := processedTurns + 1;
    }

    /**
     * Catches up with the history, starts from a copy of `valid_words` on first use, and
     * picks some remaining candidate; with none left it reports `EmptyCandidateSet`.
     */
    method Guess(state: GameState, table: array2<nat>) returns (r: Result<string>)
      requires table.Length0 == |state.wordBank| && table.Length1 == |state.validWords|
      requires |state.history| != processedTurns ==>
        state.history != [] && state.history[|state.history| - 1].guess in state.wordBank
      requires candidates.Some? ==> forall w :: w in candidates.value ==> w in state.validWords
      modifies this
      ensures processedTurns ==
        if |state.history| == old(processedTurns) then old(processedTurns) else old(processedTurns) + 1
      ensures candidates == Some(Refreshed(old(candidates), old(processedTurns), state, table))
      ensures r.Ok? <==> candidates.value != []
      ensures r.Ok? ==> r.value in candidates.value
      ensures r.Err? ==> r.error == EmptyCandidateSet
    {
      UpdateCandidates(state, table);
      if candidates.None? {
        candidates := Some(state.validWords);
      }
      if candidates.value == [] {
        return Err(EmptyCandidateSet);
      }
      assert candidates.value[0] in candidates.value;
      var w :| w in candidates.value;
      return Ok(w);
    }

    /** Forgets the candidates and the processed-turn counter for a new game. */
    method Reset()
      modifies this
      ensures candidates == None && processedTurns == 0
    {
      candidates := None;
      processedTurns := 0;
    }
  }
}
