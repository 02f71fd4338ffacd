/**
 * The feedback codec of `feedback.py`: a guess is scored against an answer position by
 * position (2 = correct, 1 = present elsewhere, 0 = absent) and the five digits are packed
 * base 3 with position 0 least significant. Also the two lookup tables built from it.
 */
module Feedback {
  import opened Words

  /** Place value of each position (`_POWERS_OF_THREE`). */
  const PowersOfThree: seq<nat> := [1, 3, 9, 27, 81]

  /** Number of distinct codes, 3^5; the codes are 0 .. 242. */
  const CodeCount: nat := 243

  function Pow3(n: nat): nat {
    if n == 0 then 1 else 3 * Pow3(n - 1)
  }

  function Max0(x: int): nat {
    if x < 0 then 0 else x
  }

  function Min(x: int, y: int): int {
    if x < y then x else y
  }

  lemma PowersOfThreeArePowers(i: nat)
    requires i < |PowersOfThree|
    ensures PowersOfThree[i] == Pow3(i)
  {
    if i == 0 {
    } else if i == 1 {
    } else if i == 2 {
    } else if i == 3 {
    } else {
    }
  }

  // ---------------------------------------------------------------------------------
  // Reference definition of the feedback digits
  // ---------------------------------------------------------------------------------

  /** Occurrences of `c` among the first `n` letters of `s`. */
  function CountIn(s: string, c: char, n: nat): nat
    requires n <= |s|
  {
    if n == 0 then 0 else CountIn(s, c, n - 1) + (if s[n - 1] == c then 1 else 0)
  }

  /** Positions before `n` where guess and answer agree on the letter `c`. */
  function GreensIn(guess: string, answer: string, c: char, n: nat): nat
    requires n <= |guess| && n <= |answer|
  {
    if n == 0 then 0
    else
      var here := if guess[n - 1] == answer[n - 1] && guess[n - 1] == c then 1 else 0;
      GreensIn(guess, answer, c, n - 1) + here
  }

  /** Positions before `n` where the guess has `c` but the answer has another letter. */
  function MissesIn(guess: string, answer: string, c: char, n: nat): nat
    requires n <= |guess| && n <= |answer|
  {
    if n == 0 then 0
    else
      var here := if guess[n - 1] != answer[n - 1] && guess[n - 1] == c then 1 else 0;
      MissesIn(guess, answer, c, n - 1) + here
  }

  /** Copies of `c` in the answer left over once the correct positions have used theirs. */
  function Budget(guess: string, answer: string, c: char): int
    requires IsWord(guess) && IsWord(answer)
  {
    CountIn(answer, c, WordLength) - GreensIn(guess, answer, c, WordLength)
  }

  /**
   * The Wordle rule for one position, stated without the two passes: a correct letter
   * scores 2; otherwise the letter scores 1 exactly when fewer of the earlier misplaced
   * copies of it in the guess than its leftover budget in the answer have come before.
   */
  function Mark(guess: string, answer: string, i: nat): nat
    requires IsWord(guess) && IsWord(answer) && i < WordLength
  {
    if guess[i] == answer[i] then 2
    else if MissesIn(guess, answer, guess[i], i) < Budget(guess, answer, guess[i]) then 1
    else 0
  }

  function Marks(guess: string, answer: string): seq<nat>
    requires IsWord(guess) && IsWord(answer)
  {
    seq(WordLength, i requires 0 <= i < WordLength => Mark(guess, answer, i))
  }

  /** The digits after the first pass alone: 2 on correct positions, 0 elsewhere. */
  function FirstPass(guess: string, answer: string): seq<nat>
    requires IsWord(guess) && IsWord(answer)
  {
    seq(WordLength, i requires 0 <= i < WordLength => if guess[i] == answer[i] then 2 else 0)
  }

  /** Base-3 value of a digit sequence, least significant digit first. */
  function Pack(digits: seq<nat>): nat {
    if digits == [] then 0 else digits[0] + 3 * Pack(digits[1..])
  }

  /** The code the source promises for a guess against an answer. */
  function Code(guess: string, answer: string): nat
    requires IsWord(guess) && IsWord(answer)
  {
    Pack(Marks(guess, answer))
  }

  /** The code after `i` integer divisions by 3. */
  function Shift(code: nat, i: nat): nat {
    if i == 0 then code else Shift(code, i - 1) / 3
  }

  /** Base-3 digit `i` of a code. */
  function Digit(code: nat, i: nat): (d: nat)
    ensures d < 3
  {
    Shift(code, i) % 3
  }

  lemma {:induction false} ShiftFront(code: nat, i: nat)
    requires i > 0
    ensures Shift(code, i) == Shift(code / 3, i - 1)
  {
    if i > 1 {
      ShiftFront(code, i - 1);
    }
  }

  // ---------------------------------------------------------------------------------
  // Packing lemmas
  // ---------------------------------------------------------------------------------

  lemma {:induction false} PackBound(digits: seq<nat>)
    requires forall i :: 0 <= i < |digits| ==> digits[i] <= 2
    ensures Pack(digits) < Pow3(|digits|)
  {
    if digits != [] {
      PackBound(digits[1..]);
    }
  }

  lemma {:induction false} DigitOfPack(digits: seq<nat>, i: nat)
    requires forall k :: 0 <= k < |digits| ==> digits[k] <= 2
    requires i < |digits|
    ensures Digit(Pack(digits), i) == digits[i]
  {
    if i > 0 {
      ShiftFront(Pack(digits), i);
      DigitOfPack(digits[1..], i - 1);
    }
  }

  /** Raising one digit by `d` raises the packed value by `d` times its place value. */
  lemma {:induction false} PackUpdate(digits: seq<nat>, i: nat, d: nat)
    requires i < |digits|
    ensures Pack(digits[i := digits[i] + d]) == Pack(digits) + d * Pow3(i)
  {
    var raised := digits[i := digits[i] + d];
    if i == 0 {
      assert raised[1..] == digits[1..];
    } else {
      assert raised[1..] == digits[1..][i - 1 := digits[i] + d];
      PackUpdate(digits[1..], i - 1, d);
      assert 3 * (d * Pow3(i - 1)) == d * Pow3(i);
    }
  }

  /** The first `i` digits of `done` followed by the rest of `pending`. */
  function Splice(done: seq<nat>, pending: seq<nat>, i: nat): (s: seq<nat>)
    requires |done| == |pending| && i <= |done|
    ensures |s| == |done|
    ensures i == 0 ==> s == pending
    ensures i == |done| ==> s == done
  {
    seq(|done|, k requires 0 <= k < |done| => if k < i then done[k] else pending[k])
  }

  /** Taking digit `i` from `done` instead of `pending`, when it is larger by `d`. */
  lemma SpliceAdvance(done: seq<nat>, pending: seq<nat>, i: nat, d: nat)
    requires |done| == |pending| && i < |done| && done[i] == pending[i] + d
    ensures Pack(Splice(done, pending, i + 1)) == Pack(Splice(done, pending, i)) + d * Pow3(i)
    ensures Splice(done, pending, i + 1) == Splice(done, pending, i)[i := done[i]]
    ensures d == 0 ==> Splice(done, pending, i + 1) == Splice(done, pending, i)
  {
    var s := Splice(done, pending, i);
    assert s[i] == pending[i];
    assert Splice(done, pending, i + 1) == s[i := s[i] + d];
    PackUpdate(s, i, d);
  }

  // ---------------------------------------------------------------------------------
  // Properties of the codec
  // ---------------------------------------------------------------------------------

  /** Every code lies in 0 .. 242. */
  lemma CodeBound(guess: string, answer: string)
    requires IsWord(guess) && IsWord(answer)
    ensures Code(guess, answer) <= 242
  {
    PackBound(Marks(guess, answer));
  }

  /** The base-3 digits of the code are exactly the marks of the reference rule. */
  lemma CodeDigits(guess: string, answer: string, i: nat)
    requires IsWord(guess) && IsWord(answer) && i < WordLength
    ensures Digit(Code(guess, answer), i) == Mark(guess, answer, i)
  {
    DigitOfPack(Marks(guess, answer), i);
  }

  /** Digit `i` is 2 exactly when the guess has the answer's letter at position `i`. */
  lemma CorrectPosition(guess: string, answer: string, i: nat)
    requires IsWord(guess) && IsWord(answer) && i < WordLength
    ensures Digit(Code(guess, answer), i) == 2 <==> guess[i] == answer[i]
  {
    CodeDigits(guess, answer, i);
  }

  lemma AllDigitsOfWinCode(i: nat)
    requires i < WordLength
    ensures Digit(242, i) == 2
  {
    assert Shift(242, 0) == 242;
    assert Shift(242, 1) == 80;
    assert Shift(242, 2) == 26;
    assert Shift(242, 3) == 8;
    assert Shift(242, 4) == 2;
  }

  /** 242 (every digit 2) is the code of a guess exactly when the guess is the answer. */
  lemma WinIff(guess: string, answer: string)
    requires IsWord(guess) && IsWord(answer)
    ensures Code(guess, answer) == 242 <==> guess == answer
  {
    if guess == answer {
      var twos: seq<nat> := [2, 2, 2, 2, 2];
      assert Marks(guess, answer) == twos;
      assert twos[1..][1..][1..][1..][1..] == [];
      assert Pack(twos) == 242;
    }
    if Code(guess, answer) == 242 {
      forall i | 0 <= i < WordLength
        ensures guess[i] == answer[i]
      {
        AllDigitsOfWinCode(i);
        CorrectPosition(guess, answer, i);
      }
      assert guess == answer;
    }
  }

  lemma {:induction false} GreensWithinCount(guess: string, answer: string, c: char, n: nat)
    requires n <= |guess| && n <= |answer|
    ensures GreensIn(guess, answer, c, n) <= CountIn(answer, c, n)
  {
    if n > 0 {
      GreensWithinCount(guess, answer, c, n - 1);
    }
  }

  /** The first pass never takes more copies of a letter than the answer holds. */
  lemma BudgetNonNegative(guess: string, answer: string, c: char)
    requires IsWord(guess) && IsWord(answer)
    ensures Budget(guess, answer, c) >= 0
  {
    GreensWithinCount(guess, answer, c, WordLength);
  }

  /** Positions before `n` whose guessed letter is `c` and whose mark is 1 or 2. */
  function CreditedIn(guess: string, answer: string, c: char, n: nat): nat
    requires IsWord(guess) && IsWord(answer) && n <= WordLength
  {
    if n == 0 then 0
    else
      var here := if guess[n - 1] == c && Mark(guess, answer, n - 1) != 0 then 1 else 0;
      CreditedIn(guess, answer, c, n - 1) + here
  }

  lemma {:induction false} CreditedSplit(guess: string, answer: string, c: char, n: nat)
    requires IsWord(guess) && IsWord(answer) && n <= WordLength
    ensures CreditedIn(guess, answer, c, n) ==
      GreensIn(guess, answer, c, n) + Min(MissesIn(guess, answer, c, n), Budget(guess, answer, c))
  {
    BudgetNonNegative(guess, answer, c);
    if n > 0 {
      CreditedSplit(guess, answer, c, n - 1);
    }
  }

  /**
   * Duplicate letters are never over-credited: the positions marked correct or present for
   * a letter are at most the copies of that letter in the answer.
   */
  lemma LetterBudget(guess: string, answer: string, c: char)
    requires IsWord(guess) && IsWord(answer)
    ensures CreditedIn(guess, answer, c, WordLength) <= CountIn(answer, c, WordLength)
  {
    CreditedSplit(guess, answer, c, WordLength);
    GreensWithinCount(guess, answer, c, WordLength);
  }

  lemma {:induction false} CountInZero(s: string, c: char, n: nat, j: nat)
    requires n <= |s| && j < n && CountIn(s, c, n) == 0
    ensures s[j] != c
  {
    if j < n - 1 {
      CountInZero(s, c, n - 1, j);
    }
  }

  /** A guessed letter that does not occur in the answer is always marked absent. */
  lemma AbsentLetter(guess: string, answer: string, i: nat)
    requires IsWord(guess) && IsWord(answer) && i < WordLength
    requires CountIn(answer, guess[i], WordLength) == 0
    ensures Digit(Code(guess, answer), i) == 0
  {
    CountInZero(answer, guess[i], WordLength, i);
    CodeDigits(guess, answer, i);
  }

  // ---------------------------------------------------------------------------------
  // Encoding (`_encode_feedback`)
  // ---------------------------------------------------------------------------------

  /** The letter stored at entry `k` of the count table. */
  function Letter(k: int): (c: char)
    requires 0 <= k < 26
    ensures IsLetter(c) && LetterIndex(c) == k
  {
    (k + 97) as char
  }

  /** The count table after tallying the first `n` letters of the answer. */
  function Tally(answer: string, n: nat): (t: seq<nat>)
    requires n <= |answer|
    ensures |t| == 26
  {
    seq(26, k requires 0 <= k < 26 => CountIn(answer, Letter(k), n))
  }

  /** The count table once the first pass has consumed the correct positions before `i`. */
  function AfterCorrect(guess: string, answer: string, i: nat): (t: seq<nat>)
    requires IsWord(guess) && IsWord(answer) && i <= WordLength
    ensures |t| == 26
  {
    seq(26, k requires 0 <= k < 26 =>
      Max0(CountIn(answer, Letter(k), WordLength) - GreensIn(guess, answer, Letter(k), i)))
  }

  /** The count table once the second pass has handled the positions before `i`. */
  function AfterPresent(guess: string, answer: string, i: nat): (t: seq<nat>)
    requires IsWord(guess) && IsWord(answer) && i <= WordLength
    ensures |t| == 26
  {
    seq(26, k requires 0 <= k < 26 =>
      Max0(Budget(guess, answer, Letter(k)) - MissesIn(guess, answer, Letter(k), i)))
  }

  lemma TallyStep(answer: string, j: nat)
    requires j < |answer| && IsLetter(answer[j])
    ensures 0 <= LetterIndex(answer[j]) < 26
    ensures Tally(answer, j + 1) ==
      Tally(answer, j)[LetterIndex(answer[j]) := Tally(answer, j)[LetterIndex(answer[j])] + 1]
  {
    var x := LetterIndex(answer[j]);
    var before, after := Tally(answer, j), Tally(answer, j + 1);
    assert Letter(x) == answer[j];
    forall k | 0 <= k < 26
      ensures after[k] == before[x := before[x] + 1][k]
    {
      assert Letter(k) == answer[j] <==> k == x;
    }
  }

  lemma {:induction false} GreensWithin(guess: string, answer: string, c: char, i: nat)
    requires IsWord(guess) && IsWord(answer) && i <= WordLength
    ensures GreensIn(guess, answer, c, i) <= GreensIn(guess, answer, c, WordLength)
    decreases WordLength - i
  {
    if i < WordLength {
      var n := WordLength;
      assert GreensIn(guess, answer, c, i) <= GreensIn(guess, answer, c, i + 1);
      if i + 1 < n {
        GreensWithin(guess, answer, c, i + 1);
      }
    }
  }

  lemma TallyToFirstPass(guess: string, answer: string)
    requires IsWord(guess) && IsWord(answer)
    ensures Tally(answer, WordLength) == AfterCorrect(guess, answer, 0)
  {
  }

  /** A correct position takes one copy of its letter, and there is always one to take. */
  lemma CorrectStep(guess: string, answer: string, i: nat)
    requires IsWord(guess) && IsWord(answer) && i < WordLength
    ensures 0 <= LetterIndex(guess[i]) < 26
    ensures guess[i] == answer[i] ==>
      AfterCorrect(guess, answer, i)[LetterIndex(guess[i])] >= 1 &&
      AfterCorrect(guess, answer, i + 1) ==
        AfterCorrect(guess, answer, i)[LetterIndex(guess[i]) := AfterCorrect(guess, answer, i)[LetterIndex(guess[i])] - 1]
    ensures guess[i] != answer[i] ==> AfterCorrect(guess, answer, i + 1) == AfterCorrect(guess, answer, i)
  {
    var x := LetterIndex(guess[i]);
    var before, after := AfterCorrect(guess, answer, i), AfterCorrect(guess, answer, i + 1);
    assert Letter(x) == guess[i];
    forall k | 0 <= k < 26
      ensures CountIn(answer, Letter(k), WordLength) - GreensIn(guess, answer, Letter(k), i + 1) >= 0
    {
      GreensWithin(guess, answer, Letter(k), i + 1);
      GreensWithinCount(guess, answer, Letter(k), WordLength);
    }
    if guess[i] == answer[i] {
      forall k | 0 <= k < 26
        ensures after[k] == before[x := before[x] - 1][k]
      {
        assert Letter(k) == guess[i] <==> k == x;
      }
    } else {
      forall k | 0 <= k < 26
        ensures after[k] == before[k]
      {
      }
    }
  }

  lemma FirstToSecondPass(guess: string, answer: string)
    requires IsWord(guess) && IsWord(answer)
    ensures AfterCorrect(guess, answer, WordLength) == AfterPresent(guess, answer, 0)
  {
  }

  /** A misplaced position takes one copy of its letter exactly when one is left. */
  lemma PresentStep(guess: string, answer: string, i: nat)
    requires IsWord(guess) && IsWord(answer) && i < WordLength
    ensures 0 <= LetterIndex(guess[i]) < 26
    ensures guess[i] == answer[i] ==>
      AfterPresent(guess, answer, i + 1) == AfterPresent(guess, answer, i) &&
      Mark(guess, answer, i) == 2
    ensures guess[i] != answer[i] ==>
      (AfterPresent(guess, answer, i)[LetterIndex(guess[i])] > 0 <==> Mark(guess, answer, i) == 1) &&
      (Mark(guess, answer, i) != 1 ==> Mark(guess, answer, i) == 0) &&
      AfterPresent(guess, answer, i + 1) ==
        if AfterPresent(guess, answer, i)[LetterIndex(guess[i])] > 0
        then AfterPresent(guess, answer, i)[LetterIndex(guess[i]) := AfterPresent(guess, answer, i)[LetterIndex(guess[i])] - 1]
        else AfterPresent(guess, answer, i)
  {
    var x := LetterIndex(guess[i]);
    var before, after := AfterPresent(guess, answer, i), AfterPresent(guess, answer, i + 1);
    assert Letter(x) == guess[i];
    if guess[i] == answer[i] {
      forall k | 0 <= k < 26
        ensures after[k] == before[k]
      {
      }
    } else if before[x] > 0 {
      forall k | 0 <= k < 26
        ensures after[k] == before[x := before[x] - 1][k]
      {
        assert Letter(k) == guess[i] <==> k == x;
      }
    } else {
      forall k | 0 <= k < 26
        ensures after[k] == before[k]
      {
        assert Letter(k) == guess[i] <==> k == x;
      }
    }
  }

  /** The letter histogram of the answer (`counts[ord(c) - 97] += 1` for each letter). */
  method CountLetters(answer: string) returns (counts: array<nat>)
    requires IsWord(answer)
    ensures fresh(counts) && counts[..] == Tally(answer, WordLength)
  {
    counts := new nat[26](_ => 0);
    assert counts[..] == Tally(answer, 0);
    for j := 0 to WordLength
      invariant counts[..] == Tally(answer, j)
    {
      TallyStep(answer, j);
      var index := LetterIndex(answer[j]);
      ghost var before := counts[..];
      counts[index] := counts[index] + 1;
      assert counts[..] == before[index := before[index] + 1];
    }
  }

  /**
   * First pass: every correct position takes one copy of its letter from the histogram,
   * is marked in `used` and adds 2 times its place value. The histogram holds naturals,
   * so each decrement is proved never to go below zero.
   */
  method MarkCorrect(guess: string, answer: string, counts: array<nat>, used: array<nat>)
    returns (result: nat)
    requires IsWord(guess) && IsWord(answer)
    requires counts != used
    requires counts[..] == AfterCorrect(guess, answer, 0)
    requires used[..] == [0, 0, 0, 0, 0]
    modifies counts, used
    ensures counts[..] == AfterCorrect(guess, answer, WordLength)
    ensures used[..] == FirstPass(guess, answer)
    ensures result == Pack(FirstPass(guess, answer))
  {
    result := 0;
    ghost var greens := FirstPass(guess, answer);
    ghost var zeros: seq<nat> := [0, 0, 0, 0, 0];
    for i := 0 to WordLength
      invariant counts[..] == AfterCorrect(guess, answer, i)
      invariant used[..] == Splice(greens, zeros, i)
      invariant result == Pack(Splice(greens, zeros, i))
    {
      CorrectStep(guess, answer, i);
      if guess[i] == answer[i] {
        PowersOfThreeArePowers(i);
        SpliceAdvance(greens, zeros, i, 2);
        var index := LetterIndex(guess[i]);
        ghost var before := counts[..];
        counts[index] := counts[index] - 1;
        assert counts[..] == before[index := before[index] - 1];
        ghost var usedBefore := used[..];
        used[i] := 2;
        assert used[..] == usedBefore[i := 2];
        result := result + 2 * PowersOfThree[i];
      } else {
        SpliceAdvance(greens, zeros, i, 0);
      }
    }
  }

  /**
   * Second pass: every position not marked in `used` takes one copy of its letter if any
   * is left, and then adds its place value.
   */
  method MarkPresent(guess: string, answer: string, counts: array<nat>, used: array<nat>, start: nat)
    returns (result: nat)
    requires IsWord(guess) && IsWord(answer)
    requires counts[..] == AfterPresent(guess, answer, 0)
    requires used[..] == FirstPass(guess, answer)
    requires start == Pack(FirstPass(guess, answer))
    modifies counts
    ensures result == Pack(Marks(guess, answer))
  {
    result := start;
    ghost var greens := FirstPass(guess, answer);
    ghost var marks := Marks(guess, answer);
    for i := 0 to WordLength
      invariant counts[..] == AfterPresent(guess, answer, i)
      invariant result == Pack(Splice(marks, greens, i))
    {
      PresentStep(guess, answer, i);
      if used[i] != 0 {
        SpliceAdvance(marks, greens, i, 0);
        continue;
      }
      var index := LetterIndex(guess[i]);
      if counts[index] > 0 {
        PowersOfThreeArePowers(i);
        SpliceAdvance(marks, greens, i, 1);
        ghost var before := counts[..];
        counts[index] := counts[index] - 1;
        assert counts[..] == before[index := before[index] - 1];
        result := result + 1 * PowersOfThree[i];
      } else {
        SpliceAdvance(marks, greens, i, 0);
      }
    }
  }

  /**
   * The two-pass scorer with its 26-entry letter budget: counts the answer's letters,
   * consumes them for correct positions first, then for present-elsewhere positions.
   */
  method EncodeFeedback(guess: string, answer: string) returns (result: nat)
    requires IsWord(guess) && IsWord(answer)
    ensures result == Code(guess, answer) && result <= 242
  {
    CodeBound(guess, answer);
    var counts := CountLetters(answer);
    TallyToFirstPass(guess, answer);
    var used := new nat[WordLength](_ => 0);
    result := MarkCorrect(guess, answer, counts, used);
    FirstToSecondPass(guess, answer);
    result := MarkPresent(guess, answer, counts, used, result);
  }

  // ---------------------------------------------------------------------------------
  // Decoding (`_decode_feedback`)
  // ---------------------------------------------------------------------------------

  function Symbol(digit: nat): char {
    if digit == 2 then 'C' else if digit == 1 then 'P' else 'A'
  }

  /** The display pattern of a code: one of A, P, C per position, position 0 first. */
  function Pattern(code: nat): string {
    seq(WordLength, i requires 0 <= i < WordLength => Symbol(Digit(code, i)))
  }

  /** The digit a display letter stands for. */
  function SymbolValue(ch: char): nat {
    if ch == 'C' then 2 else if ch == 'P' then 1 else 0
  }

  /** Packs a display pattern back into a code. */
  function Repack(pattern: string): nat {
    Pack(seq(|pattern|, i requires 0 <= i < |pattern| => SymbolValue(pattern[i])))
  }

  /** Repeatedly takes the code modulo 3 and divides by 3, for exactly five positions. */
  method DecodeFeedback(feedback: nat) returns (pattern: string)
    ensures pattern == Pattern(feedback)
  {
    var result := new char[WordLength](_ => 'A');
    var f := feedback;
    for i := 0 to WordLength
      invariant forall k :: 0 <= k < i ==> result[k] == Pattern(feedback)[k]
      invariant f == Shift(feedback, i)
    {
      var digit := f % 3;
      if digit == 2 {
        result[i] := 'C';
      } else if digit == 1 {
        result[i] := 'P';
      } else {
        result[i] := 'A';
      }
      f := f / 3;
    }
    pattern := result[..];
  }

  /** The pattern has five letters over A, P, C, and letter `i` names digit `i`. */
  lemma PatternShape(code: nat)
    ensures |Pattern(code)| == WordLength
    ensures forall i :: 0 <= i < WordLength ==> Pattern(code)[i] in ['A', 'P', 'C']
    ensures forall i :: 0 <= i < WordLength ==>
      (Pattern(code)[i] == 'C' <==> Digit(code, i) == 2) &&
      (Pattern(code)[i] == 'P' <==> Digit(code, i) == 1) &&
      (Pattern(code)[i] == 'A' <==> Digit(code, i) == 0)
  {
  }

  function DigitsOf(code: nat, k: nat): seq<nat> {
    seq(k, i requires 0 <= i < k => Digit(code, i))
  }

  lemma {:induction false} PackDigitsOf(code: nat, k: nat)
    requires code < Pow3(k)
    ensures Pack(DigitsOf(code, k)) == code
  {
    if k > 0 {
      forall i | 0 <= i < k - 1
        ensures DigitsOf(code, k)[1..][i] == DigitsOf(code / 3, k - 1)[i]
      {
        ShiftFront(code, i + 1);
      }
      assert DigitsOf(code, k)[1..] == DigitsOf(code / 3, k - 1);
      PackDigitsOf(code / 3, k - 1);
    }
  }

  /** Decoding then re-packing the digits gives back every code in 0 .. 242. */
  lemma DecodeRoundTrip(code: nat)
    requires code < CodeCount
    ensures Repack(Pattern(code)) == code
  {
    var p := Pattern(code);
    assert seq(|p|, i requires 0 <= i < |p| => SymbolValue(p[i])) == DigitsOf(code, WordLength);
    PackDigitsOf(code, WordLength);
  }

  /** The displayed pattern of a code shows C exactly at the correct positions. */
  lemma DecodedCorrect(guess: string, answer: string, i: nat)
    requires IsWord(guess) && IsWord(answer) && i < WordLength
    ensures Pattern(Code(guess, answer))[i] == 'C' <==> guess[i] == answer[i]
  {
    CorrectPosition(guess, answer, i);
  }

  // ---------------------------------------------------------------------------------
  // Tables
  // ---------------------------------------------------------------------------------

  /** A guess-by-answer table that caches the codec for every pair of words. */
  ghost predicate IsEncodeTable(table: array2<nat>, wordBank: seq<string>, validWords: seq<string>)
    reads table
  {
    table.Length0 == |wordBank| && table.Length1 == |validWords| &&
    (forall g :: 0 <= g < |wordBank| ==> IsWord(wordBank[g])) &&
    (forall a :: 0 <= a < |validWords| ==> IsWord(validWords[a])) &&
    forall g, a {:trigger Code(wordBank[g], validWords[a])} ::
      0 <= g < |wordBank| && 0 <= a < |validWords| ==> table[g, a] == Code(wordBank[g], validWords[a])
  }

  /** `build_feedback_encode_table`: fills a zeroed table cell by cell from the codec. */
  method BuildFeedbackEncodeTable(wordBank: seq<string>, validWords: seq<string>)
    returns (table: array2<nat>)
    requires forall i :: 0 <= i < |wordBank| ==> IsWord(wordBank[i])
    requires forall i :: 0 <= i < |validWords| ==> IsWord(validWords[i])
    ensures fresh(table)
    ensures IsEncodeTable(table, wordBank, validWords)
  {
    table := new nat[|wordBank|, |validWords|]((_, _) => 0);
    for g := 0 to |wordBank|
      invariant forall i, j :: 0 <= i < g && 0 <= j < |validWords| ==>
        table[i, j] == Code(wordBank[i], validWords[j])
    {
      for a := 0 to |validWords|
        invariant forall i, j :: 0 <= i < g && 0 <= j < |validWords| ==>
          table[i, j] == Code(wordBank[i], validWords[j])
        invariant forall j :: 0 <= j < a ==> table[g, j] == Code(wordBank[g], validWords[j])
      {
        var code := EncodeFeedback(wordBank[g], validWords[a]);
        table[g, a] := code;
      }
    }
  }

  /** `build_feedback_decode_table`: the pattern of every one of the 243 codes. */
  method BuildFeedbackDecodeTable() returns (table: array<string>)
    ensures fresh(table)
    ensures table.Length == CodeCount
    ensures forall i :: 0 <= i < CodeCount ==> table[i] == Pattern(i)
  {
    table := new string[CodeCount](_ => "");
    for i := 0 to CodeCount
      invariant forall k :: 0 <= k < i ==> table[k] == Pattern(k)
    {
      var p := DecodeFeedback(i);
      table[i] := p;
    }
  }

  // ---------------------------------------------------------------------------------
  // Duplicate-letter examples
  // ---------------------------------------------------------------------------------

  /** "speed" against "abide": only one of the two e's is present; the d is present. */
  lemma SpeedAgainstAbide()
    ensures IsWord("speed") && IsWord("abide")
    ensures Marks("speed", "abide") == [0, 0, 1, 0, 1]
    ensures Code("speed", "abide") == 90
  {
    var g, a := "speed", "abide";
    assert Budget(g, a, 's') == 0 && Budget(g, a, 'p') == 0;
    assert Budget(g, a, 'e') == 1 && Budget(g, a, 'd') == 1;
    assert MissesIn(g, a, 'e', 2) == 0 && MissesIn(g, a, 'e', 3) == 1;
    var m: seq<nat> := [0, 0, 1, 0, 1];
    assert Mark(g, a, 0) == 0 && Mark(g, a, 1) == 0 && Mark(g, a, 2) == 1;
    assert Mark(g, a, 3) == 0 && Mark(g, a, 4) == 1;
    assert Marks(g, a) == m;
    assert m[1..][1..][1..][1..][1..] == [];
  }

  /** "sassy" against "silly": the first s is correct and uses up the only s in the answer. */
  lemma SassyAgainstSilly()
    ensures IsWord("sassy") && IsWord("silly")
    ensures Marks("sassy", "silly") == [2, 0, 0, 0, 2]
    ensures Code("sassy", "silly") == 164
  {
    var g, a := "sassy", "silly";
    assert Budget(g, a, 's') == 0 && Budget(g, a, 'a') == 0;
    var m: seq<nat> := [2, 0, 0, 0, 2];
    assert Mark(g, a, 0) == 2 && Mark(g, a, 1) == 0 && Mark(g, a, 2) == 0;
    assert Mark(g, a, 3) == 0 && Mark(g, a, 4) == 2;
    assert Marks(g, a) == m;
    assert m[1..][1..][1..][1..][1..] == [];
  }
}
