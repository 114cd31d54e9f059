/** The state the Morse page keeps in its globals (js/translations.js): the
    conversion history, and the practice drill (`practiceActive`,
    `currentPracticeChar`). The practice character is drawn from a pool that
    depends on the chosen level; the random index is a parameter here. */
module MorsePage {
  import opened Wrappers
  import opened StringOps
  import opened MorseTable
  import opened MorseCodec
  import opened MostRecentFirst

  const MorseHistoryCap: nat := 20

  /** One history item: the input, what it converted to, the mode
      (`'encode'` or `'decode'`) and the time stamp, kept as given. */
  datatype MorseEntry = MorseEntry(original: string, result: string, mode: string, timestamp: string)

  // ---------------------------------------------------------------------
  // practice characters

  /** The characters a level draws from: the capitals, the capitals and the
      figures, or every key of the table in key order; an unknown level has
      none. */
  function PracticePool(level: string): string
  {
    if level == "easy" then Letters
    else if level == "medium" then Letters + Digits
    else if level == "hard" then Keys
    else ""
  }

  /** Every character of a level's pool has a code. */
  lemma PoolIsCoded(level: string, k: nat)
    requires k < |PracticePool(level)|
    ensures Code(PracticePool(level)[k]).Some?
  {
    var c := PracticePool(level)[k];
    if level == "easy" {
      LetterIsCoded(c);
    } else if level == "medium" {
      if k < |Letters| {
        assert c == Letters[k];
        LetterIsCoded(c);
      } else {
        assert c == Digits[k - |Letters|];
        DigitIsCoded(c);
      }
    } else {
      KeysAreCoded(c);
    }
  }

  /** `generatePracticeChar(level)` with `pick` standing for the random
      index; `None` is the `undefined` read past the end of the pool. What
      is drawn is a key of the table, taken from the level's pool. */
  function GeneratePracticeChar(level: string, pick: nat): (r: Option<char>)
    ensures r.Some? <==> pick < |PracticePool(level)|
    ensures r.Some? ==> r.value in PracticePool(level) && r.value in Keys
    ensures r.Some? ==> Code(r.value).Some?
  {
    var characters := PracticePool(level);
    if pick < |characters| then
      PoolIsCoded(level, pick);
      CodedAreKeys(characters[pick]);
      Some(characters[pick])
    else None
  }

  /** `morseCode[currentPracticeChar]`. */
  function TargetCode(target: Option<char>): Option<string>
  {
    match target
    case Some(c) => Code(c)
    case None => None
  }

  /** The pools hold 26, 36 and 55 characters; every key of the table can be
      drawn at the hard level, the figures first. */
  lemma PoolSizes()
    ensures |PracticePool("easy")| == 26
    ensures |PracticePool("medium")| == 36
    ensures |PracticePool("hard")| == 55
    ensures forall k :: 0 <= k < 10 ==> GeneratePracticeChar("hard", k) == Some(Digits[k])
  {
  }

  /** Any other level draws nothing. */
  lemma UnknownLevelDrawsNothing(level: string, pick: nat)
    requires level != "easy" && level != "medium" && level != "hard"
    ensures GeneratePracticeChar(level, pick) == None
  {
  }

  // ---------------------------------------------------------------------
  // the verdict of `checkPracticeInput`

  /** What the check shows: nothing, a success, the failure that reveals the
      code, or the `TypeError` thrown when there is no code to compare
      with (`undefined.length`). */
  datatype Feedback = Silent | Correct | Incorrect(expected: string) | TypeError

  function Evaluate(active: bool, target: Option<char>, input: string): Feedback
  {
    if !active then Silent
    else
      var typed := Trim(input);
      match TargetCode(target)
      case None => TypeError
      case Some(correct) =>
        if typed == correct then Correct
        else if |typed| >= |correct| then Incorrect(correct)
        else Silent
  }

  /** Correct exactly when practice is on and the trimmed input is the
      target's code. */
  lemma CorrectIff(active: bool, target: Option<char>, input: string)
    ensures Evaluate(active, target, input) == Correct <==>
      active && TargetCode(target) == Some(Trim(input))
  {
  }

  /** Incorrect, revealing the code, exactly when practice is on and the
      trimmed input differs from the code without being shorter. */
  lemma IncorrectIff(active: bool, target: Option<char>, input: string)
    ensures Evaluate(active, target, input).Incorrect? <==>
      active && TargetCode(target).Some? && Trim(input) != TargetCode(target).value &&
      |Trim(input)| >= |TargetCode(target).value|
    ensures Evaluate(active, target, input).Incorrect? ==>
      Evaluate(active, target, input).expected == TargetCode(target).value
  {
  }

  /** No feedback while practice is off, nor for a shorter partial answer. */
  lemma SilentIff(active: bool, target: Option<char>, input: string)
    ensures Evaluate(active, target, input) == Silent <==>
      !active || (TargetCode(target).Some? && |Trim(input)| < |TargetCode(target).value|)
  {
  }

  /** The code of a key decodes to that key. */
  lemma DecodeOwnCode(c: char)
    requires Code(c).Some?
    ensures Decode(Code(c).value) == [c]
  {
    CodedAreKeys(c);
    KeyIsUpper(c);
    assert Upper([c]) == [c];
    assert EncodeTokens([c]) == [EncodeChar(c)];
    EncodeKnown(c);
    assert Encode([c]) == Code(c).value;
    RoundTrip([c]);
  }

  /** An answer judged correct decodes, on the page's own decoder, to the
      character asked for. */
  lemma CorrectAnswerDecodes(target: char, input: string)
    requires Evaluate(true, Some(target), input) == Correct
    ensures Decode(input) == [target]
  {
    DecodeTrimmed(input);
    DecodeOwnCode(target);
  }

  /** No key of the table is a lowercase ASCII letter. */
  lemma KeyIsUpper(c: char)
    requires c in Keys
    ensures UpperChar(c) == c
  {
    if c in Digits {
    } else if c in Letters {
    } else {
      assert c in Punctuation;
    }
  }

  // ---------------------------------------------------------------------
  // the page state

  class MorsePageState {
    var morseHistory: seq<MorseEntry>
    var practiceActive: bool
    /** `None` stands for the initial `''` and for `undefined`; both have no
        code. */
    var currentPracticeChar: Option<char>
    /** Auto-advance timers set by correct answers and not yet fired. */
    var pendingAdvances: nat

    /** The history is bounded, a drawn character has a code, and a pending
        advance was scheduled while practice was on. */
    predicate Valid()
      reads this
    {
      |morseHistory| <= MorseHistoryCap &&
      (currentPracticeChar.Some? ==> Code(currentPracticeChar.value).Some?) &&
      (pendingAdvances > 0 ==> practiceActive)
    }

    constructor()
      ensures Valid()
      ensures morseHistory == [] && !practiceActive
      ensures currentPracticeChar == None && pendingAdvances == 0
    {
      morseHistory := [];
      practiceActive := false;
      currentPracticeChar := None;
      pendingAdvances := 0;
    }

    /** `addToMorseHistory(original, result, mode)`, stamped `timestamp`. */
    method AddToMorseHistory(original: string, result: string, mode: string, timestamp: string)
      requires Valid()
      modifies this
      ensures Valid()
      ensures morseHistory ==
        AddFront(old(morseHistory), MorseEntry(original, result, mode, timestamp), MorseHistoryCap)
      ensures practiceActive == old(practiceActive)
      ensures currentPracticeChar == old(currentPracticeChar)
      ensures pendingAdvances == old(pendingAdvances)
    {
      morseHistory := [MorseEntry(original, result, mode, timestamp)] + morseHistory;
      if |morseHistory| > MorseHistoryCap {
        morseHistory := morseHistory[..|morseHistory| - 1];
      }
    }

    /** `deleteMorseHistoryItem(index)`. */
    method DeleteMorseHistoryItem(index: nat)
      requires Valid()
      modifies this
      ensures Valid()
      ensures morseHistory == RemoveAt(old(morseHistory), index)
      ensures practiceActive == old(practiceActive)
      ensures currentPracticeChar == old(currentPracticeChar)
      ensures pendingAdvances == old(pendingAdvances)
    {
      if index < |morseHistory| {
        morseHistory := morseHistory[..index] + morseHistory[index + 1..];
      }
    }

    /** `startPractice()` at `level`, `pick` standing for the random index:
        practice is switched on, a character is drawn, and its code is what
        the delayed `playMorseCode` will be handed (`None` for `undefined`). */
    method StartPractice(level: string, pick: nat) returns (toPlay: Option<string>)
      requires Valid()
      requires PracticePool(level) != [] ==> pick < |PracticePool(level)|
      modifies this
      ensures Valid()
      ensures practiceActive
      ensures currentPracticeChar == GeneratePracticeChar(level, pick)
      ensures toPlay == TargetCode(currentPracticeChar)
      ensures PracticePool(level) != [] ==> currentPracticeChar.Some? && toPlay.Some?
      ensures morseHistory == old(morseHistory)
      ensures pendingAdvances == old(pendingAdvances)
    {
      practiceActive := true;
      currentPracticeChar := GeneratePracticeChar(level, pick);
      toPlay := TargetCode(currentPracticeChar);
    }

    /** `checkPracticeInput()` on the typed `input`. A correct answer sets an
        auto-advance timer; nothing else changes, the target least of all. */
    method CheckPracticeInput(input: string) returns (feedback: Feedback)
      requires Valid()
      modifies this
      ensures Valid()
      ensures feedback == Evaluate(practiceActive, currentPracticeChar, input)
      ensures pendingAdvances == old(pendingAdvances) + (if feedback == Correct then 1 else 0)
      ensures practiceActive == old(practiceActive)
      ensures currentPracticeChar == old(currentPracticeChar)
      ensures morseHistory == old(morseHistory)
    {
      if !practiceActive {
        return Silent;
      }
      var typed := Trim(input);
      var correctMorse := TargetCode(currentPracticeChar);
      if correctMorse.None? {
        return TypeError;
      }
      if typed == correctMorse.value {
        feedback := Correct;
        pendingAdvances := pendingAdvances + 1;
      } else if |typed| >= |correctMorse.value| {
        feedback := Incorrect(correctMorse.value);
      } else {
        feedback := Silent;
      }
    }

    /** One auto-advance timer fires: `if (practiceActive) startPractice()`.
        Practice is never switched off, so it always restarts. */
    method FireAutoAdvance(level: string, pick: nat) returns (restarted: bool, toPlay: Option<string>)
      requires Valid()
      requires pendingAdvances > 0
      requires PracticePool(level) != [] ==> pick < |PracticePool(level)|
      modifies this
      ensures Valid()
      ensures restarted && practiceActive
      ensures pendingAdvances == old(pendingAdvances) - 1
      ensures currentPracticeChar == GeneratePracticeChar(level, pick)
      ensures toPlay == TargetCode(currentPracticeChar)
      ensures morseHistory == old(morseHistory)
    {
      pendingAdvances := pendingAdvances - 1;
      restarted := practiceActive;
      toPlay := None;
      if practiceActive {
        toPlay := StartPractice(level, pick);
      }
    }
  }
}
