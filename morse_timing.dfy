/** The sound schedule of `playMorseCode` (js/translations.js): one beep per
    dot or dash of a Morse string, placed on a running clock. The page keeps
    the clock in floating seconds read from the audio context; here it is an
    integer number of milliseconds counted from `now`, the audio context's
    current time. */
module MorseTiming {
  import opened MorseTable

  const StartDelay: int := 100
  const DotLength: nat := 100
  const DashLength: nat := 300
  /** Silence after every beep. */
  const BeepGap: nat := 100
  const LetterSpace: nat := 300
  const WordSpace: nat := 700

  /** One `playBeep(audioContext, start, duration, 600)`. */
  datatype Beep = Beep(start: int, duration: nat)

  /** The beeps scheduled so far and the clock `time`. */
  datatype Schedule = Schedule(beeps: seq<Beep>, time: int)

  function SignalLength(symbol: char): nat
  {
    if symbol == '.' then DotLength else DashLength
  }

  /** One pass of the loop body for `symbol`. */
  function Step(s: Schedule, symbol: char): Schedule
  {
    if IsSignal(symbol) then
      Schedule(s.beeps + [Beep(s.time, SignalLength(symbol))], s.time + SignalLength(symbol) + BeepGap)
    else if symbol == ' ' then Schedule(s.beeps, s.time + LetterSpace)
    else if symbol == '/' then Schedule(s.beeps, s.time + WordSpace)
    else s
  }

  /** The schedule after the loop has read all of `morse`, starting from the
      delayed clock. */
  function Run(morse: string, now: int): Schedule
  {
    if morse == [] then Schedule([], now + StartDelay)
    else Step(Run(morse[..|morse| - 1], now), morse[|morse| - 1])
  }

  /** `playMorseCode(morse)`: the loop over the symbols, with the beeps it
      hands to `playBeep` collected in order. */
  method PlayMorseCode(morse: string, now: int) returns (beeps: seq<Beep>, time: int)
    ensures Schedule(beeps, time) == Run(morse, now)
  {
    time := now;
    time := time + StartDelay;
    beeps := [];
    for i := 0 to |morse|
      invariant Schedule(beeps, time) == Run(morse[..i], now)
    {
      var symbol := morse[i];
      assert morse[..i + 1][..i] == morse[..i];
      if symbol == '.' {
        beeps := beeps + [Beep(time, DotLength)];
        time := time + DotLength + BeepGap;
      } else if symbol == '-' {
        beeps := beeps + [Beep(time, DashLength)];
        time := time + DashLength + BeepGap;
      } else if symbol == ' ' {
        time := time + LetterSpace;
      } else if symbol == '/' {
        time := time + WordSpace;
      }
    }
    assert morse[..|morse|] == morse;
  }

  // ---------------------------------------------------------------------
  // counting symbols

  /** The number of times `c` occurs in `s`, read from the front as the
      loop reads it; it is the multiplicity of `c` in the multiset of `s`. */
  function Count(s: string, c: char): (n: nat)
    ensures n == multiset(s)[c]
    ensures n <= |s|
  {
    if s == [] then 0
    else
      assert s == s[..|s| - 1] + [s[|s| - 1]];
      Count(s[..|s| - 1], c) + (if s[|s| - 1] == c then 1 else 0)
  }

  /** The number of dots and dashes in `s`. */
  function Signals(s: string): nat
  {
    Count(s, '.') + Count(s, '-')
  }

  // ---------------------------------------------------------------------
  // what the schedule is

  /** One beep per dot or dash, and the clock ends at the start delay plus
      200 ms per dot, 400 ms per dash, 300 ms per space and 700 ms per
      slash; every other character adds nothing. */
  lemma {:induction false} RunTotals(morse: string, now: int)
    ensures |Run(morse, now).beeps| == Signals(morse)
    ensures Run(morse, now).time ==
      now + 100 + 200 * Count(morse, '.') + 400 * Count(morse, '-') +
      300 * Count(morse, ' ') + 700 * Count(morse, '/')
    decreases |morse|
  {
    if morse != [] {
      RunTotals(morse[..|morse| - 1], now);
    }
  }

  /** Reading more symbols only appends beeps and never moves the clock
      back. */
  lemma {:induction false} RunExtends(morse: string, j: nat, now: int)
    requires j <= |morse|
    ensures Run(morse[..j], now).beeps <= Run(morse, now).beeps
    ensures Run(morse[..j], now).time <= Run(morse, now).time
    decreases |morse| - j
  {
    if j < |morse| {
      var init := morse[..|morse| - 1];
      assert init[..j] == morse[..j];
      RunExtends(init, j, now);
    } else {
      assert morse[..j] == morse;
    }
  }

  /** The dot or dash at position `j` sounds as the beep numbered by the
      signals before it, with its own length, starting at the clock reached
      after the symbols before it: the beeps come in the order of the
      string. */
  lemma BeepOfSymbol(morse: string, j: nat, now: int)
    requires j < |morse| && IsSignal(morse[j])
    ensures Signals(morse[..j]) < |Run(morse, now).beeps|
    ensures Run(morse, now).beeps[Signals(morse[..j])] ==
      Beep(Run(morse[..j], now).time, SignalLength(morse[j]))
  {
    var pre := morse[..j + 1];
    assert pre[..j] == morse[..j];
    RunTotals(morse[..j], now);
    RunExtends(morse, j + 1, now);
  }

  /** Every beep ends at least one gap before the next one starts and before
      the final clock: beeps never overlap. */
  predicate Spaced(s: Schedule)
  {
    (forall k :: 0 <= k < |s.beeps| - 1 ==>
      s.beeps[k].start + s.beeps[k].duration + BeepGap <= s.beeps[k + 1].start) &&
    (s.beeps != [] ==>
      s.beeps[|s.beeps| - 1].start + s.beeps[|s.beeps| - 1].duration + BeepGap <= s.time)
  }

  /** The schedule is spaced and nothing starts before the start delay. */
  lemma {:induction false} RunSpaced(morse: string, now: int)
    ensures Spaced(Run(morse, now))
    ensures Run(morse, now).time >= now + StartDelay
    ensures forall k :: 0 <= k < |Run(morse, now).beeps| ==>
      Run(morse, now).beeps[k].start >= now + StartDelay
    decreases |morse|
  {
    if morse != [] {
      RunSpaced(morse[..|morse| - 1], now);
    }
  }

  /** Hence start times strictly increase. */
  lemma StartsIncrease(morse: string, now: int, k: nat, l: nat)
    requires k < l < |Run(morse, now).beeps|
    ensures Run(morse, now).beeps[k].start < Run(morse, now).beeps[l].start
    decreases l - k
  {
    RunSpaced(morse, now);
    if k + 1 < l {
      StartsIncrease(morse, now, k + 1, l);
    }
  }

  /** A string that opens with a dot or a dash sounds it right after the
      start delay. */
  lemma FirstBeep(morse: string, now: int)
    requires morse != [] && IsSignal(morse[0])
    ensures Run(morse, now).beeps != []
    ensures Run(morse, now).beeps[0] == Beep(now + StartDelay, SignalLength(morse[0]))
  {
    BeepOfSymbol(morse, 0, now);
    assert morse[..0] == [];
  }
}
