/** The second, smaller Morse codec of the home page (js/main.js): a table of
    the 26 letters, the ten figures and the space, `textToMorse`, and
    `morseToText`, which does no clean-up of its input and passes unknown
    tokens through unchanged. */
module SimpleMorse {
  import opened Wrappers
  import opened StringOps
  import opened MorseTable
  import MorseCodec

  /** `morseCode[c]` for the home page's table, `None` standing for
      `undefined`. */
  function SimpleCode(c: char): Option<string>
  {
    match c
    case 'A' => Some(".-")      case 'B' => Some("-...")    case 'C' => Some("-.-.")    case 'D' => Some("-..")
    case 'E' => Some(".")       case 'F' => Some("..-.")    case 'G' => Some("--.")     case 'H' => Some("....")
    case 'I' => Some("..")      case 'J' => Some(".---")    case 'K' => Some("-.-")     case 'L' => Some(".-..")
    case 'M' => Some("--")      case 'N' => Some("-.")      case 'O' => Some("---")     case 'P' => Some(".--.")
    case 'Q' => Some("--.-")    case 'R' => Some(".-.")     case 'S' => Some("...")     case 'T' => Some("-")
    case 'U' => Some("..-")     case 'V' => Some("...-")    case 'W' => Some(".--")     case 'X' => Some("-..-")
    case 'Y' => Some("-.--")    case 'Z' => Some("--..")    case ' ' => Some("/")
    case '1' => Some(".----")   case '2' => Some("..---")   case '3' => Some("...--")   case '4' => Some("....-")
    case '5' => Some(".....")   case '6' => Some("-....")   case '7' => Some("--...")   case '8' => Some("---..")
    case '9' => Some("----.")   case '0' => Some("-----")
    case _ => None
  }

  /** `Object.keys(morseCode)`: the figures first, then the letters and the
      space in the order written. */
  const SimpleKeys: string := Digits + Letters + " "

  // ---------------------------------------------------------------------
  // textToMorse

  function SimpleEncodeChar(c: char): string
  {
    match SimpleCode(c)
    case Some(m) => m
    case None => [c]
  }

  function SimpleTokens(u: string): (tokens: seq<string>)
    ensures |tokens| == |u|
    ensures forall i :: 0 <= i < |u| ==> tokens[i] == SimpleEncodeChar(u[i])
  {
    if u == [] then [] else [SimpleEncodeChar(u[0])] + SimpleTokens(u[1..])
  }

  /** `textToMorse(text)`. */
  function TextToMorse(text: string): string
  {
    Join(SimpleTokens(Upper(text)), " ")
  }

  // ---------------------------------------------------------------------
  // morseToText

  /** The reverse table filled key by key; a later key would win. */
  function SimpleReverseTable(keys: string): map<string, char>
  {
    if keys == [] then map[]
    else
      var k := keys[|keys| - 1];
      var prev := SimpleReverseTable(keys[..|keys| - 1]);
      match SimpleCode(k)
      case Some(m) => prev[m := k]
      case None => prev
  }

  /** `reverseMorse[code]`. */
  function SimpleReverse(code: string): Option<char>
  {
    var table := SimpleReverseTable(SimpleKeys);
    if code in table then Some(table[code]) else None
  }

  /** One token: its character if the reverse table has it, else itself. */
  function SimpleDecodeToken(t: string): string
  {
    match SimpleReverse(t)
    case Some(k) => [k]
    case None => t
  }

  function SimpleDecodeTokens(ts: seq<string>): (r: seq<string>)
    ensures |r| == |ts|
    ensures forall i :: 0 <= i < |ts| ==> r[i] == SimpleDecodeToken(ts[i])
  {
    if ts == [] then [] else [SimpleDecodeToken(ts[0])] + SimpleDecodeTokens(ts[1..])
  }

  /** `morseToText(morse)`. */
  function MorseToText(morse: string): string
  {
    Join(SimpleDecodeTokens(Split(morse, ' ')), "")
  }

  // ---------------------------------------------------------------------
  // the home page's table against the Morse page's

  lemma AgreeLettersAToM(c: char)
    requires c in "ABCDEFGHIJKLM"
    ensures SimpleCode(c).Some? && Code(c) == SimpleCode(c)
  {
    match c
    case 'A' => case 'B' => case 'C' => case 'D' => case 'E' => case 'F' => case 'G' =>
    case 'H' => case 'I' => case 'J' => case 'K' => case 'L' => case 'M' =>
    case _ =>
  }

  lemma AgreeLettersNToZ(c: char)
    requires c in "NOPQRSTUVWXYZ"
    ensures SimpleCode(c).Some? && Code(c) == SimpleCode(c)
  {
    match c
    case 'N' => case 'O' => case 'P' => case 'Q' => case 'R' => case 'S' => case 'T' =>
    case 'U' => case 'V' => case 'W' => case 'X' => case 'Y' => case 'Z' =>
    case _ =>
  }

  lemma AgreeFiguresAndSpace(c: char)
    requires c in "0123456789 "
    ensures SimpleCode(c).Some? && Code(c) == SimpleCode(c)
  {
    match c
    case '0' => case '1' => case '2' => case '3' => case '4' => case '5' =>
    case '6' => case '7' => case '8' => case '9' => case ' ' =>
    case _ =>
  }

  /** The home page's table holds exactly its keys... */
  lemma SimpleCodedAreKeys(c: char)
    ensures SimpleCode(c).Some? <==> c in SimpleKeys
  {
    if c in SimpleKeys {
      if c in "ABCDEFGHIJKLM" {
        AgreeLettersAToM(c);
      } else if c in "NOPQRSTUVWXYZ" {
        AgreeLettersNToZ(c);
      } else {
        AgreeFiguresAndSpace(c);
      }
    }
  }

  /** ... and gives each of them the same code as the Morse page's table. */
  lemma SimpleAgrees(c: char)
    requires SimpleCode(c).Some?
    ensures Code(c) == SimpleCode(c)
  {
    SimpleCodedAreKeys(c);
    if c in "ABCDEFGHIJKLM" {
      AgreeLettersAToM(c);
    } else if c in "NOPQRSTUVWXYZ" {
      AgreeLettersNToZ(c);
    } else {
      AgreeFiguresAndSpace(c);
    }
  }

  // ---------------------------------------------------------------------
  // the reverse table

  lemma {:induction false} SimpleReverseTableEntries(keys: string, code: string)
    ensures code in SimpleReverseTable(keys) <==>
      exists i :: 0 <= i < |keys| && SimpleCode(keys[i]) == Some(code)
    ensures code in SimpleReverseTable(keys) ==>
      SimpleCode(SimpleReverseTable(keys)[code]) == Some(code)
    decreases |keys|
  {
    if keys != [] {
      var init := keys[..|keys| - 1];
      SimpleReverseTableEntries(init, code);
      if exists i :: 0 <= i < |keys| && SimpleCode(keys[i]) == Some(code) {
        var i :| 0 <= i < |keys| && SimpleCode(keys[i]) == Some(code);
        if i < |init| {
          assert init[i] == keys[i];
        }
      }
      if exists i :: 0 <= i < |init| && SimpleCode(init[i]) == Some(code) {
        var i :| 0 <= i < |init| && SimpleCode(init[i]) == Some(code);
        assert keys[i] == init[i];
      }
    }
  }

  /** The reverse table finds a character exactly for its own code. */
  lemma SimpleReverseIff(code: string, k: char)
    ensures SimpleReverse(code) == Some(k) <==> SimpleCode(k) == Some(code)
  {
    SimpleReverseTableEntries(SimpleKeys, code);
    var table := SimpleReverseTable(SimpleKeys);
    if SimpleCode(k) == Some(code) {
      SimpleCodedAreKeys(k);
      var i :| 0 <= i < |SimpleKeys| && SimpleKeys[i] == k;
      assert SimpleCode(SimpleKeys[i]) == Some(code);
      var found := table[code];
      SimpleAgrees(k);
      SimpleAgrees(found);
      CodeInjective(k, found);
    }
  }

  // ---------------------------------------------------------------------
  // the round trip

  /** A token written for a table character holds only dots, dashes and the
      word marker, and reads back as that character. */
  lemma SimpleOwnToken(c: char)
    requires SimpleCode(c).Some?
    ensures SimpleDecodeToken(SimpleEncodeChar(c)) == [c]
    ensures SimpleEncodeChar(c) != [] && ' ' !in SimpleEncodeChar(c)
  {
    SimpleReverseIff(SimpleCode(c).value, c);
    SimpleAgrees(c);
    CodeShape(c);
  }

  /** The characters the round trip is promised for. */
  predicate RoundTripChar(c: char)
  {
    'A' <= c <= 'Z' || 'a' <= c <= 'z' || '0' <= c <= '9' || c == ' '
  }

  lemma RoundTripCharIsCoded(c: char)
    requires RoundTripChar(c)
    ensures SimpleCode(UpperChar(c)).Some?
  {
    SimpleCodedAreKeys(UpperChar(c));
  }

  /** Every text of letters of either case, figures and spaces, the empty
      text included, comes back uppercased. */
  lemma SimpleRoundTrip(text: string)
    requires forall i :: 0 <= i < |text| ==> RoundTripChar(text[i])
    ensures MorseToText(TextToMorse(text)) == Upper(text)
  {
    var u := Upper(text);
    var tokens := SimpleTokens(u);
    if u == [] {
      MorseToTextEmpty();
    } else {
      forall k | 0 <= k < |tokens|
        ensures ' ' !in tokens[k] && SimpleDecodeToken(tokens[k]) == [u[k]]
      {
        RoundTripCharIsCoded(text[k]);
        SimpleOwnToken(u[k]);
      }
      SplitJoin(tokens, ' ');
      JoinSingles(SimpleDecodeTokens(tokens), u);
    }
  }

  /** Round trip is not promised beyond those characters: `E.` becomes
      `. .`... */
  lemma LookAlikeEncodes()
    ensures TextToMorse("E.") == ". ."
  {
    assert Upper("E.") == "E.";
    assert SimpleTokens("E.") == [".", "."];
  }

  /** ... which reads back as `EE`. */
  lemma LookAlikeDecodes()
    ensures MorseToText(". .") == "EE"
  {
    assert ". ." == "." + [' '] + ".";
    SplitAfterPart(".", ' ', ".");
    SplitWithoutSeparator(".", ' ');
    SimpleReverseIff(".", 'E');
    assert SimpleDecodeTokens([".", "."]) == ["E", "E"];
  }

  // ---------------------------------------------------------------------
  // how morseToText reads its input

  lemma SimpleDecodeTokensAppend(xs: seq<string>, ys: seq<string>)
    ensures SimpleDecodeTokens(xs + ys) == SimpleDecodeTokens(xs) + SimpleDecodeTokens(ys)
  {
    var l, r := SimpleDecodeTokens(xs), SimpleDecodeTokens(ys);
    assert forall i :: 0 <= i < |xs + ys| ==> SimpleDecodeTokens(xs + ys)[i] == (l + r)[i];
  }

  /** Splitting at a space decodes the two sides on their own. */
  lemma MorseToTextAppend(x: string, y: string)
    ensures MorseToText(x + " " + y) == MorseToText(x) + MorseToText(y)
  {
    SplitAppend(x, ' ', y);
    var xs, ys := Split(x, ' '), Split(y, ' ');
    SimpleDecodeTokensAppend(xs, ys);
    JoinAppend(SimpleDecodeTokens(xs), SimpleDecodeTokens(ys));
  }

  /** No code of the home page's table is empty... */
  lemma SimpleReverseEmpty()
    ensures SimpleReverse([]) == None
  {
    if SimpleReverse([]).Some? {
      var k := SimpleReverse([]).value;
      SimpleReverseIff([], k);
      SimpleAgrees(k);
      CodeShape(k);
    }
  }

  /** ... so the empty token reads as nothing... */
  lemma MorseToTextEmpty()
    ensures MorseToText("") == ""
  {
    assert Split([], ' ') == [[]];
    SimpleReverseEmpty();
    assert SimpleDecodeTokens([[]]) == [SimpleDecodeToken([])];
  }

  /** ... so a doubled space reads as a single one. */
  lemma DoubleSpaceIgnored(x: string, y: string)
    ensures MorseToText(x + "  " + y) == MorseToText(x + " " + y)
  {
    assert x + "  " + y == x + " " + ([] + " " + y);
    MorseToTextAppend(x, [] + " " + y);
    MorseToTextAppend([], y);
    MorseToTextEmpty();
    MorseToTextAppend(x, y);
  }

  /** A space-free token with no entry comes back unchanged, with no
      brackets, and `/` reads as a space. */
  lemma UnknownTokenPassesThrough(t: string)
    requires ' ' !in t
    requires forall k :: SimpleCode(k) != Some(t)
    ensures MorseToText(t) == t
  {
    SplitWithoutSeparator(t, ' ');
    if SimpleReverse(t).Some? {
      SimpleReverseIff(t, SimpleReverse(t).value);
    }
  }

  lemma SlashIsSpace()
    ensures MorseToText("/") == " "
  {
    SplitWithoutSeparator("/", ' ');
    SimpleReverseIff("/", ' ');
  }

  /** A token the Morse page's table does not know is not in the home
      page's table either. */
  lemma UnknownToBoth(t: string, k: char)
    requires Inverse(t) == None
    ensures SimpleCode(k) != Some(t)
  {
    if SimpleCode(k) == Some(t) {
      SimpleAgrees(k);
      InverseOfCode(k);
    }
  }

  /** The decode policies differ: a token, free of white space and glyphs,
      that the tables do not know comes back unchanged from the home page
      and in brackets from the Morse page. */
  lemma DecodersDisagreeOnUnknown(t: string)
    requires t != [] && NoSpace(t) && t != "/"
    requires MorseCodec.Bullet !in t && MorseCodec.EnDash !in t
    requires Inverse(t) == None
    ensures MorseToText(t) == t
    ensures MorseCodec.Decode(t) == "[" + t + "]"
  {
    forall k
      ensures SimpleCode(k) != Some(t)
    {
      UnknownToBoth(t, k);
    }
    assert ' ' !in t by {
      assert IsSpace(' ');
    }
    UnknownTokenPassesThrough(t);
    MorseCodec.DecodeOneToken(t);
  }
}
