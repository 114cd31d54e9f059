/** The Morse symbol table of the Morse page (`morseCode` in
    js/translations.js) and the reverse table `decodeFromMorse` builds from it.

    Letters, figures and most punctuation follow the international Morse code
    of ITU-R Recommendation M.1677-1 (Part I, section 1.1); `!`, `;`, `_` and
    `$` are the common extensions, and the space maps to the word marker `/`. */
module MorseTable {
  import opened Wrappers

  const Digits: string := "0123456789"
  const Letters: string := "ABCDEFGHIJKLMNOPQRSTUVWXYZ"
  const Punctuation: string := ".,?'!/()&:;=+-_\"$@ "

  /** `Object.keys(morseCode)`: integer-like keys come first in ascending
      order, then the other keys in the order the object literal lists them. */
  const Keys: string := Digits + Letters + Punctuation

  /** `morseCode[c]`, `None` standing for `undefined`. */
  function Code(c: char): Option<string>
  {
    match c
    case 'A' => Some(".-")      case 'B' => Some("-...")    case 'C' => Some("-.-.")    case 'D' => Some("-..")
    case 'E' => Some(".")       case 'F' => Some("..-.")    case 'G' => Some("--.")     case 'H' => Some("....")
    case 'I' => Some("..")      case 'J' => Some(".---")    case 'K' => Some("-.-")     case 'L' => Some(".-..")
    case 'M' => Some("--")      case 'N' => Some("-.")      case 'O' => Some("---")     case 'P' => Some(".--.")
    case 'Q' => Some("--.-")    case 'R' => Some(".-.")     case 'S' => Some("...")     case 'T' => Some("-")
    case 'U' => Some("..-")     case 'V' => Some("...-")    case 'W' => Some(".--")     case 'X' => Some("-..-")
    case 'Y' => Some("-.--")    case 'Z' => Some("--..")
    case '0' => Some("-----")   case '1' => Some(".----")   case '2' => Some("..---")   case '3' => Some("...--")
    case '4' => Some("....-")   case '5' => Some(".....")   case '6' => Some("-....")   case '7' => Some("--...")
    case '8' => Some("---..")   case '9' => Some("----.")
    case '.' => Some(".-.-.-")  case ',' => Some("--..--")  case '?' => Some("..--..")  case '\'' => Some(".----.")
    case '!' => Some("-.-.--")  case '/' => Some("-..-.")   case '(' => Some("-.--.")   case ')' => Some("-.--.-")
    case '&' => Some(".-...")   case ':' => Some("---...")  case ';' => Some("-.-.-.")  case '=' => Some("-...-")
    case '+' => Some(".-.-.")   case '-' => Some("-....-")  case '_' => Some("..--.-")  case '"' => Some(".-..-.")
    case '$' => Some("...-..-") case '@' => Some(".--.-.")  case ' ' => Some("/")
    case _ => None
  }

  /** The table read backwards, written out code by code and grouped by code
      length: the reference the reverse table is checked against. */
  function Inverse(code: string): Option<char>
  {
    match |code|
    case 1 =>
      (match code
      case "." => Some('E')
      case "-" => Some('T')
      case "/" => Some(' ')
      case _ => None)
    case 2 =>
      (match code
      case ".-" => Some('A')
      case ".." => Some('I')
      case "--" => Some('M')
      case "-." => Some('N')
      case _ => None)
    case 3 =>
      (match code
      case "-.." => Some('D')
      case "--." => Some('G')
      case "-.-" => Some('K')
      case "---" => Some('O')
      case ".-." => Some('R')
      case "..." => Some('S')
      case "..-" => Some('U')
      case ".--" => Some('W')
      case _ => None)
    case 4 =>
      (match code
      case "-..." => Some('B')
      case "-.-." => Some('C')
      case "..-." => Some('F')
      case "...." => Some('H')
      case ".---" => Some('J')
      case ".-.." => Some('L')
      case ".--." => Some('P')
      case "--.-" => Some('Q')
      case "...-" => Some('V')
      case "-..-" => Some('X')
      case "-.--" => Some('Y')
      case "--.." => Some('Z')
      case _ => None)
    case 5 =>
      (match code
      case "-----" => Some('0')
      case ".----" => Some('1')
      case "..---" => Some('2')
      case "...--" => Some('3')
      case "....-" => Some('4')
      case "....." => Some('5')
      case "-...." => Some('6')
      case "--..." => Some('7')
      case "---.." => Some('8')
      case "----." => Some('9')
      case "-..-." => Some('/')
      case "-.--." => Some('(')
      case ".-..." => Some('&')
      case "-...-" => Some('=')
      case ".-.-." => Some('+')
      case _ => None)
    case 6 =>
      (match code
      case ".-.-.-" => Some('.')
      case "--..--" => Some(',')
      case "..--.." => Some('?')
      case ".----." => Some('\'')
      case "-.-.--" => Some('!')
      case "-.--.-" => Some(')')
      case "---..." => Some(':')
      case "-.-.-." => Some(';')
      case "-....-" => Some('-')
      case "..--.-" => Some('_')
      case ".-..-." => Some('"')
      case ".--.-." => Some('@')
      case _ => None)
    case 7 =>
      (match code
      case "...-..-" => Some('$')
      case _ => None)
    case _ => None
  }

  predicate IsSignal(c: char)
  {
    c == '.' || c == '-'
  }

  /** A non-empty code made only of dots and dashes. */
  predicate IsSignals(m: string)
  {
    m != [] && forall i :: 0 <= i < |m| ==> IsSignal(m[i])
  }

  /** The object `reverseMorse` that `forEach` fills over `keys`: one entry
      per key, in key order, so a later key overwrites an earlier one with the
      same code. */
  function ReverseTable(keys: string): map<string, char>
  {
    if keys == [] then map[]
    else
      var k := keys[|keys| - 1];
      var prev := ReverseTable(keys[..|keys| - 1]);
      match Code(k)
      case Some(m) => prev[m := k]
      case None => prev
  }

  /** `reverseMorse[code]` for the reverse table of the whole key list. */
  function Reverse(code: string): (r: Option<char>)
  {
    var table := ReverseTable(Keys);
    if code in table then Some(table[code]) else None
  }

  // ---------------------------------------------------------------------
  // the shape of the table

  lemma DigitIsCoded(c: char)
    requires c in Digits
    ensures Code(c).Some?
  {
  }

  lemma LetterIsCoded(c: char)
    requires c in Letters
    ensures Code(c).Some?
  {
  }

  lemma PunctuationIsCoded(c: char)
    requires c in Punctuation
    ensures Code(c).Some?
  {
  }

  /** Every key has a code ... */
  lemma KeysAreCoded(c: char)
    requires c in Keys
    ensures Code(c).Some?
  {
    if c in Digits {
      DigitIsCoded(c);
    } else if c in Letters {
      LetterIsCoded(c);
    } else {
      PunctuationIsCoded(c);
    }
  }

  /** ... and every character with a code is a key. */
  lemma CodedAreKeys(c: char)
    requires Code(c).Some?
    ensures c in Keys
  {
  }

  // ---------------------------------------------------------------------
  // every entry, checked a few rows of the table at a time

  /** What every entry of the table satisfies: its code reads back as the
      same character, and it is the word marker for the space and dots and
      dashes for everything else. */
  predicate GoodEntry(c: char)
  {
    Code(c).Some? && Inverse(Code(c).value) == Some(c) &&
    (if c == ' ' then Code(c).value == "/" else IsSignals(Code(c).value))
  }

  lemma GoodLettersAToG(c: char)
    requires c in "ABCDEFG"
    ensures GoodEntry(c)
  {
    match c
    case 'A' =>
    case 'B' =>
    case 'C' =>
    case 'D' =>
    case 'E' =>
    case 'F' =>
    case 'G' =>
    case _ =>
  }

  lemma GoodLettersHToN(c: char)
    requires c in "HIJKLMN"
    ensures GoodEntry(c)
  {
    match c
    case 'H' =>
    case 'I' =>
    case 'J' =>
    case 'K' =>
    case 'L' =>
    case 'M' =>
    case 'N' =>
    case _ =>
  }

  lemma GoodLettersOToT(c: char)
    requires c in "OPQRST"
    ensures GoodEntry(c)
  {
    match c
    case 'O' =>
    case 'P' =>
    case 'Q' =>
    case 'R' =>
    case 'S' =>
    case 'T' =>
    case _ =>
  }

  lemma GoodLettersUToZ(c: char)
    requires c in "UVWXYZ"
    ensures GoodEntry(c)
  {
    match c
    case 'U' =>
    case 'V' =>
    case 'W' =>
    case 'X' =>
    case 'Y' =>
    case 'Z' =>
    case _ =>
  }

  lemma GoodDigitsZeroToFour(c: char)
    requires c in "01234"
    ensures GoodEntry(c)
  {
    match c
    case '0' =>
    case '1' =>
    case '2' =>
    case '3' =>
    case '4' =>
    case _ =>
  }

  lemma GoodDigitsFiveToNine(c: char)
    requires c in "56789"
    ensures GoodEntry(c)
  {
    match c
    case '5' =>
    case '6' =>
    case '7' =>
    case '8' =>
    case '9' =>
    case _ =>
  }

  lemma GoodPunctuationRowOne(c: char)
    requires c in ".,?'!"
    ensures GoodEntry(c)
  {
    match c
    case '.' =>
    case ',' =>
    case '?' =>
    case '\'' =>
    case '!' =>
    case _ =>
  }

  lemma GoodPunctuationRowTwo(c: char)
    requires c in "/()&:"
    ensures GoodEntry(c)
  {
    match c
    case '/' =>
    case '(' =>
    case ')' =>
    case '&' =>
    case ':' =>
    case _ =>
  }

  lemma GoodPunctuationRowThree(c: char)
    requires c in ";=+-_"
    ensures GoodEntry(c)
  {
    match c
    case ';' =>
    case '=' =>
    case '+' =>
    case '-' =>
    case '_' =>
    case _ =>
  }

  lemma GoodPunctuationRowFour(c: char)
    requires c in "\"$@ "
    ensures GoodEntry(c)
  {
    match c
    case '"' =>
    case '$' =>
    case '@' =>
    case ' ' =>
    case _ =>
  }

  /** Every key is a good entry. */
  lemma KeyIsGood(c: char)
    requires c in Keys
    ensures GoodEntry(c)
  {
    if c in "ABCDEFG" {
      GoodLettersAToG(c);
    } else if c in "HIJKLMN" {
      GoodLettersHToN(c);
    } else if c in "OPQRST" {
      GoodLettersOToT(c);
    } else if c in "UVWXYZ" {
      GoodLettersUToZ(c);
    } else if c in "01234" {
      GoodDigitsZeroToFour(c);
    } else if c in "56789" {
      GoodDigitsFiveToNine(c);
    } else if c in ".,?'!" {
      GoodPunctuationRowOne(c);
    } else if c in "/()&:" {
      GoodPunctuationRowTwo(c);
    } else if c in ";=+-_" {
      GoodPunctuationRowThree(c);
    } else if c in "\"$@ " {
      GoodPunctuationRowFour(c);
    }
  }

  /** Every code is non-empty; the space, and only the space, has the word
      marker `/`; every other code is dots and dashes. */
  lemma CodeShape(c: char)
    requires Code(c).Some?
    ensures c == ' ' ==> Code(c).value == "/"
    ensures c != ' ' ==> IsSignals(Code(c).value)
  {
    CodedAreKeys(c);
    KeyIsGood(c);
  }

  /** `Inverse` undoes `Code` ... */
  lemma InverseOfCode(c: char)
    requires Code(c).Some?
    ensures Inverse(Code(c).value) == Some(c)
  {
    CodedAreKeys(c);
    KeyIsGood(c);
  }

  lemma ShortCodeOfInverse(code: string)
    requires Inverse(code).Some? && |code| <= 4
    ensures Code(Inverse(code).value) == Some(code)
  {
    match code
    case ".-" =>
    case "-..." =>
    case "-.-." =>
    case "-.." =>
    case "." =>
    case "..-." =>
    case "--." =>
    case "...." =>
    case ".." =>
    case ".---" =>
    case "-.-" =>
    case ".-.." =>
    case "--" =>
    case "-." =>
    case "---" =>
    case ".--." =>
    case "--.-" =>
    case ".-." =>
    case "..." =>
    case "-" =>
    case "..-" =>
    case "...-" =>
    case ".--" =>
    case "-..-" =>
    case "-.--" =>
    case "--.." =>
    case "/" =>
    case _ =>
  }

  lemma FiveCodeOfInverse(code: string)
    requires Inverse(code).Some? && |code| == 5
    ensures Code(Inverse(code).value) == Some(code)
  {
    match code
    case "-----" =>
    case ".----" =>
    case "..---" =>
    case "...--" =>
    case "....-" =>
    case "....." =>
    case "-...." =>
    case "--..." =>
    case "---.." =>
    case "----." =>
    case "-..-." =>
    case "-.--." =>
    case ".-..." =>
    case "-...-" =>
    case ".-.-." =>
    case _ =>
  }

  lemma LongCodeOfInverse(code: string)
    requires Inverse(code).Some? && |code| > 5
    ensures Code(Inverse(code).value) == Some(code)
  {
    match code
    case ".-.-.-" =>
    case "--..--" =>
    case "..--.." =>
    case ".----." =>
    case "-.-.--" =>
    case "-.--.-" =>
    case "---..." =>
    case "-.-.-." =>
    case "-....-" =>
    case "..--.-" =>
    case ".-..-." =>
    case "...-..-" =>
    case ".--.-." =>
    case _ =>
  }

  /** ... and `Code` undoes `Inverse`. */
  lemma CodeOfInverse(code: string)
    requires Inverse(code).Some?
    ensures Code(Inverse(code).value) == Some(code)
  {
    if |code| <= 4 {
      ShortCodeOfInverse(code);
    } else if |code| == 5 {
      FiveCodeOfInverse(code);
    } else {
      LongCodeOfInverse(code);
    }
  }

  /** No two characters share a code. */
  lemma CodeInjective(a: char, b: char)
    requires Code(a).Some? && Code(a) == Code(b)
    ensures a == b
  {
    InverseOfCode(a);
    InverseOfCode(b);
  }

  // ---------------------------------------------------------------------
  // the reverse table

  /** The reverse table holds exactly the codes of the keys it was filled
      from, each mapped to a key with that code. */
  lemma {:induction false} ReverseTableEntries(keys: string, code: string)
    ensures code in ReverseTable(keys) <==>
      exists i :: 0 <= i < |keys| && Code(keys[i]) == Some(code)
    ensures code in ReverseTable(keys) ==> Code(ReverseTable(keys)[code]) == Some(code)
    decreases |keys|
  {
    if keys != [] {
      var init := keys[..|keys| - 1];
      var k := keys[|keys| - 1];
      ReverseTableEntries(init, code);
      if exists i :: 0 <= i < |keys| && Code(keys[i]) == Some(code) {
        var i :| 0 <= i < |keys| && Code(keys[i]) == Some(code);
        if i < |init| {
          assert init[i] == keys[i];
        }
      }
      if exists i :: 0 <= i < |init| && Code(init[i]) == Some(code) {
        var i :| 0 <= i < |init| && Code(init[i]) == Some(code);
        assert keys[i] == init[i];
      }
    }
  }

  /** Reading the reverse table is reading the table backwards: it finds
      exactly the codes of the table, each at its own character. */
  lemma ReverseIsInverse(code: string)
    ensures Reverse(code) == Inverse(code)
  {
    ReverseTableEntries(Keys, code);
    var table := ReverseTable(Keys);
    if Inverse(code).Some? {
      var c := Inverse(code).value;
      CodeOfInverse(code);
      CodedAreKeys(c);
      var i :| 0 <= i < |Keys| && Keys[i] == c;
      assert Code(Keys[i]) == Some(code);
      InverseOfCode(table[code]);
    } else if code in table {
      InverseOfCode(table[code]);
    }
  }
}
