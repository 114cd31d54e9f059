/** `encodeToMorse` and `decodeFromMorse` of the Morse page
    (js/translations.js).

    Encoding uppercases the text, writes `/` for a space and the table code
    for a known character, passes any other character through as its own
    token, and joins the tokens with single spaces. Decoding turns the two
    typographic glyphs (the bullet U+2022 and the en dash U+2013) into a dot
    and a dash, collapses white-space runs to one space, trims, splits at the
    spaces and reads each token back: `/` is a space, a known code is its
    character, anything else is kept in brackets. */
module MorseCodec {
  import opened Wrappers
  import opened StringOps
  import opened MorseTable

  // ---------------------------------------------------------------------
  // encoding

  /** The token `encodeToMorse` writes for one character of the uppercased
      text. */
  function EncodeChar(c: char): string
  {
    if c == ' ' then "/"
    else
      match Code(c)
      case Some(m) => m
      case None => [c]
  }

  /** The tokens of an uppercased text, one per character. */
  function EncodeTokens(u: string): (tokens: seq<string>)
    ensures |tokens| == |u|
    ensures forall i :: 0 <= i < |u| ==> tokens[i] == EncodeChar(u[i])
  {
    if u == [] then [] else [EncodeChar(u[0])] + EncodeTokens(u[1..])
  }

  /** `encodeToMorse(text)`. */
  function Encode(text: string): string
  {
    Join(EncodeTokens(Upper(text)), " ")
  }

  // ---------------------------------------------------------------------
  // decoding

  const Bullet: char := '•'
  const EnDash: char := '–'

  /** The two glyph substitutions, bullets first. */
  function ReplaceGlyphs(morse: string): string
  {
    ReplaceAll(ReplaceAll(morse, [Bullet], "."), [EnDash], "-")
  }

  /** `normalizedMorse`: glyphs replaced, white-space runs collapsed to one
      space, then trimmed. */
  function Normalise(morse: string): string
  {
    Trim(Collapse(ReplaceGlyphs(morse)))
  }

  /** What one token of the normalised input decodes to, read against the
      reverse table; stated against the table read backwards. */
  function DecodeToken(t: string): (r: string)
    ensures t == "/" ==> r == " "
    ensures t != "/" && Inverse(t).Some? ==> r == [Inverse(t).value]
    ensures t != "/" && Inverse(t).None? ==> r == "[" + t + "]"
  {
    ReverseIsInverse(t);
    if t == "/" then " "
    else
      match Reverse(t)
      case Some(k) => [k]
      case None => "[" + t + "]"
  }

  function DecodeTokens(ts: seq<string>): (r: seq<string>)
    ensures |r| == |ts|
    ensures forall i :: 0 <= i < |ts| ==> r[i] == DecodeToken(ts[i])
  {
    if ts == [] then [] else [DecodeToken(ts[0])] + DecodeTokens(ts[1..])
  }

  /** `decodeFromMorse(morse)`. */
  function Decode(morse: string): string
  {
    Join(DecodeTokens(Split(Normalise(morse), ' ')), "")
  }

  // ---------------------------------------------------------------------
  // what encoding produces

  /** A character with a code is written as that code. */
  lemma EncodeKnown(c: char)
    requires Code(c).Some?
    ensures EncodeChar(c) == Code(c).value
  {
    if c == ' ' {
      CodeShape(c);
    }
  }

  /** A character with no code is written as itself. */
  lemma EncodeUnknown(c: char)
    requires Code(c).None?
    ensures EncodeChar(c) == [c]
  {
  }

  /** No token holds the separator space. */
  lemma TokenHasNoSpace(c: char)
    ensures ' ' !in EncodeChar(c)
  {
    if c != ' ' && Code(c).Some? {
      CodeShape(c);
    }
  }

  /** `encodeToMorse` writes exactly one token per character of the text, in
      order, separated by single spaces: splitting its output at the spaces
      gives back the token of every character. The empty text gives the empty
      string. */
  lemma EncodeIsTokens(text: string)
    ensures text == [] ==> Encode(text) == []
    ensures text != [] ==> Split(Encode(text), ' ') == EncodeTokens(Upper(text))
    ensures |Split(Encode(text), ' ')| == if text == [] then 1 else |text|
  {
    var tokens := EncodeTokens(Upper(text));
    if text != [] {
      forall k | 0 <= k < |tokens|
        ensures ' ' !in tokens[k]
      {
        TokenHasNoSpace(Upper(text)[k]);
      }
      SplitJoin(tokens, ' ');
    }
  }

  /** A lowercase letter is written like its capital. */
  lemma EncodeIgnoresCase(text: string)
    ensures Encode(text) == Encode(Upper(text))
  {
    UpperIdempotent(text);
  }

  lemma UpperIdempotent(s: string)
    ensures Upper(Upper(s)) == Upper(s)
  {
  }

  // ---------------------------------------------------------------------
  // the glyph substitutions are a character map

  function GlyphChar(c: char): char
  {
    if c == Bullet then '.' else if c == EnDash then '-' else c
  }

  lemma ReplaceGlyphsPointwise(s: string)
    ensures |ReplaceGlyphs(s)| == |s|
    ensures forall i :: 0 <= i < |s| ==> ReplaceGlyphs(s)[i] == GlyphChar(s[i])
  {
    ReplaceChar(s, Bullet, '.');
    ReplaceChar(ReplaceAll(s, [Bullet], "."), EnDash, '-');
  }

  lemma ReplaceGlyphsAppend(a: string, b: string)
    ensures ReplaceGlyphs(a + b) == ReplaceGlyphs(a) + ReplaceGlyphs(b)
  {
    ReplaceGlyphsPointwise(a);
    ReplaceGlyphsPointwise(b);
    ReplaceGlyphsPointwise(a + b);
  }

  /** White space stays white space and nothing else becomes white space. */
  lemma ReplaceGlyphsSpaces(s: string)
    ensures |ReplaceGlyphs(s)| == |s|
    ensures AllSpace(s) ==> ReplaceGlyphs(s) == s
    ensures forall i :: 0 <= i < |s| ==> (IsSpace(ReplaceGlyphs(s)[i]) <==> IsSpace(s[i]))
  {
    ReplaceGlyphsPointwise(s);
  }

  /** A string without glyphs is left alone. */
  lemma ReplaceGlyphsNone(s: string)
    requires Bullet !in s && EnDash !in s
    ensures ReplaceGlyphs(s) == s
  {
    ReplaceGlyphsPointwise(s);
  }

  // ---------------------------------------------------------------------
  // decoding, read word by word

  /** Decoding reads the words of the input, after the glyph substitutions,
      one token per word; an input without words decodes to `[]`. */
  lemma DecodeByWords(morse: string)
    ensures var w := Words(ReplaceGlyphs(morse));
      Decode(morse) == if w == [] then "[]" else Join(DecodeTokens(w), "")
  {
    var g := ReplaceGlyphs(morse);
    var w := Words(g);
    NormaliseIsWords(g);
    if w == [] {
      assert Normalise(morse) == [];
      assert DecodeTokens([[]]) == [DecodeToken([])];
      assert Inverse([]) == None;
    } else {
      WordsShape(g);
      assert forall k :: 0 <= k < |w| ==> ' ' !in w[k];
      SplitJoin(w, ' ');
    }
  }

  /** Inputs whose words agree decode alike. */
  lemma DecodeSameWords(a: string, b: string)
    requires Words(ReplaceGlyphs(a)) == Words(ReplaceGlyphs(b))
    ensures Decode(a) == Decode(b)
  {
    DecodeByWords(a);
    DecodeByWords(b);
  }

  /** Input that is one token, free of white space and glyphs, decodes as
      that token. */
  lemma DecodeOneToken(t: string)
    requires t != [] && NoSpace(t)
    requires Bullet !in t && EnDash !in t
    ensures Decode(t) == DecodeToken(t)
  {
    ReplaceGlyphsNone(t);
    WordsOfWord(t);
    DecodeByWords(t);
    assert DecodeTokens([t]) == [DecodeToken(t)];
  }

  /** Empty or blank input decodes to `[]`, never to a failure. */
  lemma DecodeBlank(morse: string)
    requires AllSpace(morse)
    ensures Decode(morse) == "[]"
  {
    ReplaceGlyphsSpaces(morse);
    TrimStartSpaces(morse, []);
    assert morse + [] == morse;
    WordsTrimStart(morse);
    DecodeByWords(morse);
  }

  /** White space around the input is ignored. */
  lemma DecodeIgnoresPadding(lead: string, morse: string, trail: string)
    requires AllSpace(lead) && AllSpace(trail)
    ensures Decode(lead + morse + trail) == Decode(morse)
  {
    var g := ReplaceGlyphs(morse);
    ReplaceGlyphsAppend(lead, morse);
    ReplaceGlyphsAppend(lead + morse, trail);
    ReplaceGlyphsSpaces(lead);
    ReplaceGlyphsSpaces(trail);
    assert ReplaceGlyphs(lead + morse + trail) == lead + g + trail;
    assert lead + g + trail == lead + (g + trail);
    TrimStartSpaces(lead, g + trail);
    WordsTrimStart(lead + g + trail);
    WordsTrimStart(g + trail);
    WordsAppendSpace(g, trail);
    DecodeSameWords(lead + morse + trail, morse);
  }

  /** Decoding reads the trimmed input. */
  lemma DecodeTrimmed(morse: string)
    ensures Decode(morse) == Decode(Trim(morse))
  {
    var s := TrimStart(morse);
    TrimStartShape(morse);
    TrimEndShape(s);
    var lead := morse[..|morse| - |s|];
    var trail := s[|Trim(morse)|..];
    assert morse == lead + Trim(morse) + trail;
    DecodeIgnoresPadding(lead, Trim(morse), trail);
  }

  /** The length of a white-space run inside the input is ignored. */
  lemma DecodeIgnoresRunLength(x: string, run1: string, run2: string, y: string)
    requires run1 != [] && AllSpace(run1)
    requires run2 != [] && AllSpace(run2)
    ensures Decode(x + run1 + y) == Decode(x + run2 + y)
  {
    var gx, gy := ReplaceGlyphs(x), ReplaceGlyphs(y);
    ReplaceGlyphsSpaces(run1);
    ReplaceGlyphsSpaces(run2);
    ReplaceGlyphsAppend(x, run1);
    ReplaceGlyphsAppend(x + run1, y);
    ReplaceGlyphsAppend(x, run2);
    ReplaceGlyphsAppend(x + run2, y);
    WordsAcrossSpace(gx, run1, gy);
    WordsAcrossSpace(gx, run2, gy);
    DecodeSameWords(x + run1 + y, x + run2 + y);
  }

  /** A bullet reads as a dot and an en dash as a dash. */
  lemma DecodeGlyphs(x: string, y: string)
    ensures Decode(x + [Bullet] + y) == Decode(x + "." + y)
    ensures Decode(x + [EnDash] + y) == Decode(x + "-" + y)
  {
    ReplaceGlyphsAppend(x, [Bullet]);
    ReplaceGlyphsAppend(x + [Bullet], y);
    ReplaceGlyphsAppend(x, ".");
    ReplaceGlyphsAppend(x + ".", y);
    ReplaceGlyphsAppend(x, [EnDash]);
    ReplaceGlyphsAppend(x + [EnDash], y);
    ReplaceGlyphsAppend(x, "-");
    ReplaceGlyphsAppend(x + "-", y);
    ReplaceGlyphsPointwise([Bullet]);
    ReplaceGlyphsPointwise(".");
    ReplaceGlyphsPointwise([EnDash]);
    ReplaceGlyphsPointwise("-");
    DecodeSameWords(x + [Bullet] + y, x + "." + y);
    DecodeSameWords(x + [EnDash] + y, x + "-" + y);
  }

  // ---------------------------------------------------------------------
  // the round trip

  /** A token written for a character with a code holds only dots, dashes
      and the word marker. */
  lemma KnownTokenChars(c: char, d: char)
    requires Code(c).Some?
    requires d in EncodeChar(c)
    ensures d == '.' || d == '-' || d == '/'
  {
    EncodeKnown(c);
    CodeShape(c);
  }

  /** The token written for a character with a code reads back as that
      character. */
  lemma DecodeOwnToken(c: char)
    requires Code(c).Some?
    ensures DecodeToken(EncodeChar(c)) == [c]
  {
    EncodeKnown(c);
    CodeShape(c);
    if c != ' ' {
      InverseOfCode(c);
      assert EncodeChar(c) != "/" by {
        assert IsSignal(EncodeChar(c)[0]);
      }
    }
  }

  lemma DecodeTokensCons(t: string, ts: seq<string>)
    ensures DecodeTokens([t] + ts) == [DecodeToken(t)] + DecodeTokens(ts)
  {
    assert ([t] + ts)[1..] == ts;
  }

  /** Tokens that each read back as one character decode, joined, to those
      characters. */
  lemma {:induction false} DecodeEachToken(ts: seq<string>, u: string)
    requires |ts| == |u|
    requires forall i :: 0 <= i < |ts| ==> DecodeToken(ts[i]) == [u[i]]
    ensures Join(DecodeTokens(ts), "") == u
    decreases |ts|
  {
    if ts != [] {
      DecodeTokensCons(ts[0], ts[1..]);
      assert [ts[0]] + ts[1..] == ts;
      DecodeEachToken(ts[1..], u[1..]);
      if |ts| > 1 {
        JoinCons([u[0]], DecodeTokens(ts[1..]), "");
      }
      assert u == [u[0]] + u[1..];
    }
  }

  /** Decoding the encoding of a non-empty text made of table characters
      (lowercase letters allowed) gives the uppercased text back. */
  lemma RoundTrip(text: string)
    requires text != []
    requires forall i :: 0 <= i < |text| ==> Code(UpperChar(text[i])).Some?
    ensures Decode(Encode(text)) == Upper(text)
  {
    var u := Upper(text);
    var tokens := EncodeTokens(u);
    var e := Encode(text);
    forall d | d in e
      ensures d == '.' || d == '-' || d == '/' || d == ' '
    {
      JoinMembers(tokens, " ", d);
      if d !in " " {
        var k :| 0 <= k < |tokens| && d in tokens[k];
        KnownTokenChars(u[k], d);
      }
    }
    ReplaceGlyphsNone(e);
    forall k | 0 <= k < |tokens|
      ensures tokens[k] != [] && NoSpace(tokens[k])
    {
      EncodeKnown(u[k]);
      CodeShape(u[k]);
      forall i | 0 <= i < |tokens[k]|
        ensures !IsSpace(tokens[k][i])
      {
        KnownTokenChars(u[k], tokens[k][i]);
      }
    }
    WordsOfJoin(tokens);
    DecodeByWords(e);
    forall k | 0 <= k < |tokens|
      ensures DecodeToken(tokens[k]) == [u[k]]
    {
      DecodeOwnToken(u[k]);
    }
    DecodeEachToken(tokens, u);
  }

  // ---------------------------------------------------------------------
  // the glyph substitutions as the page writes them

  /** The two substitutions as the page's source spells them: each pattern is
      the three characters that the UTF-8 bytes of the glyph become when read
      as Windows-1252 (U+00E2 U+20AC U+00A2 for the bullet, U+00E2 U+20AC
      U+201C for the en dash). */
  function ReplaceGlyphsAsWritten(morse: string): string
  {
    ReplaceAll(ReplaceAll(morse, "â€¢", "."), "â€“", "-")
  }

  /** `decodeFromMorse` with the substitutions as written. */
  function DecodeAsWritten(morse: string): string
  {
    Join(DecodeTokens(Split(Trim(Collapse(ReplaceGlyphsAsWritten(morse))), ' ')), "")
  }

  /** As written, a bullet typed by the user is not read as a dot: it
      survives as an unknown token. */
  lemma AsWrittenKeepsBullet()
    ensures DecodeAsWritten([Bullet]) == "[•]"
  {
    var b: string := [Bullet];
    assert ReplaceGlyphsAsWritten(b) == b;
    assert Collapse(b) == b;
    assert Trim(b) == b;
    assert Split(b, ' ') == [b];
    assert Inverse(b) == None;
    assert DecodeTokens([b]) == ["[" + b + "]"];
  }

  /** With the intended substitution the same input reads as `E`. */
  lemma DecodeReadsBullet()
    ensures Decode([Bullet]) == "E"
  {
    DecodeGlyphs([], []);
    assert [] + [Bullet] + [] == [Bullet];
    assert [] + "." + [] == ".";
    DecodeOneToken(".");
    assert Inverse(".") == Some('E');
  }
}
