/** The pure helpers of the text translation page (js/translations.js): the
    language swap, the keyword-based language guess, language names, the
    offline phrase substitution used when the translation service fails,
    and the page's bounded translation history. */
module TextTranslation {
  import opened Wrappers
  import opened StringOps
  import opened MostRecentFirst

  // ---------------------------------------------------------------------
  // swapping the two language selectors

  /** `swapLanguages()` on the selector values: the pair (new source, new
      target). A source of `auto` cannot become the target's language, so
      the new source falls back to English. */
  function SwapLanguages(source: string, target: string): (r: (string, string))
  {
    var newSource := if target == "auto" then "en" else target;
    (newSource, source)
  }

  /** The new source is never `auto`, and the old source always becomes the
      target. */
  lemma SwapNeverAuto(source: string, target: string)
    ensures SwapLanguages(source, target).0 != "auto"
    ensures SwapLanguages(source, target).1 == source
  {
  }

  /** Without `auto` on either side, swapping twice restores both selectors. */
  lemma SwapTwice(source: string, target: string)
    requires source != "auto" && target != "auto"
    ensures var (s, t) := SwapLanguages(source, target);
      SwapLanguages(s, t) == (source, target)
  {
  }

  // ---------------------------------------------------------------------
  // guessing the language

  /** The keyword lists of `detectLanguage`, in their order. */
  const Keywords: seq<(string, seq<string>)> := [
    ("en", ["the", "and", "is", "are", "hello"]),
    ("es", ["el", "la", "y", "hola", "gracias"]),
    ("fr", ["le", "la", "et", "bonjour", "merci"]),
    ("de", ["der", "die", "das", "und", "hallo"])
  ]

  /** `words.some(word => lowered.includes(word))`. */
  predicate Mentions(lowered: string, words: seq<string>)
  {
    exists i :: 0 <= i < |words| && Contains(lowered, words[i])
  }

  /** The language of the first list with a keyword in `lowered`. */
  function FirstMention(lowered: string, table: seq<(string, seq<string>)>): Option<string>
  {
    if table == [] then None
    else if Mentions(lowered, table[0].1) then Some(table[0].0)
    else FirstMention(lowered, table[1..])
  }

  /** `detectLanguage(text)`: the first language in the order en, es, fr,
      de with a keyword inside the lowercased text, else English. */
  function DetectLanguage(text: string): string
  {
    match FirstMention(Lower(text), Keywords)
    case Some(lang) => lang
    case None => "en"
  }

  /** `FirstMention` finds the first list with a keyword and nothing before
      it, or reports that no list has one. */
  lemma {:induction false} FirstMentionIsFirst(lowered: string, table: seq<(string, seq<string>)>)
    ensures FirstMention(lowered, table).Some? ==>
      exists k :: 0 <= k < |table| && table[k].0 == FirstMention(lowered, table).value &&
        Mentions(lowered, table[k].1) &&
        forall j :: 0 <= j < k ==> !Mentions(lowered, table[j].1)
    ensures FirstMention(lowered, table).None? <==>
      forall k :: 0 <= k < |table| ==> !Mentions(lowered, table[k].1)
    decreases |table|
  {
    if table != [] {
      FirstMentionIsFirst(lowered, table[1..]);
      if !Mentions(lowered, table[0].1) && FirstMention(lowered, table).Some? {
        var k :| 0 <= k < |table[1..]| && table[1..][k].0 == FirstMention(lowered, table).value &&
          Mentions(lowered, table[1..][k].1) &&
          forall j :: 0 <= j < k ==> !Mentions(lowered, table[1..][j].1);
        assert table[k + 1] == table[1..][k];
        forall j | 0 <= j < k + 1
          ensures !Mentions(lowered, table[j].1)
        {
          if j > 0 {
            assert table[j] == table[1..][j - 1];
          }
        }
      }
      if FirstMention(lowered, table).None? {
        forall k | 0 <= k < |table|
          ensures !Mentions(lowered, table[k].1)
        {
          if k > 0 {
            assert table[k] == table[1..][k - 1];
          }
        }
      }
      if forall k :: 0 <= k < |table| ==> !Mentions(lowered, table[k].1) {
        assert forall k :: 0 <= k < |table[1..]| ==> table[1..][k] == table[k + 1];
      }
    }
  }

  /** The `k`-th keyword list is the first one mentioned in `lowered`. */
  predicate FirstMentioned(lowered: string, k: int)
  {
    0 <= k < |Keywords| && Mentions(lowered, Keywords[k].1) &&
    forall j :: 0 <= j < k ==> !Mentions(lowered, Keywords[j].1)
  }

  /** The guess is the language of the first keyword list mentioned in the
      lowercased text, and English when none is. */
  lemma DetectLanguageIsFirstMention(text: string)
    ensures (forall k :: 0 <= k < |Keywords| ==> !Mentions(Lower(text), Keywords[k].1)) ==>
      DetectLanguage(text) == "en"
    ensures forall k :: FirstMentioned(Lower(text), k) ==> DetectLanguage(text) == Keywords[k].0
  {
    var lowered := Lower(text);
    FirstMentionIsFirst(lowered, Keywords);
    forall k | FirstMentioned(lowered, k)
      ensures DetectLanguage(text) == Keywords[k].0
    {
      var m :| 0 <= m < |Keywords| && Keywords[m].0 == FirstMention(lowered, Keywords).value &&
        Mentions(lowered, Keywords[m].1) &&
        forall j :: 0 <= j < m ==> !Mentions(lowered, Keywords[j].1);
      assert m == k;
    }
  }

  /** The guess is always one of the four listed languages. */
  lemma DetectLanguageIsListed(text: string)
    ensures DetectLanguage(text) in {"en", "es", "fr", "de"}
  {
    var lowered := Lower(text);
    FirstMentionIsFirst(lowered, Keywords);
    if FirstMention(lowered, Keywords).Some? {
      var k :| 0 <= k < |Keywords| && Keywords[k].0 == FirstMention(lowered, Keywords).value &&
        Mentions(lowered, Keywords[k].1) &&
        forall j :: 0 <= j < k ==> !Mentions(lowered, Keywords[j].1);
    }
  }

  // ---------------------------------------------------------------------
  // language names

  const LanguageNames: map<string, string> := map[
    "en" := "English", "es" := "Spanish", "fr" := "French", "de" := "German",
    "it" := "Italian", "pt" := "Portuguese", "ru" := "Russian", "zh" := "Chinese",
    "ja" := "Japanese", "ko" := "Korean", "hi" := "Hindi", "ar" := "Arabic",
    "auto" := "Auto-detect"
  ]

  /** `getLanguageName(code)`: the listed name, or the code itself. */
  function LanguageName(code: string): string
  {
    if code in LanguageNames then LanguageNames[code] else code
  }

  /** The name is the code itself exactly when the code is not listed. */
  lemma LanguageNameFallback(code: string)
    ensures LanguageName(code) == code <==> code !in LanguageNames
    ensures LanguageName(code) == [] <==> code == []
  {
    if code in LanguageNames {
      assert LanguageNames[code] != code;
    }
  }

  // ---------------------------------------------------------------------
  // the offline phrase substitution

  /** The phrase lists of `simulateTranslation` per language pair, in their
      order, with the Spanish accents spelled as the page's source spells
      them. */
  const PhraseTables: seq<(string, seq<(string, string)>)> := [
    ("en-es", [
      ("hello", "hola"),
      ("how are you", "cÃ³mo estÃ¡s"),
      ("thank you", "gracias"),
      ("good morning", "buenos dÃ­as"),
      ("good night", "buenas noches")]),
    ("en-fr", [
      ("hello", "bonjour"),
      ("how are you", "comment allez-vous"),
      ("thank you", "merci"),
      ("good morning", "bonjour"),
      ("good night", "bonne nuit")])
  ]

  predicate NonEmptyPhrases(phrases: seq<(string, string)>)
  {
    forall i :: 0 <= i < |phrases| ==> phrases[i].0 != []
  }

  /** `translations[key] || {}`. */
  function PhrasesFor(key: string, tables: seq<(string, seq<(string, string)>)>): (r: seq<(string, string)>)
    requires forall t :: 0 <= t < |tables| ==> NonEmptyPhrases(tables[t].1)
    ensures NonEmptyPhrases(r)
  {
    if tables == [] then []
    else if tables[0].0 == key then tables[0].1
    else PhrasesFor(key, tables[1..])
  }

  /** Each phrase replaced everywhere, one after the other, in order. */
  function ReplacePhrases(text: string, phrases: seq<(string, string)>): string
    requires NonEmptyPhrases(phrases)
    decreases |phrases|
  {
    if phrases == [] then text
    else ReplacePhrases(ReplaceAll(text, phrases[0].0, phrases[0].1), phrases[1..])
  }

  /** `t.charAt(0).toUpperCase() + t.slice(1)`: the same text up to case,
      no longer starting with a lowercase letter, and changed nowhere else. */
  function Capitalise(t: string): (r: string)
    ensures |r| == |t|
    ensures r != [] ==> !('a' <= r[0] <= 'z')
    ensures Lower(r) == Lower(t)
    ensures forall i :: 1 <= i < |t| ==> r[i] == t[i]
  {
    if t == [] then [] else
      var r := [UpperChar(t[0])] + t[1..];
      assert LowerChar(r[0]) == LowerChar(t[0]);
      assert forall i :: 1 <= i < |t| ==> r[i] == t[i];
      assert Lower(r) == Lower(t) by {
        assert forall i :: 0 <= i < |t| ==> Lower(r)[i] == Lower(t)[i];
      }
      r
  }

  /** The phrase list of the pair `fromLang-toLang`. */
  function PairPhrases(fromLang: string, toLang: string): (r: seq<(string, string)>)
    ensures NonEmptyPhrases(r)
  {
    PhrasesFor(fromLang + "-" + toLang, PhraseTables)
  }

  /** `simulateTranslation(text, fromLang, toLang)`. */
  function SimulateTranslation(text: string, fromLang: string, toLang: string): string
  {
    Capitalise(ReplacePhrases(Lower(text), PairPhrases(fromLang, toLang)))
  }

  /** A key that no table is filed under finds no phrases. */
  lemma {:induction false} PhrasesForMissing(key: string, tables: seq<(string, seq<(string, string)>)>)
    requires forall t :: 0 <= t < |tables| ==> NonEmptyPhrases(tables[t].1)
    requires forall t :: 0 <= t < |tables| ==> tables[t].0 != key
    ensures PhrasesFor(key, tables) == []
    decreases |tables|
  {
    if tables != [] {
      PhrasesForMissing(key, tables[1..]);
    }
  }

  /** A pair without a phrase list only lowercases the text and capitalises
      its first letter. */
  lemma UnknownPairOnlyRecases(text: string, fromLang: string, toLang: string)
    requires fromLang + "-" + toLang != "en-es" && fromLang + "-" + toLang != "en-fr"
    ensures SimulateTranslation(text, fromLang, toLang) == Capitalise(Lower(text))
  {
    PhrasesForMissing(fromLang + "-" + toLang, PhraseTables);
  }

  /** Replacing phrases none of which occur changes nothing. */
  lemma {:induction false} ReplaceAbsentPhrases(text: string, phrases: seq<(string, string)>)
    requires NonEmptyPhrases(phrases)
    requires forall i :: 0 <= i < |phrases| ==> !Contains(text, phrases[i].0)
    ensures ReplacePhrases(text, phrases) == text
    decreases |phrases|
  {
    if phrases != [] {
      ReplaceAbsent(text, phrases[0].0, phrases[0].1);
      ReplaceAbsentPhrases(text, phrases[1..]);
    }
  }

  /** A text mentioning none of the pair's phrases is only recased. */
  lemma NoPhraseOnlyRecases(text: string, fromLang: string, toLang: string)
    requires forall i :: 0 <= i < |PairPhrases(fromLang, toLang)| ==>
      !Contains(Lower(text), PairPhrases(fromLang, toLang)[i].0)
    ensures SimulateTranslation(text, fromLang, toLang) == Capitalise(Lower(text))
  {
    ReplaceAbsentPhrases(Lower(text), PairPhrases(fromLang, toLang));
  }

  /** The pair `en`, `fr` reads the French list. */
  lemma FrenchPhrases()
    ensures PairPhrases("en", "fr") == PhraseTables[1].1
  {
    assert "en" + "-" + "fr" == "en-fr";
    assert PhraseTables[1..] == [PhraseTables[1]];
  }

  /** The pair `en`, `es` reads the Spanish list. */
  lemma SpanishPhrases()
    ensures PairPhrases("en", "es") == PhraseTables[0].1
  {
    assert "en" + "-" + "es" == "en-es";
  }

  /** A text that opens with the first phrase of a list, where neither the
      rest of the text holds that phrase nor the replacement followed by the
      rest holds any later one, becomes the replacement followed by the
      rest. */
  lemma LeadingPhraseReplaced(rest: string, ps: seq<(string, string)>)
    requires NonEmptyPhrases(ps) && ps != []
    requires !Contains(rest, ps[0].0)
    requires forall i :: 1 <= i < |ps| ==> !Contains(ps[0].1 + rest, ps[i].0)
    ensures ReplacePhrases(ps[0].0 + rest, ps) == ps[0].1 + rest
  {
    ReplaceAtStart(ps[0].0, rest, ps[0].1);
    ReplaceAbsent(rest, ps[0].0, ps[0].1);
    assert ReplaceAll(ps[0].0 + rest, ps[0].0, ps[0].1) == ps[0].1 + rest;
    assert forall i :: 0 <= i < |ps[1..]| ==> ps[1..][i] == ps[i + 1];
    ReplaceAbsentPhrases(ps[0].1 + rest, ps[1..]);
  }

  /** Capitalising only touches the first character. */
  lemma CapitaliseLead(g: string, rest: string)
    requires g != []
    ensures Capitalise(g + rest) == Capitalise(g) + rest
  {
    assert (g + rest)[1..] == g[1..] + rest;
  }

  /** None of the later phrases of the pair's list occurs in its greeting
      followed by a rest that holds none of them. */
  lemma LaterPhrasesAbsent(toLang: string, rest: string)
    requires toLang == "es" || toLang == "fr"
    requires forall i :: 0 <= i < |PairPhrases("en", toLang)| ==>
      !Contains(rest, PairPhrases("en", toLang)[i].0)
    ensures var ps := PairPhrases("en", toLang);
      forall i :: 1 <= i < |ps| ==> !Contains(ps[0].1 + rest, ps[i].0)
  {
    var ps := PairPhrases("en", toLang);
    if toLang == "es" { SpanishPhrases(); } else { FrenchPhrases(); }
    forall i | 1 <= i < |ps|
      ensures !Contains(ps[0].1 + rest, ps[i].0)
    {
      LeadNotStraddled(ps[0].1, rest, ps[i].0);
    }
  }

  /** The first phrase of both lists is `hello`, replaced by the greeting. */
  lemma GreetingFirst(toLang: string)
    requires toLang == "es" || toLang == "fr"
    ensures PairPhrases("en", toLang) != []
    ensures PairPhrases("en", toLang)[0] ==
      ("hello", if toLang == "es" then "hola" else "bonjour")
  {
    if toLang == "es" { SpanishPhrases(); } else { FrenchPhrases(); }
  }

  /** A text that opens with a greeting: `hello` is the first phrase of
      both lists, so it is replaced first; its replacement cannot start any
      later phrase across the seam, so when the rest of the text holds none
      of the pair's phrases, the result is the capitalised greeting followed
      by the lowercased rest. */
  lemma GreetingLeads(text: string, rest: string, toLang: string)
    requires toLang == "es" || toLang == "fr"
    requires Lower(text) == "hello" + rest
    requires forall i :: 0 <= i < |PairPhrases("en", toLang)| ==>
      !Contains(rest, PairPhrases("en", toLang)[i].0)
    ensures SimulateTranslation(text, "en", toLang) ==
      (if toLang == "es" then "Hola" else "Bonjour") + rest
  {
    var ps := PairPhrases("en", toLang);
    var greeting := if toLang == "es" then "hola" else "bonjour";
    GreetingFirst(toLang);
    LaterPhrasesAbsent(toLang, rest);
    LeadingPhraseReplaced(rest, ps);
    CapitaliseLead(greeting, rest);
  }

  /** The result never starts with a lowercase ASCII letter. */
  lemma SimulatedIsCapitalised(text: string, fromLang: string, toLang: string)
    ensures var r := SimulateTranslation(text, fromLang, toLang);
      r != [] ==> !('a' <= r[0] <= 'z')
  {
  }

  // ---------------------------------------------------------------------
  // the page state

  const TranslationHistoryCap: nat := 20

  /** One history item, with its time stamp kept as given. */
  datatype TranslationEntry = TranslationEntry(
    original: string, translated: string, fromLang: string, toLang: string, timestamp: string)

  class TranslationPage {
    var translationHistory: seq<TranslationEntry>

    predicate Valid()
      reads this
    {
      |translationHistory| <= TranslationHistoryCap
    }

    constructor()
      ensures Valid() && translationHistory == []
    {
      translationHistory := [];
    }

    /** `addToTranslationHistory(original, translated, fromLang, toLang)`,
        stamped `timestamp`. */
    method AddToTranslationHistory(original: string, translated: string, fromLang: string,
                                   toLang: string, timestamp: string)
      requires Valid()
      modifies this
      ensures Valid()
      ensures translationHistory == AddFront(old(translationHistory),
        TranslationEntry(original, translated, fromLang, toLang, timestamp), TranslationHistoryCap)
    {
      translationHistory := [TranslationEntry(original, translated, fromLang, toLang, timestamp)] + translationHistory;
      if |translationHistory| > TranslationHistoryCap {
        translationHistory := translationHistory[..|translationHistory| - 1];
      }
    }

    /** `deleteHistoryItem(index)`. */
    method DeleteHistoryItem(index: nat)
      requires Valid()
      modifies this
      ensures Valid()
      ensures translationHistory == RemoveAt(old(translationHistory), index)
    {
      if index < |translationHistory| {
        translationHistory := translationHistory[..index] + translationHistory[index + 1..];
      }
    }
  }
}
