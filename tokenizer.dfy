/** The two word patterns of the crawler and the common-word filter of the
    current crawler.

    `word_pattern.findall(text)` with `\b<lead><tail>+(?<![!:.])\b` finds a
    match only where a maximal run of word characters (Python's `\w`) starts,
    and only a match that covers the whole run: every class character is a
    word character, so the closing `\b` can only hold at the end of the run.
    The look-behind never fires, since a class character is never `!`, `:` or
    `.`. `FindAll` is therefore the list of maximal word-character runs that
    start with a lead letter, consist of class characters and are long
    enough. */
module Tokenizer {
  import opened Text
  import opened Seqs
  import opened Blocks

  /** `Accented`: `[A-Za-zÁ-Úá-ú][A-Za-z0-9Á-Úá-ú_]+` of the current crawler;
      `Ascii`: `[A-Za-z][A-Za-z0-9_]*` of the legacy crawler. */
  datatype Pattern = Accented | Ascii

  predicate IsAsciiLetter(c: char)
  {
    ('A' <= c <= 'Z') || ('a' <= c <= 'z')
  }

  predicate IsDigit(c: char)
  {
    '0' <= c <= '9'
  }

  /** The ranges Á-Ú and á-ú, without the two symbols × and ÷ that fall in
      them. */
  predicate IsAccentedLetter(c: char)
  {
    (('\U{C1}' <= c <= '\U{DA}') || ('\U{E1}' <= c <= '\U{FA}'))
    && c != '\U{D7}' && c != '\U{F7}'
  }

  /** The first character of a word. */
  predicate IsLead(p: Pattern, c: char)
  {
    IsAsciiLetter(c) || (p == Accented && IsAccentedLetter(c))
  }

  /** A later character of a word. */
  predicate IsTail(p: Pattern, c: char)
  {
    IsLead(p, c) || IsDigit(c) || c == '_'
  }

  /** `+` after the lead asks for two characters, `*` for one. */
  function MinLength(p: Pattern): nat
  {
    if p == Accented then 2 else 1
  }

  /** Python's `\w` on the Latin-1 range: letters, digits and numeric signs,
      and `_`. */
  predicate IsWordChar(c: char)
  {
    IsAsciiLetter(c) || IsDigit(c) || c == '_'
    || c == '\U{AA}' || c == '\U{B2}' || c == '\U{B3}' || c == '\U{B5}'
    || c == '\U{B9}' || c == '\U{BA}' || ('\U{BC}' <= c <= '\U{BE}')
    || ('\U{C0}' <= c <= '\U{D6}') || ('\U{D8}' <= c <= '\U{F6}')
    || ('\U{F8}' <= c <= '\U{FF}')
  }

  /** What the pattern accepts as a whole word. */
  predicate IsWord(p: Pattern, w: string)
  {
    |w| >= MinLength(p) && IsLead(p, w[0])
    && forall i :: 1 <= i < |w| ==> IsTail(p, w[i])
  }

  /** The length of the run of word characters that starts `s`. */
  function RunLength(s: string): (k: nat)
    ensures k <= |s|
    ensures forall i :: 0 <= i < k ==> IsWordChar(s[i])
    ensures k < |s| ==> !IsWordChar(s[k])
  {
    if s == [] || !IsWordChar(s[0]) then 0 else 1 + RunLength(s[1..])
  }

  /** `word_pattern.findall(s)`. Every token is a word of the pattern. */
  function FindAll(p: Pattern, s: string): (tokens: seq<string>)
    ensures forall i :: 0 <= i < |tokens| ==> IsWord(p, tokens[i])
    decreases |s|
  {
    if s == [] then []
    else if !IsWordChar(s[0]) then FindAll(p, s[1..])
    else
      var k := RunLength(s);
      (if IsWord(p, s[..k]) then [s[..k]] else []) + FindAll(p, s[k..])
  }

  /** Every character of a token comes from the text. */
  lemma {:induction false} TokenCharsFromText(p: Pattern, s: string, i: nat, j: nat)
    requires i < |FindAll(p, s)| && j < |FindAll(p, s)[i]|
    ensures FindAll(p, s)[i][j] in s
    decreases |s|
  {
    if !IsWordChar(s[0]) {
      TokenCharsFromText(p, s[1..], i, j);
    } else {
      var k := RunLength(s);
      var head := if IsWord(p, s[..k]) then [s[..k]] else [];
      if i < |head| {
        assert FindAll(p, s)[i] == s[..k];
      } else {
        TokenCharsFromText(p, s[k..], i - |head|, j);
      }
    }
  }

  /** A token of lower-cased text has no upper-case letter. */
  lemma TokensOfLowerCaseText(p: Pattern, s: string)
    ensures forall i, j :: 0 <= i < |FindAll(p, LowerStr(s))| && 0 <= j < |FindAll(p, LowerStr(s))[i]|
              ==> !IsUpper(FindAll(p, LowerStr(s))[i][j])
  {
    var t := FindAll(p, LowerStr(s));
    forall i, j | 0 <= i < |t| && 0 <= j < |t[i]| ensures !IsUpper(t[i][j]) {
      TokenCharsFromText(p, LowerStr(s), i, j);
      var k :| 0 <= k < |LowerStr(s)| && LowerStr(s)[k] == t[i][j];
    }
  }

  lemma TokensOfBc(p: Pattern)
    ensures FindAll(p, "bc") == ["bc"]
  {
    LowerAsciiWord(p, "bc");
    WordThenSeparator(p, "bc", "");
    assert "bc" + "" == "bc";
  }

  lemma TokensOfSpaceBc(p: Pattern)
    ensures FindAll(p, " bc") == ["bc"]
  {
    SeparatorSkipped(p, ' ', "bc");
    TokensOfBc(p);
    assert [' '] + "bc" == " bc";
  }

  /** The two patterns on one input: the current one skips single letters,
      the legacy one keeps them. */
  lemma SingleLettersOnlyInLegacy()
    ensures FindAll(Accented, "a bc") == ["bc"]
    ensures FindAll(Ascii, "a bc") == ["a", "bc"]
  {
    LetterThenSeparator(Accented, 'a', " bc");
    LetterThenSeparator(Ascii, 'a', " bc");
    TokensOfSpaceBc(Accented);
    TokensOfSpaceBc(Ascii);
    assert ['a'] + " bc" == "a bc";
  }

  /** A single letter is a word of the legacy pattern only. */
  lemma LetterThenSeparator(p: Pattern, c: char, rest: string)
    requires IsAsciiLetter(c)
    requires rest != [] && !IsWordChar(rest[0])
    ensures FindAll(p, [c] + rest) == (if p == Ascii then [[c]] else []) + FindAll(p, rest)
  {
    var s := [c] + rest;
    assert s[1..] == rest;
    assert RunLength(s) == 1;
    assert s[..1] == [c];
  }

  /** Text in which no two word characters stand side by side holds no
      token of the current pattern: every run is one letter long. */
  lemma {:induction false} SingleLettersGiveNoTokens(s: string)
    requires forall i :: 0 <= i < |s| - 1 ==> !IsWordChar(s[i]) || !IsWordChar(s[i + 1])
    ensures FindAll(Accented, s) == []
    decreases |s|
  {
    if s != [] {
      if IsWordChar(s[0]) {
        assert RunLength(s) == 1 by {
          if |s| > 1 {
            assert !IsWordChar(s[1]);
            assert s[1..][0] == s[1];
          }
        }
      }
      assert forall i :: 0 <= i < |s[1..]| - 1 ==> s[1..][i] == s[i + 1];
      SingleLettersGiveNoTokens(s[1..]);
    }
  }

  /** Only the current pattern accepts accented letters; for the legacy one
      a word that holds one is no word at all, not a shorter one. */
  lemma AccentsOnlyInCurrent()
    ensures FindAll(Accented, "tú") == ["tú"]
    ensures FindAll(Ascii, "tú") == []
  {
    var t := "tú";
    assert RunLength(t[2..]) == 0;
    assert RunLength(t[1..]) == 1;
    assert RunLength(t) == 2;
    assert t[..2] == t && t[2..] == [];
  }

  /** The stop words the current crawler always treats as common. */
  const PRESET_COMMON_WORDS: set<string> :=
    {"hora", "horas", "duración", "precio", "de", "la", "al", "el", "en", "su", "con"}

  /** One card's contribution to the page text: title, a space, description. */
  function CardText(card: Block): string
  {
    ExtractCourseTitle(card) + " " + ExtractCourseDescription(card)
  }

  /** The page text the frequencies are counted on: the card texts one after
      another, with nothing between two cards. */
  function CombinedText(cards: seq<Block>): string
  {
    if cards == [] then ""
    else CombinedText(cards[..|cards| - 1]) + CardText(cards[|cards| - 1])
  }

  lemma CombinedTextOfPrefix(cards: seq<Block>, i: nat)
    requires i < |cards|
    ensures CombinedText(cards[..i + 1]) == CombinedText(cards[..i]) + CardText(cards[i])
  {
    assert cards[..i + 1][..i] == cards[..i];
  }

  function PageTokens(cards: seq<Block>): seq<string>
  {
    FindAll(Accented, LowerStr(CombinedText(cards)))
  }

  /** The common words of a page: the preset, and every token that occurs at
      least `threshold` times in the page text. */
  function CommonWords(cards: seq<Block>, threshold: int): set<string>
  {
    var count := multiset(PageTokens(cards));
    (set w | w in count && count[w] >= threshold) + PRESET_COMMON_WORDS
  }

  /** The common words always hold the preset; any other word is common
      exactly when it occurs in the page text at least `threshold` times
      (and at least once, whatever the threshold). */
  lemma CommonWordsMembers(cards: seq<Block>, threshold: int, w: string)
    ensures PRESET_COMMON_WORDS <= CommonWords(cards, threshold)
    ensures w !in PRESET_COMMON_WORDS ==>
              (w in CommonWords(cards, threshold) <==>
                 w in PageTokens(cards) && multiset(PageTokens(cards))[w] >= threshold)
  {
  }

  /** `identify_common_words(course_blocks, threshold)`. The result always holds
      the preset; any other word is in it exactly when it occurs in the page
      text, at least `threshold` times. */
  method IdentifyCommonWords(cards: seq<Block>, threshold: int) returns (common: set<string>)
    ensures common == CommonWords(cards, threshold)
  {
    var combined := "";
    var i := 0;
    while i < |cards|
      invariant 0 <= i <= |cards|
      invariant combined == CombinedText(cards[..i])
    {
      var title := ExtractCourseTitle(cards[i]);
      var description := ExtractCourseDescription(cards[i]);
      assert title + " " + description == CardText(cards[i]);
      combined := combined + (title + " " + description);
      CombinedTextOfPrefix(cards, i);
      i := i + 1;
    }
    assert cards[..|cards|] == cards;
    var words := FindAll(Accented, LowerStr(combined));
    var count := multiset(words);
    common := (set w | w in count && count[w] >= threshold) + PRESET_COMMON_WORDS;
  }

  lemma TextOfFirstCard(card: Block)
    requires card == Block(["ab"], ["cd"], [], Wrappers.None)
    ensures CardText(card) == "ab cd"
  {
    TrimmedCardTexts(card);
    TextOfFirstCardJoined(ExtractCourseTitle(card), ExtractCourseDescription(card));
  }

  lemma TextOfFirstCardJoined(title: string, description: string)
    requires title == "ab" && description == "cd"
    ensures title + " " + description == "ab cd"
  {
  }

  lemma TextOfSecondCard(card: Block)
    requires card == Block(["ef"], [], [], Wrappers.None)
    ensures CardText(card) == "ef "
  {
    TrimmedCardTexts(card);
    TextOfSecondCardJoined(ExtractCourseTitle(card), ExtractCourseDescription(card));
  }

  lemma TextOfSecondCardJoined(title: string, description: string)
    requires title == "ef" && description == ""
    ensures title + " " + description == "ef "
  {
  }

  lemma FusedPageText(cards: seq<Block>)
    requires cards == [Block(["ab"], ["cd"], [], Wrappers.None), Block(["ef"], [], [], Wrappers.None)]
    ensures CombinedText(cards) == "ab cdef "
  {
    CombinedTextOfTwo(cards);
    TextOfFirstCard(cards[0]);
    TextOfSecondCard(cards[1]);
    FusedTextJoined(CardText(cards[0]), CardText(cards[1]));
  }

  lemma CombinedTextOfTwo(cards: seq<Block>)
    requires |cards| == 2
    ensures CombinedText(cards) == CardText(cards[0]) + CardText(cards[1])
  {
    assert CombinedText(cards) == CombinedText(cards[..1]) + CardText(cards[1]);
    CombinedTextOfOne(cards[..1]);
  }

  lemma CombinedTextOfOne(cards: seq<Block>)
    requires |cards| == 1
    ensures CombinedText(cards) == CardText(cards[0])
  {
    assert cards[..0] == [];
  }

  lemma FusedTextJoined(a: string, b: string)
    requires a == "ab cd" && b == "ef "
    ensures a + b == "ab cdef "
  {
  }

  lemma TokensOfCdefSpace()
    ensures FindAll(Accented, "cdef ") == ["cdef"]
  {
    LowerAsciiWord(Accented, "cdef");
    WordThenSeparator(Accented, "cdef", " ");
    SeparatorSkipped(Accented, ' ', "");
    CdefSpacePieces("cdef", " ");
  }

  lemma CdefSpacePieces(w: string, rest: string)
    requires w == "cdef" && rest == " "
    ensures w + rest == "cdef " && [' '] + "" == rest
  {
  }

  lemma TokensOfFusedText()
    ensures FindAll(Accented, "ab cdef ") == ["ab", "cdef"]
  {
    LeadingWord("ab", " cdef ");
    SeparatorSkipped(Accented, ' ', "cdef ");
    TokensOfCdefSpace();
    FusedTextPieces("ab", " cdef ", "cdef ");
  }

  lemma FusedTextPieces(w: string, rest: string, tail: string)
    requires w == "ab" && rest == " cdef " && tail == "cdef "
    ensures w + rest == "ab cdef " && [' '] + tail == rest
  {
  }

  /** Nothing separates two cards in the page text, so the last word of one
      card's description runs into the next card's title: for "ab" / "cd"
      followed by "ef", the page text is "ab cdef " and "cdef", not "cd" and
      "ef", is what gets counted. */
  lemma FusedTextIsLowerCase()
    ensures LowerStr("ab cdef ") == "ab cdef "
  {
    LowerStrOfLowerCase("ab cdef ");
  }

  lemma CardTextsFuse(cards: seq<Block>)
    requires cards == [Block(["ab"], ["cd"], [], Wrappers.None), Block(["ef"], [], [], Wrappers.None)]
    ensures CombinedText(cards) == "ab cdef "
    ensures PageTokens(cards) == ["ab", "cdef"]
  {
    FusedPageText(cards);
    FusedTextIsLowerCase();
    TokensOfFusedText();
  }

  /** The run of word characters at the start of `w + rest` is all of `w`
      when `rest` starts with a separator. */
  lemma {:induction false} RunLengthOfRun(w: string, rest: string)
    requires forall i :: 0 <= i < |w| ==> IsWordChar(w[i])
    requires rest == [] || !IsWordChar(rest[0])
    ensures RunLength(w + rest) == |w|
    decreases |w|
  {
    if w != [] {
      assert (w + rest)[1..] == w[1..] + rest;
      RunLengthOfRun(w[1..], rest);
    }
  }

  /** A word followed by a separator is the next token. */
  lemma WordThenSeparator(p: Pattern, w: string, rest: string)
    requires IsWord(p, w) && forall i :: 0 <= i < |w| ==> IsWordChar(w[i])
    requires rest == [] || !IsWordChar(rest[0])
    ensures FindAll(p, w + rest) == [w] + FindAll(p, rest)
  {
    RunLengthOfRun(w, rest);
    assert (w + rest)[..|w|] == w && (w + rest)[|w|..] == rest;
  }

  /** Lower-case ASCII letters, at least two of them, make a word of
      either pattern. */
  lemma LowerAsciiWord(p: Pattern, w: string)
    requires |w| >= 2 && forall i :: 0 <= i < |w| ==> 'a' <= w[i] <= 'z'
    ensures IsWord(p, w) && forall i :: 0 <= i < |w| ==> IsWordChar(w[i])
  {
  }

  /** A leading separator is skipped. */
  lemma SeparatorSkipped(p: Pattern, c: char, rest: string)
    requires !IsWordChar(c)
    ensures FindAll(p, [c] + rest) == FindAll(p, rest)
  {
    assert ([c] + rest)[1..] == rest;
  }

  /** "Intro to X x y x z" lower-cased holds the tokens "intro" and "to":
      the single letters are below the current pattern's minimum length. */
  lemma IntroTokens()
    ensures FindAll(Accented, "intro to x x y x z") == ["intro", "to"]
  {
    var intro, rest := "intro", " to x x y x z";
    assert "intro to x x y x z" == intro + rest;
    IntroTokensSplit(intro, rest);
  }

  lemma IntroTokensSplit(intro: string, rest: string)
    requires intro == "intro" && rest == " to x x y x z"
    ensures FindAll(Accented, intro + rest) == ["intro", "to"]
  {
    assert forall i :: 0 <= i < |intro| ==> 'a' <= intro[i] <= 'z';
    IntroTokensAfterFirst(rest);
    LeadingWord(intro, rest);
  }

  lemma IntroTokensAfterFirst(s: string)
    requires s == " to x x y x z"
    ensures FindAll(Accented, s) == ["to"]
  {
    var w, tail := IntroAfterFirstPieces(s);
    SingleLettersGiveNoTokens(tail);
    SeparatorThenOnlyWord(s, w, tail);
  }

  /** A separator, one lower-case word and a tail without tokens give that
      word alone. */
  lemma SeparatorThenOnlyWord(s: string, w: string, tail: string)
    requires s == [' '] + (w + tail)
    requires |w| >= 2 && forall i :: 0 <= i < |w| ==> 'a' <= w[i] <= 'z'
    requires tail != [] && tail[0] == ' '
    requires FindAll(Accented, tail) == []
    ensures FindAll(Accented, s) == [w]
  {
    SeparatorSkipped(Accented, ' ', w + tail);
    LeadingWord(w, tail);
  }

  /** " to x x y x z" is a space, the word "to", and a tail of lone letters. */
  lemma IntroAfterFirstPieces(s: string) returns (w: string, tail: string)
    requires s == " to x x y x z"
    ensures w == "to" && s == [' '] + (w + tail)
    ensures |w| >= 2 && forall i :: 0 <= i < |w| ==> 'a' <= w[i] <= 'z'
    ensures tail != [] && tail[0] == ' '
    ensures forall i :: 0 <= i < |tail| - 1 ==> !IsWordChar(tail[i]) || !IsWordChar(tail[i + 1])
  {
    w, tail := "to", " x x y x z";
    forall i | 0 <= i < |tail| - 1
      ensures !IsWordChar(tail[i]) || !IsWordChar(tail[i + 1])
    {
      assert tail[i] == ' ' || tail[i + 1] == ' ';
    }
  }

  lemma LeadingWord(w: string, rest: string)
    requires |w| >= 2 && forall i :: 0 <= i < |w| ==> 'a' <= w[i] <= 'z'
    requires rest != [] && rest[0] == ' '
    ensures FindAll(Accented, w + rest) == [w] + FindAll(Accented, rest)
  {
    LowerAsciiWord(Accented, w);
    WordThenSeparator(Accented, w, rest);
  }
}
