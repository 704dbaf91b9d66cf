/**
 * The earlier version of the plugin (ScreenReaderAccess.js at the repository root).
 * Its single sanitizer turns speaker tags into `Name: `, unwraps coloured words,
 * names the player `Me`, turns `\n` and `\r` escapes into spaces and finally
 * replaces every run of characters outside its whitelist by one space.
 */
module LegacyScreenReaderAccess {
  import opened Wrappers
  import opened Markup
  import opened Patterns
  import ScreenReaderAccess

  /** `sanitizeForScreenReader` of the earlier version. */
  function SanitizeForScreenReader(text: string): string {
    var t := ScreenReaderAccess.ReplaceMarkers(text);
    var t := RewriteAll(SpeakerTag, t);
    var t := RewriteAll(ColourWord, t);
    var t := RewriteAll(PlayerTag, t);
    var t := RewriteAll(LineEscape, t);
    RewriteAll(RunOf(NotLegacyText, " "), t)
  }

  /** Every character of the result is a word character or one of `. , ? ! ' : _` space `-`. */
  lemma SanitizedCharset(text: string)
    ensures forall c | c in SanitizeForScreenReader(text) :: IsLegacyTextChar(c)
  {
    var t1 := ScreenReaderAccess.ReplaceMarkers(text);
    var t2 := RewriteAll(SpeakerTag, t1);
    var t3 := RewriteAll(ColourWord, t2);
    var t4 := RewriteAll(PlayerTag, t3);
    var t5 := RewriteAll(LineEscape, t4);
    RunPassOutput(NotLegacyText, " ", t5);
  }

  /** The earlier sanitizer, pass by pass. */
  lemma Stages(text: string, t1: string, t2: string, t3: string, t4: string, t5: string)
    requires ScreenReaderAccess.ReplaceMarkers(text) == t1
    requires RewriteAll(SpeakerTag, t1) == t2
    requires RewriteAll(ColourWord, t2) == t3
    requires RewriteAll(PlayerTag, t3) == t4
    requires RewriteAll(LineEscape, t4) == t5
    ensures SanitizeForScreenReader(text) == RewriteAll(RunOf(NotLegacyText, " "), t5)
  {
  }

  /** Text made only of whitelisted characters (so without `<` or `\`) is announced as it is. */
  lemma WhitelistedUnchanged(text: string)
    requires forall i | 0 <= i < |text| :: IsLegacyTextChar(text[i])
    ensures SanitizeForScreenReader(text) == text
  {
    ScreenReaderAccess.NoAngleNoMarkers(text);
    WhitelistedIdle(SpeakerTag, text);
    WhitelistedIdle(ColourWord, text);
    WhitelistedIdle(PlayerTag, text);
    WhitelistedIdle(LineEscape, text);
    WhitelistedIdle(RunOf(NotLegacyText, " "), text);
    Stages(text, text, text, text, text, text);
  }

  /** No pass of the earlier sanitizer can start on a whitelisted character. */
  lemma WhitelistedIdle(p: Pattern, text: string)
    requires p == SpeakerTag || p == ColourWord || p == PlayerTag || p == LineEscape || p == RunOf(NotLegacyText, " ")
    requires forall i | 0 <= i < |text| :: IsLegacyTextChar(text[i])
    ensures RewriteAll(p, text) == text
  {
    NoTriggerUnchanged(p, text);
  }

  /** Each maximal run of characters outside the whitelist becomes exactly one space. */
  lemma NonTextRunBecomesOneSpace(run: string, rest: string)
    requires run != [] && forall i | 0 <= i < |run| :: !IsLegacyTextChar(run[i])
    requires rest == [] || IsLegacyTextChar(rest[0])
    ensures RewriteAll(RunOf(NotLegacyText, " "), run + rest) == " " + RewriteAll(RunOf(NotLegacyText, " "), rest)
  {
    RunCollapses(NotLegacyText, " ", run, rest);
  }

  predicate IsWord(w: string) {
    w != [] && forall i | 0 <= i < |w| :: IsWordChar(w[i])
  }

  /** A colour directive `\c[digits]`. */
  function ColourDirective(digits: string): string {
    "\\c[" + digits + "]"
  }

  lemma ColourDirectiveMatched(digits: string, rest: string)
    requires digits != [] && AllDigits(digits)
    ensures ColourCode(ColourDirective(digits) + rest) == Some(|ColourDirective(digits)|)
  {
    var s := ColourDirective(digits) + rest;
    assert s[1..] == "c[" + digits + "]" + rest;
    assert s[1..][2..] == digits + ("]" + rest);
    RunOfPrefix(Digit, digits, "]" + rest);
  }

  /** `<Name>` becomes `Name: `, and the scan goes on after the tag. */
  lemma SpeakerTagRewritten(word: string, rest: string)
    requires IsWord(word)
    ensures RewriteAll(SpeakerTag, "<" + word + ">" + rest) == word + ": " + RewriteAll(SpeakerTag, rest)
  {
    var s := "<" + word + ">" + rest;
    assert s[1..] == word + (">" + rest);
    RunOfPrefix(Word, word, ">" + rest);
    assert ColourCode(s[1..]).None?;
    assert s[1..1 + |word|] == word && s[1 + |word|] == '>';
    assert WordThenClose(s, 1) == Some(Hit(|word| + 2, word + ": "));
    assert MatchAt(SpeakerTag, s) == Some(Hit(|word| + 2, word + ": "));
    assert s[|word| + 2..] == rest;
  }

  /** `<\c[n]Name>` becomes `Name: ` as well: the colour is dropped with the brackets. */
  lemma ColouredSpeakerTagRewritten(digits: string, word: string, rest: string)
    requires digits != [] && AllDigits(digits) && IsWord(word)
    ensures RewriteAll(SpeakerTag, "<" + ColourDirective(digits) + word + ">" + rest)
         == word + ": " + RewriteAll(SpeakerTag, rest)
  {
    var d := ColourDirective(digits);
    var s := "<" + d + word + ">" + rest;
    ColouredSpeakerTagPieces(digits, word, rest);
    SpeakerTagSlices(s, |d|, word, ">" + rest);
    RewriteHead(SpeakerTag, s, Hit(1 + |d| + |word| + 1, word + ": "));
  }

  /** Where the pieces of a coloured speaker tag sit in the text. */
  lemma ColouredSpeakerTagPieces(digits: string, word: string, rest: string)
    requires digits != [] && AllDigits(digits)
    ensures var d := ColourDirective(digits);
      var s := "<" + d + word + ">" + rest;
      s[0] == '<' && ColourCode(s[1..]) == Some(|d|)
      && s[1 + |d|..] == word + (">" + rest) && s[1 + |d| + |word| + 1..] == rest
  {
    var d := ColourDirective(digits);
    var t := ">" + rest;
    var s := "<" + d + word + ">" + rest;
    assert s[1..] == d + (word + t);
    ColourDirectiveMatched(digits, word + t);
    assert s[1 + |d|..] == word + t;
    assert s[1 + |d| + |word| + 1..] == rest;
  }

  /** The speaker tag, from the pieces of `s` after the `<` and the colour code. */
  lemma SpeakerTagSlices(s: string, g: nat, word: string, t: string)
    requires s != [] && s[0] == '<' && ColourCode(s[1..]) == Some(g)
    requires 1 + g <= |s| && s[1 + g..] == word + t && IsWord(word) && t != [] && t[0] == '>'
    ensures MatchAt(SpeakerTag, s) == Some(Hit(1 + g + |word| + 1, word + ": "))
  {
    WordSlice(s, 1 + g, word, t);
    SpeakerTagFrom(s, g, word);
  }

  /** The speaker-tag matcher, from what it reads: the optional colour code, the word and the `>`. */
  lemma SpeakerTagFrom(s: string, g: nat, word: string)
    requires s != [] && s[0] == '<' && ColourCode(s[1..]) == Some(g) && 1 + g <= |s| && Run(Word, s[1 + g..]) == |word|
    requires 1 <= |word| && 1 + g + |word| < |s| && s[1 + g..1 + g + |word|] == word && s[1 + g + |word|] == '>'
    ensures MatchAt(SpeakerTag, s) == Some(Hit(1 + g + |word| + 1, word + ": "))
  {
    SpeakerTagFromInner(s, g, word);
  }

  lemma SpeakerTagFromInner(s: string, g: nat, word: string)
    requires s != [] && s[0] == '<' && ColourCode(s[1..]) == Some(g) && 1 + g <= |s| && Run(Word, s[1 + g..]) == |word|
    requires 1 <= |word| && 1 + g + |word| < |s| && s[1 + g..1 + g + |word|] == word && s[1 + g + |word|] == '>'
    ensures MatchSpeakerTag(s) == Some(Hit(1 + g + |word| + 1, word + ": "))
  {
    assert WordThenClose(s, 1 + g) == Some(Hit(1 + g + |word| + 1, word + ": "));
  }

  /** `\c[n]word\c` is unwrapped to `word`. */
  lemma ColourWordUnwrapped(digits: string, word: string, rest: string)
    requires digits != [] && AllDigits(digits) && IsWord(word)
    ensures RewriteAll(ColourWord, ColourDirective(digits) + word + "\\c" + rest) == word + RewriteAll(ColourWord, rest)
  {
    var d := ColourDirective(digits);
    var s := d + word + "\\c" + rest;
    ColourWordPieces(digits, word, rest);
    ColourWordSlices(s, |d|, word, "\\c" + rest);
    RewriteHead(ColourWord, s, Hit(|d| + |word| + 2, word));
  }

  /** Where the pieces of a coloured word sit in the text. */
  lemma ColourWordPieces(digits: string, word: string, rest: string)
    requires digits != [] && AllDigits(digits)
    ensures var d := ColourDirective(digits);
      var s := d + word + "\\c" + rest;
      ColourCode(s) == Some(|d|) && s[|d|..] == word + ("\\c" + rest) && s[|d| + |word| + 2..] == rest
  {
    var d := ColourDirective(digits);
    var t := "\\c" + rest;
    var s := d + word + "\\c" + rest;
    assert s == d + (word + t);
    ColourDirectiveMatched(digits, word + t);
    assert s[|d|..] == word + t;
    assert s[|d| + |word| + 2..] == rest;
  }

  /** The coloured word, from the pieces of `s` after the colour code. */
  lemma ColourWordSlices(s: string, j: nat, word: string, t: string)
    requires ColourCode(s) == Some(j) && j <= |s| && s[j..] == word + t && IsWord(word)
    requires |t| >= 2 && t[0] == '\\' && t[1] == 'c'
    ensures MatchAt(ColourWord, s) == Some(Hit(j + |word| + 2, word))
  {
    WordSlice(s, j, word, t);
    assert s[j + |word| + 1] == (word + t)[|word| + 1] == t[1];
    ColourWordFrom(s, j, word);
  }

  /** A word followed by a non-word character is the whole `\w+` run at that position. */
  lemma WordSlice(s: string, j: nat, word: string, t: string)
    requires j <= |s| && s[j..] == word + t && IsWord(word) && t != [] && !IsWordChar(t[0])
    ensures Run(Word, s[j..]) == |word| && j + |word| < |s|
    ensures s[j..j + |word|] == word && s[j + |word|] == t[0]
  {
    RunOfPrefix(Word, word, t);
    assert s[j..j + |word|] == (word + t)[..|word|];
    assert s[j + |word|] == (word + t)[|word|];
  }

  /** The coloured-word matcher, from what it reads: the colour code, the word and the closing `\c`. */
  lemma ColourWordFrom(s: string, j: nat, word: string)
    requires ColourCode(s) == Some(j) && j <= |s| && Run(Word, s[j..]) == |word| && 1 <= |word|
    requires j + |word| + 1 < |s| && s[j..j + |word|] == word && s[j + |word|] == '\\' && s[j + |word| + 1] == 'c'
    ensures MatchAt(ColourWord, s) == Some(Hit(j + |word| + 2, word))
  {
    ColourWordFromInner(s, j, word);
  }

  lemma ColourWordFromInner(s: string, j: nat, word: string)
    requires ColourCode(s) == Some(j) && j <= |s| && Run(Word, s[j..]) == |word| && 1 <= |word|
    requires j + |word| + 1 < |s| && s[j..j + |word|] == word && s[j + |word|] == '\\' && s[j + |word| + 1] == 'c'
    ensures MatchColourWord(s) == Some(Hit(j + |word| + 2, word))
  {
  }

  /** `<\N[1]>` names the player: it becomes `Me: `. */
  lemma PlayerTagRewritten(rest: string)
    ensures RewriteAll(PlayerTag, "<\\N[1]>" + rest) == "Me: " + RewriteAll(PlayerTag, rest)
  {
    var s := "<\\N[1]>" + rest;
    assert s[1..][..6] == "\\N[1]>";
    assert MatchAt(PlayerTag, s) == Some(Hit(7, "Me: "));
    assert s[7..] == rest;
  }

  /** `<\c[n]\N[1]>` becomes `Me: ` as well. */
  lemma ColouredPlayerTagRewritten(digits: string, rest: string)
    requires digits != [] && AllDigits(digits)
    ensures RewriteAll(PlayerTag, "<" + ColourDirective(digits) + "\\N[1]>" + rest) == "Me: " + RewriteAll(PlayerTag, rest)
  {
    var d := ColourDirective(digits);
    var s := "<" + d + "\\N[1]>" + rest;
    ColouredPlayerTagPieces(digits, rest);
    PlayerTagFrom(s, |d|);
    RewriteHead(PlayerTag, s, Hit(1 + |d| + 6, "Me: "));
  }

  /** Where the pieces of a coloured player tag sit in the text. */
  lemma ColouredPlayerTagPieces(digits: string, rest: string)
    requires digits != [] && AllDigits(digits)
    ensures var d := ColourDirective(digits);
      var s := "<" + d + "\\N[1]>" + rest;
      s[0] == '<' && ColourCode(s[1..]) == Some(|d|) && 1 + |d| <= |s|
      && StartsWith(s[1 + |d|..], "\\N[1]>") && s[1 + |d| + 6..] == rest
  {
    var d := ColourDirective(digits);
    var s := "<" + d + "\\N[1]>" + rest;
    assert s[1..] == d + ("\\N[1]>" + rest);
    ColourDirectiveMatched(digits, "\\N[1]>" + rest);
    assert s[1 + |d|..][..6] == "\\N[1]>";
    assert s[1 + |d| + 6..] == rest;
  }

  /** The player-tag matcher, from what it reads: the colour code and `\N[1]>`. */
  lemma PlayerTagFrom(s: string, g: nat)
    requires s != [] && s[0] == '<' && ColourCode(s[1..]) == Some(g) && 1 + g <= |s|
    requires StartsWith(s[1 + g..], "\\N[1]>")
    ensures MatchAt(PlayerTag, s) == Some(Hit(1 + g + 6, "Me: "))
  {
    assert MatchPlayerTag(s) == Some(Hit(1 + g + 6, "Me: "));
  }

  /** The escapes `\n` and `\r` each become one space. */
  lemma LineEscapeRewritten(c: char, rest: string)
    requires c == 'n' || c == 'r'
    ensures RewriteAll(LineEscape, "\\" + [c] + rest) == " " + RewriteAll(LineEscape, rest)
  {
    var s := "\\" + [c] + rest;
    assert s[2..] == rest;
  }
}
