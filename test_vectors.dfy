/**
 * The concrete announcements the plugin's test suite pins down
 * (the files under spec/ScreenReaderAccess), derived from the model.
 */
module TestVectors {
  import opened Wrappers
  import opened Markup
  import opened Databases
  import opened Patterns
  import opened ScreenReaderAccess

  const Esc: char := '\U{1B}'

  // ---------------------------------------------------------------------------
  // The general sanitizer

  lemma Ordinary3(a: string, b: string, c: string)
    requires Ordinary(a) && Ordinary(b) && Ordinary(c)
    ensures Ordinary(a + b + c)
  {
    OrdinaryAppend(a, b);
    OrdinaryAppend(a + b, c);
  }

  /** A scrolling text with a line break: the marker becomes one space. */
  lemma ScrollTextLineBreak()
    ensures SanitizeForScreenReader("In A.D. 2101" + "<br>" + "War was beginning.") == "In A.D. 2101" + " " + "War was beginning."
  {
    assert Markers[3] == "<br>";
    assert Ordinary("In A.D. 2101") && Ordinary("War was beginning.");
    MarkerBetweenOrdinaryText("In A.D. 2101", 3, "War was beginning.");
  }

  /** A standard message is announced as it is written. */
  lemma StandardMessage()
    ensures var text := "She took a deep " + "breath and prepared " + "for battle.";
      SanitizeForScreenReader(text) == text
  {
    var a, b, c := "She took a deep ", "breath and prepared ", "for battle.";
    assert Ordinary(a) && Ordinary(b) && Ordinary(c);
    Ordinary3(a, b, c);
    OrdinaryTextUnchanged(a + b + c);
  }

  /** No marker, reset-colour token or colour code can start in `s`. */
  predicate NoMarkup(s: string) {
    forall i | 0 <= i < |s| :: s[i] != '<' && s[i] != 'R' && s[i] != '['
  }

  lemma NoMarkupAppend(a: string, b: string)
    requires NoMarkup(a) && NoMarkup(b)
    ensures NoMarkup(a + b)
  {
    forall i | 0 <= i < |a + b| ensures (a + b)[i] == if i < |a| then a[i] else b[i - |a|] {
    }
  }

  /** An ordinary piece followed by an escape character: the symbol pass leaves the piece. */
  lemma EscapeEnded(a: string)
    requires Ordinary(a)
    ensures NoMarkup(a + [Esc])
    ensures Without(a + [Esc], UnprintableSymbols) == a
  {
    WithoutAppend(a, [Esc], UnprintableSymbols);
    WithoutNothing(a, UnprintableSymbols);
    assert Without([Esc], UnprintableSymbols) == [];
    assert a + [] == a;
  }

  /** The symbol pass over two escape characters between ordinary pieces. */
  lemma TwoEscapesStripped(a: string, b: string, c: string)
    requires Ordinary(a) && Ordinary(b) && Ordinary(c)
    ensures NoMarkup(a + [Esc] + b + [Esc] + c)
    ensures Without(a + [Esc] + b + [Esc] + c, UnprintableSymbols) == a + b + c
  {
    EscapeEnded(a);
    EscapeEnded(b);
    NoMarkupAppend(a + [Esc], b + [Esc]);
    NoMarkupAppend(a + [Esc] + (b + [Esc]), c);
    assert a + [Esc] + (b + [Esc]) + c == a + [Esc] + b + [Esc] + c;
    WithoutAppend(a + [Esc] + (b + [Esc]), c, UnprintableSymbols);
    WithoutAppend(a + [Esc], b + [Esc], UnprintableSymbols);
    WithoutNothing(c, UnprintableSymbols);
  }

  /** Escape characters between ordinary pieces of prose are dropped. */
  lemma EscapesDropped(a: string, b: string, c: string)
    requires Ordinary(a) && Ordinary(b) && Ordinary(c)
    ensures SanitizeForScreenReader(a + [Esc] + b + [Esc] + c) == a + b + c
  {
    TwoEscapesStripped(a, b, c);
    SymbolsAndFramingRemoved(a + [Esc] + b + [Esc] + c);
    Ordinary3(a, b, c);
    WithoutNothing(a + b + c, DisplayEscapes);
  }

  /** An escape character after ordinary prose is dropped. */
  lemma EscapeDropped(a: string)
    requires Ordinary(a)
    ensures SanitizeForScreenReader(a + [Esc]) == a
  {
    EscapeEnded(a);
    SymbolsAndFramingRemoved(a + [Esc]);
    WithoutNothing(a, DisplayEscapes);
  }

  /** Escape characters in a message are dropped. */
  lemma UnprintableCharactersDropped()
    ensures SanitizeForScreenReader("Stealth " + [Esc] + "camouflage! Can" + [Esc] + "'t you even die right?")
         == "Stealth " + "camouflage! Can" + "'t you even die right?"
  {
    assert Ordinary("Stealth ") && Ordinary("camouflage! Can") && Ordinary("'t you even die right?");
    EscapesDropped("Stealth ", "camouflage! Can", "'t you even die right?");
  }

  /** A trailing escape character is dropped. */
  lemma TrailingEscapeDropped()
    ensures SanitizeForScreenReader("Captain: What happen?" + [Esc]) == "Captain: What happen?"
  {
    assert Ordinary("Captain: What happen?");
    EscapeDropped("Captain: What happen?");
  }

  /** Ordinary prose between runs of font-size framing comes out bare. */
  lemma FramedOrdinary(open: string, body: string, close: string)
    requires forall i | 0 <= i < |open| :: open[i] in DisplayEscapes
    requires forall i | 0 <= i < |close| :: close[i] in DisplayEscapes
    requires Ordinary(body)
    ensures SanitizeForScreenReader(open + body + close) == body
  {
    FramingMarkupFree(open);
    FramingMarkupFree(close);
    NoMarkupAppend(open, body);
    NoMarkupAppend(open + body, close);
    SymbolsAndFramingRemoved(open + body + close);
    FramedNoSymbols(open, body, close);
    FramingDropped(open, body, close);
  }

  lemma FramedNoSymbols(open: string, body: string, close: string)
    requires forall i | 0 <= i < |open| :: open[i] in DisplayEscapes
    requires forall i | 0 <= i < |close| :: close[i] in DisplayEscapes
    requires Ordinary(body)
    ensures Without(open + body + close, UnprintableSymbols) == open + body + close
  {
    var text := open + body + close;
    forall i | 0 <= i < |text| ensures text[i] !in UnprintableSymbols {
      if i < |open| {
        assert text[i] == open[i];
      } else if i < |open| + |body| {
        assert text[i] == body[i - |open|];
      } else {
        assert text[i] == close[i - |open| - |body|];
      }
    }
    WithoutNothing(text, UnprintableSymbols);
  }

  lemma FramingDropped(open: string, body: string, close: string)
    requires forall i | 0 <= i < |open| :: open[i] in DisplayEscapes
    requires forall i | 0 <= i < |close| :: close[i] in DisplayEscapes
    requires Ordinary(body)
    ensures Without(open + body + close, DisplayEscapes) == body
  {
    WithoutAppend(open + body, close, DisplayEscapes);
    WithoutAppend(open, body, DisplayEscapes);
    WithoutEverything(open, DisplayEscapes);
    WithoutEverything(close, DisplayEscapes);
    WithoutNothing(body, DisplayEscapes);
    assert [] + body + [] == body;
  }

  lemma FramingMarkupFree(s: string)
    requires forall i | 0 <= i < |s| :: s[i] in DisplayEscapes
    ensures NoMarkup(s)
  {
  }

  /** Larger-font framing is removed. */
  lemma LargerFontUnframed()
    ensures SanitizeForScreenReader("{{{" + "SNAAAAAKE!" + "}}}") == "SNAAAAAKE!"
  {
    assert Ordinary("SNAAAAAKE!");
    FramedOrdinary("{{{", "SNAAAAAKE!", "}}}");
  }

  /** Smaller-font framing is removed. */
  lemma SmallerFontUnframed()
    ensures SanitizeForScreenReader("}" + ("I like shorts. " + "They're comfortable " + "and easy to wear.") + "{")
         == "I like shorts. " + "They're comfortable " + "and easy to wear."
  {
    var a, b, c := "I like shorts. ", "They're comfortable ", "and easy to wear.";
    ShortsProse(a, b, c);
    Ordinary3(a, b, c);
    FramedOrdinary("}", a + b + c, "{");
  }

  lemma ShortsProse(a: string, b: string, c: string)
    requires a == "I like shorts. " && b == "They're comfortable " && c == "and easy to wear."
    ensures Ordinary(a) && Ordinary(b) && Ordinary(c)
  {
  }

  /**
   * The sanitizer is not idempotent: a repeated marker survives one pass and is
   * replaced by the next one.
   */
  lemma RepeatedMarkerNeedsTwoPasses()
    ensures SanitizeForScreenReader("<br>" + "<br>") == " " + "<br>"
    ensures SanitizeForScreenReader(" " + "<br>") == " " + " "
  {
    RepeatedMarkerFirstPass("<br>");
    RepeatedMarkerSecondPass("<br>");
  }

  lemma RepeatedMarkerFirstPass(br: string)
    requires br == "<br>"
    ensures SanitizeForScreenReader(br + br) == " " + br
  {
    assert Markers[3] == br;
    forall j | 0 <= j < |Markers| && j != 3 ensures TokenFree(br, Markers[j]) {
      MarkerShapes();
    }
    OnlyFirstMarkerReplaced([], 3, br);
    assert [] + Markers[3] + br == br + br;
    assert [] + " " + br == " " + br;
    FormattingFree(" " + br);
  }

  lemma RepeatedMarkerSecondPass(br: string)
    requires br == "<br>"
    ensures SanitizeForScreenReader(" " + br) == " " + " "
  {
    assert Markers[3] == br;
    OnlyFirstMarkerReplaced(" ", 3, []);
    assert " " + Markers[3] + [] == " " + br;
    assert " " + " " + [] == " " + " ";
    FormattingFree(" " + " ");
  }

  /**
   * Deleting a reset-colour token can join its neighbours into a new one, which the
   * same pass does not revisit: a second pass removes it.
   */
  lemma JoinedResetTokenNeedsTwoPasses()
    ensures SanitizeForScreenReader("RESET" + "RESETCOLOR" + "COLOR") == "RESETCOLOR"
    ensures SanitizeForScreenReader("RESETCOLOR") == ""
  {
    JoinedReset("RESET", "COLOR");
    ResetAlone(ResetColour);
  }

  lemma JoinedReset(a: string, c: string)
    requires a == "RESET" && c == "COLOR"
    ensures SanitizeForScreenReader(a + ResetColour + c) == ResetColour
  {
    JoinedNoMarkers(a + ResetColour + c);
    ResetTokenJoined(a, c);
    ResetIdle(AnyOf(UnprintableSymbols), ResetColour);
    ResetIdle(AnyOf(DisplayEscapes), ResetColour);
    ResetIdle(ColourAnyLead, ResetColour);
    SanitizeStages(a + ResetColour + c, a + ResetColour + c, ResetColour, ResetColour, ResetColour);
  }

  lemma JoinedNoMarkers(text: string)
    requires text == "RESET" + ResetColour + "COLOR"
    ensures ReplaceMarkers(text) == text
  {
    NoAngleNoMarkers(text);
  }

  /** Capital letters are left alone by the passes after the reset-colour one. */
  lemma CapitalsIdle(p: Pattern, t: string)
    requires forall i | 0 <= i < |t| :: 'A' <= t[i] <= 'Z'
    requires p == AnyOf(UnprintableSymbols) || p == AnyOf(DisplayEscapes) || p == ColourAnyLead
    ensures RewriteAll(p, t) == t
  {
    NoTriggerUnchanged(p, t);
  }

  lemma ResetIdle(p: Pattern, t: string)
    requires t == ResetColour
    requires p == AnyOf(UnprintableSymbols) || p == AnyOf(DisplayEscapes) || p == ColourAnyLead
    ensures RewriteAll(p, t) == t
  {
    ResetCapitals(t);
    CapitalsIdle(p, t);
  }

  lemma ResetCapitals(t: string)
    requires t == ResetColour
    ensures forall i | 0 <= i < |t| :: 'A' <= t[i] <= 'Z'
  {
  }

  lemma ResetAlone(t: string)
    requires t == ResetColour
    ensures SanitizeForScreenReader(t) == ""
  {
    JoinedNoMarkersAlone(t);
    ResetDeleted(t);
  }

  lemma JoinedNoMarkersAlone(t: string)
    requires t == ResetColour
    ensures ReplaceMarkers(t) == t
  {
    NoAngleNoMarkers(t);
  }

  lemma ResetDeleted(t: string)
    requires t == ResetColour
    ensures RewriteAll(Literal(ResetColour), t) == ""
  {
    assert MatchAt(Literal(ResetColour), t) == Some(Hit(10, ""));
    RewriteHead(Literal(ResetColour), t, Hit(10, ""));
  }

  /** The reset-colour pass over `RESETRESETCOLORCOLOR`. */
  lemma ResetTokenJoined(a: string, c: string)
    requires a == "RESET" && c == "COLOR"
    ensures RewriteAll(Literal(ResetColour), a + ResetColour + c) == ResetColour
  {
    var p := Literal(ResetColour);
    var s := a + ResetColour + c;
    JoinedResetMisses(a, c, s);
    RewriteMiss(p, s);
    JoinedResetTail(a[1..], c);
    assert [s[0]] + (a[1..] + c) == ResetColour;
  }

  lemma JoinedResetMisses(a: string, c: string, s: string)
    requires a == "RESET" && c == "COLOR" && s == a + ResetColour + c
    ensures s != [] && MatchAt(Literal(ResetColour), s).None?
    ensures s[1..] == a[1..] + (ResetColour + c)
  {
    assert s[..10][5] != ResetColour[5];
  }

  lemma JoinedResetTail(a: string, c: string)
    requires a == "ESET" && c == "COLOR"
    ensures RewriteAll(Literal(ResetColour), a + (ResetColour + c)) == a + c
  {
    var p := Literal(ResetColour);
    RewriteAppend(p, a, ResetColour + c);
    assert MatchAt(p, ResetColour + c) == Some(Hit(|ResetColour|, ""));
    RewritePrefix(p, ResetColour, c, "");
    TokenFreeUnchanged(c, ResetColour);
  }

  /** Every character of `s` is outside `bad`. */
  predicate Lacks(s: string, bad: set<char>) {
    forall ch | ch in s :: ch !in bad
  }

  /** Text preceding a colour code, the backslash-less code `c[d]` and the coloured word. */
  function ColouredWord(x: string, d: string, w: string): string {
    x + "c[" + d + "]" + w
  }

  /** A coloured word between ordinary pieces holds no marker, reset token, symbol or framing. */
  lemma ColouredWordChars(x: string, d: string, w: string)
    requires Ordinary(x) && Ordinary(w) && AllDigits(d)
    ensures Lacks(ColouredWord(x, d, w), {'<', 'R'} + UnprintableSymbols + DisplayEscapes)
  {
    var s := ColouredWord(x, d, w);
    forall ch | ch in s ensures ch in x || ch in "c[" || ch in d || ch in "]" || ch in w {
    }
  }

  /** The reset-colour pass deletes the tokens closing the two coloured words. */
  lemma ResetPassOverWords(p1: string, p2: string, c: string)
    requires Lacks(p1, {'R'}) && Lacks(p2, {'R'}) && Lacks(c, {'R'})
    ensures RewriteAll(Literal(ResetColour), p1 + ResetColour + (p2 + ResetColour + c)) == p1 + (p2 + c)
  {
    assert forall i | 0 <= i < |p1| :: p1[i] in p1;
    assert forall i | 0 <= i < |p2| :: p2[i] in p2;
    assert forall i | 0 <= i < |c| :: c[i] in c;
    ResetTokenDeleted(p1, p2 + ResetColour + c);
    ResetTokenDeleted(p2, c);
    NoTriggerUnchanged(Literal(ResetColour), c);
  }

  /** The colour pass deletes a backslash-less colour code and goes on after its word. */
  lemma ColourPassOverWord(x: string, d: string, w: string, y: string)
    requires Lacks(x, {'c', '\\'}) && Lacks(w, {'c', '\\'})
    requires d != [] && AllDigits(d)
    ensures RewriteAll(ColourAnyLead, ColouredWord(x, d, w) + y) == x + (w + RewriteAll(ColourAnyLead, y))
  {
    assert ColouredWord(x, d, w) + y == x + "c[" + d + "]" + (w + y);
    assert forall i | 0 <= i < |x| :: x[i] in x;
    BareColourCodeDeleted(x, d, w + y);
    assert forall i | 0 <= i < |w| :: w[i] in w;
    RewriteAppend(ColourAnyLead, w, y);
  }

  /**
   * Two words coloured with backslash-less colour codes, each closed by a reset-colour
   * token, are read as plain words.
   */
  lemma ColouredWordsRead(a: string, d1: string, w1: string, b: string, d2: string, w2: string, c: string)
    requires Ordinary(a) && Ordinary(w1) && Ordinary(b) && Ordinary(w2) && Ordinary(c)
    requires Lacks(a, {'c', '\\'}) && Lacks(w1, {'c', '\\'}) && Lacks(b, {'c', '\\'}) && Lacks(w2, {'c', '\\'})
    requires d1 != [] && AllDigits(d1) && d2 != [] && AllDigits(d2)
    ensures SanitizeForScreenReader(ColouredWord(a, d1, w1) + ResetColour + (ColouredWord(b, d2, w2) + ResetColour + c))
         == a + (w1 + (b + (w2 + c)))
  {
    var p1, p2 := ColouredWord(a, d1, w1), ColouredWord(b, d2, w2);
    ColouredWordChars(a, d1, w1);
    ColouredWordChars(b, d2, w2);
    WordsNoMarkers(p1, p2, c);
    ResetPassOverWords(p1, p2, c);
    WordsNoSymbols(p1, p2, c);
    ColourPassOverWord(a, d1, w1, p2 + c);
    ColourPassOverWord(b, d2, w2, c);
    assert forall i | 0 <= i < |c| :: c[i] in c;
    NoTriggerUnchanged(ColourAnyLead, c);
  }

  lemma WordsNoMarkers(p1: string, p2: string, c: string)
    requires Lacks(p1, {'<'}) && Lacks(p2, {'<'}) && Ordinary(c)
    ensures ReplaceMarkers(p1 + ResetColour + (p2 + ResetColour + c)) == p1 + ResetColour + (p2 + ResetColour + c)
  {
    var text := p1 + ResetColour + (p2 + ResetColour + c);
    assert forall i | 0 <= i < |text| :: text[i] in text;
    NoAngleNoMarkers(text);
  }

  lemma WordsNoSymbols(p1: string, p2: string, c: string)
    requires Lacks(p1, UnprintableSymbols + DisplayEscapes) && Lacks(p2, UnprintableSymbols + DisplayEscapes) && Ordinary(c)
    ensures var t := p1 + (p2 + c);
      RewriteAll(AnyOf(DisplayEscapes), RewriteAll(AnyOf(UnprintableSymbols), t)) == t
  {
    var t := p1 + (p2 + c);
    assert forall i | 0 <= i < |t| :: t[i] in t;
    NoTriggerUnchanged(AnyOf(UnprintableSymbols), t);
    NoTriggerUnchanged(AnyOf(DisplayEscapes), t);
  }

  /**
   * A message with two words coloured by backslash-less colour codes (a `\c` the game's
   * JavaScript source reads as a plain `c`), each closed by a reset-colour token,
   * after the speaker's name.
   */
  lemma ResetColourCalls()
    ensures SanitizeForScreenReader("Lulu: No matter how " + "c[12]dark" + "RESETCOLOR" + " the night, the "
                                    + "c[2]morning" + "RESETCOLOR" + " always comes.")
         == "Lulu: No matter how " + "dark" + " the night, the " + "morning" + " always comes."
  {
    var a, w1, b, w2, c := "Lulu: No matter how ", "dark", " the night, the ", "morning", " always comes.";
    LuluProse(a, w1, b, w2, c);
    LuluNoColourStart(a, w1, b, w2);
    assert AllDigits("12") && AllDigits("2");
    ColouredWordsRead(a, "12", w1, b, "2", w2, c);
    LuluPieces(a, w1, b, w2, c);
  }

  lemma LuluProse(a: string, w1: string, b: string, w2: string, c: string)
    requires a == "Lulu: No matter how " && w1 == "dark" && b == " the night, the " && w2 == "morning" && c == " always comes."
    ensures Ordinary(a) && Ordinary(w1) && Ordinary(b) && Ordinary(w2) && Ordinary(c)
  {
  }

  lemma LuluNoColourStart(a: string, w1: string, b: string, w2: string)
    requires a == "Lulu: No matter how " && w1 == "dark" && b == " the night, the " && w2 == "morning"
    ensures Lacks(a, {'c', '\\'}) && Lacks(w1, {'c', '\\'}) && Lacks(b, {'c', '\\'}) && Lacks(w2, {'c', '\\'})
  {
  }

  lemma LuluPieces(a: string, w1: string, b: string, w2: string, c: string)
    requires a == "Lulu: No matter how " && w1 == "dark" && b == " the night, the " && w2 == "morning" && c == " always comes."
    ensures ColouredWord(a, "12", w1) + ResetColour + (ColouredWord(b, "2", w2) + ResetColour + c)
         == a + "c[12]dark" + "RESETCOLOR" + b + "c[2]morning" + "RESETCOLOR" + c
    ensures a + (w1 + (b + (w2 + c))) == a + w1 + b + w2 + c
  {
    assert ColouredWord(a, "12", w1) == a + "c[12]dark";
    assert ColouredWord(b, "2", w2) == b + "c[2]morning";
  }

  // ---------------------------------------------------------------------------
  // The name-box sanitizer

  /** A name as the name-box whitelist keeps it, without a reset-colour token to start. */
  predicate PlainName(name: string) {
    name != [] && forall i | 0 <= i < |name| :: IsNameBoxChar(name[i]) && name[i] != 'R'
  }

  /** The first four passes of the name-box sanitizer, before the whitelist. */
  function ColourPassesOfNameBox(text: string): string {
    var t := RewriteAll(ColourLead(BackslashLead), text);
    var t := RewriteAll(ColourLead(NonPrintableLead), t);
    var t := RewriteAll(LoneColour, t);
    RewriteAll(Literal(ResetColour), t)
  }

  lemma AngledNameChars(name: string)
    requires PlainName(name)
    ensures forall i | 0 <= i < |"<" + name + ">"| ::
      var c := ("<" + name + ">")[i]; c != '[' && c != '\\' && c != 'R' && IsPrintableAscii(c)
  {
  }

  /** Text without `[`, backslash or `R` passes the first four passes of the name-box sanitizer unchanged. */
  lemma ColourPassesIdle(text: string)
    requires forall i | 0 <= i < |text| :: text[i] != '[' && text[i] != '\\' && text[i] != 'R'
    ensures ColourPassesOfNameBox(text) == text
  {
    NameBoxColourPassesFree(text);
    NoTriggerUnchanged(Literal(ResetColour), text);
  }

  /** A name in angle brackets, as a speaker tag, is read without them. */
  lemma AngledName(name: string)
    requires PlainName(name)
    ensures SanitizeNameBoxText("<" + name + ">") == name
  {
    AngledNameChars(name);
    ColourPassesIdle("<" + name + ">");
    AngleBracketsDropped(name);
  }

  /** A name in angle brackets, coloured by `\\c[d]` and closed by a reset-colour token, is read plain. */
  lemma ColouredAngledNameReset(d: string, name: string)
    requires d != [] && AllDigits(d) && PlainName(name)
    ensures SanitizeNameBoxText("\\c[" + d + "]" + ("<" + name + ">") + ResetColour) == name
  {
    var core := "<" + name + ">";
    var y := core + ResetColour;
    assert "\\c[" + d + "]" + core + ResetColour == "\\c[" + d + "]" + y;
    AngledNameChars(name);
    ResetClosedIdle(core);
    OpeningColourCode(d, y);
    NoTriggerUnchanged(ColourLead(BackslashLead), y);
    ResetClosedDeleted(core);
    NameBoxStages("\\c[" + d + "]" + y, y, y, y, core);
    AngleBracketsDropped(name);
  }

  /** The backslash colour code opening a boxText is deleted by the first pass. */
  lemma OpeningColourCode(d: string, y: string)
    requires d != [] && AllDigits(d)
    ensures RewriteAll(ColourLead(BackslashLead), "\\c[" + d + "]" + y) == RewriteAll(ColourLead(BackslashLead), y)
  {
    assert "\\c[" == ['\\'] + "c[";
    LeadColourCodeAtHead(BackslashLead, '\\', d, y);
  }

  /** No colour code can be completed and no lone colour directive can start in `s`. */
  predicate NoColourMarkup(s: string) {
    forall i | 0 <= i < |s| :: s[i] != '[' && s[i] != '\\'
  }

  lemma NoColourMarkupAppend(a: string, b: string)
    requires NoColourMarkup(a) && NoColourMarkup(b)
    ensures NoColourMarkup(a + b)
  {
    forall i | 0 <= i < |a + b| ensures (a + b)[i] == if i < |a| then a[i] else b[i - |a|] {
    }
  }

  /** A core closed by a reset-colour token passes the malformed-colour and lone-colour passes. */
  lemma ResetClosedIdle(core: string)
    requires NoColourMarkup(core)
    ensures NoColourMarkup(core + ResetColour)
    ensures RewriteAll(ColourLead(NonPrintableLead), core + ResetColour) == core + ResetColour
    ensures RewriteAll(LoneColour, core + ResetColour) == core + ResetColour
  {
    assert NoColourMarkup(ResetColour);
    NoColourMarkupAppend(core, ResetColour);
    NoTriggerUnchanged(ColourLead(NonPrintableLead), core + ResetColour);
    NoTriggerUnchanged(LoneColour, core + ResetColour);
  }

  /** The reset-colour token closing a core without `R` is deleted. */
  lemma ResetClosedDeleted(core: string)
    requires forall i | 0 <= i < |core| :: core[i] != 'R'
    ensures RewriteAll(Literal(ResetColour), core + ResetColour) == core
  {
    ResetTokenDeleted(core, []);
    assert core + ResetColour + [] == core + ResetColour;
  }

  /** A core coloured by `\\c[d]` and closed by a lone `\\c`: only the whitelist pass is left for the core. */
  lemma ColouredCoreLone(d: string, core: string)
    requires d != [] && AllDigits(d) && NoColourMarkup(core)
    requires forall i | 0 <= i < |core| :: core[i] != 'R'
    ensures SanitizeNameBoxText("\\c[" + d + "]" + (core + "\\c")) == RewriteAll(RunOf(NotNameBox, ""), core)
  {
    var y := core + "\\c";
    LoneClosedChars(core);
    OpeningColourCode(d, y);
    NoTriggerUnchanged(ColourLead(BackslashLead), y);
    NoTriggerUnchanged(ColourLead(NonPrintableLead), y);
    LoneClosedDeleted(core);
    NoTriggerUnchanged(Literal(ResetColour), core);
    NameBoxStages("\\c[" + d + "]" + y, y, y, core, core);
  }

  lemma LoneClosedChars(core: string)
    requires NoColourMarkup(core)
    ensures forall i | 0 <= i < |core + "\\c"| :: (core + "\\c")[i] != '['
  {
    forall i | 0 <= i < |core + "\\c"| ensures (core + "\\c")[i] != '[' {
      if i >= |core| {
        assert (core + "\\c")[i] == "\\c"[i - |core|];
      }
    }
  }

  lemma LoneClosedDeleted(core: string)
    requires NoColourMarkup(core)
    ensures RewriteAll(LoneColour, core + "\\c") == core
  {
    LoneColourDeleted(core, []);
    assert core + "\\c" + [] == core + "\\c";
  }

  /**
   * A core behind a colour code and a malformed colour code (a non-printable character
   * in place of the backslash), closed by a reset-colour token: only the whitelist pass
   * is left for the core.
   */
  lemma MalformedColourCore(d1: string, e: char, d2: string, core: string)
    requires d1 != [] && AllDigits(d1) && d2 != [] && AllDigits(d2) && !IsPrintableAscii(e)
    requires NoColourMarkup(core) && forall i | 0 <= i < |core| :: core[i] != 'R'
    ensures SanitizeNameBoxText("\\c[" + d1 + "]" + ([e] + "c[" + d2 + "]" + (core + ResetColour)))
         == RewriteAll(RunOf(NotNameBox, ""), core)
  {
    var z := core + ResetColour;
    var y := [e] + "c[" + d2 + "]" + z;
    ResetClosedIdle(core);
    OpeningColourCode(d1, y);
    MalformedNoBackslash(e, d2, z);
    RewriteAppend(ColourLead(BackslashLead), y, []);
    assert y + [] == y;
    LeadColourCodeAtHead(NonPrintableLead, e, d2, z);
    ResetClosedDeleted(core);
    NameBoxStages("\\c[" + d1 + "]" + y, y, z, z, core);
  }

  lemma MalformedNoBackslash(e: char, d: string, z: string)
    requires !IsPrintableAscii(e) && AllDigits(d) && NoColourMarkup(z)
    ensures forall i | 0 <= i < |[e] + "c[" + d + "]" + z| :: ([e] + "c[" + d + "]" + z)[i] != '\\'
  {
    var y := [e] + "c[" + d + "]" + z;
    forall i | 0 <= i < |y| ensures y[i] != '\\' {
      if i < 3 {
      } else if i < 3 + |d| {
        assert y[i] == d[i - 3];
      } else if i == 3 + |d| {
      } else {
        assert y[i] == z[i - 4 - |d|];
      }
    }
  }

  /** A speaker tag in the name box: the angle brackets go. */
  lemma SpeakerTagLabel()
    ensures SanitizeNameBoxText("<Mario>") == "Mario"
  {
    MarioLabel("<Mario>", "Mario");
  }

  lemma MarioLabel(box: string, name: string)
    requires box == "<Mario>" && name == "Mario"
    ensures SanitizeNameBoxText(box) == name
  {
    NamedSpeaker(name);
    AngledName(name);
    assert "<" + name + ">" == box;
  }

  /** A name coloured by a colour code and closed by a lone colour directive. */
  lemma ColouredLabel()
    ensures SanitizeNameBoxText("\\c[2]Lara Croft\\c") == "Lara Croft"
  {
    LaraLabel("\\c[2]Lara Croft\\c", "2", "Lara Croft");
  }

  lemma LaraLabel(text: string, d: string, name: string)
    requires text == "\\c[2]Lara Croft\\c" && d == "2" && name == "Lara Croft"
    ensures SanitizeNameBoxText(text) == name
  {
    LaraChars(name);
    ColouredCoreLone(d, name);
    NoTriggerUnchanged(RunOf(NotNameBox, ""), name);
    LaraPieces(text, d, name);
  }

  lemma LaraChars(name: string)
    requires name == "Lara Croft"
    ensures NoColourMarkup(name) && forall i | 0 <= i < |name| :: name[i] != 'R' && IsNameBoxChar(name[i])
  {
  }

  lemma LaraPieces(text: string, d: string, name: string)
    requires text == "\\c[2]Lara Croft\\c" && d == "2" && name == "Lara Croft"
    ensures "\\c[" + d + "]" + (name + "\\c") == text
  {
  }

  /** A coloured speaker tag closed by a lone colour directive. */
  lemma ColouredSpeakerTagLabel()
    ensures SanitizeNameBoxText("\\c[5]<Campbell>\\c") == "Campbell"
  {
    CampbellLabel("\\c[5]<Campbell>\\c", "5", "Campbell");
  }

  lemma CampbellLabel(text: string, d: string, name: string)
    requires text == "\\c[5]<Campbell>\\c" && d == "5" && name == "Campbell"
    ensures SanitizeNameBoxText(text) == name
  {
    var core := "<" + name + ">";
    NamedSpeaker(name);
    AngledNameChars(name);
    ColouredCoreLone(d, core);
    AngleBracketsDropped(name);
    CampbellPieces(text, d, name);
  }

  lemma NamedSpeaker(name: string)
    requires name == "Campbell" || name == "Lulu" || name == "Count Dracular" || name == "Mario"
    ensures PlainName(name)
  {
  }

  lemma CampbellPieces(text: string, d: string, name: string)
    requires text == "\\c[5]<Campbell>\\c" && d == "5" && name == "Campbell"
    ensures "\\c[" + d + "]" + ("<" + name + ">" + "\\c") == text
  {
  }

  /** A coloured speaker tag closed by a reset-colour token. */
  lemma ResetColourLabel()
    ensures SanitizeNameBoxText("\\c[15]<Lulu>RESETCOLOR") == "Lulu"
  {
    LuluLabel("\\c[15]<Lulu>RESETCOLOR", "15", "Lulu");
  }

  lemma LuluLabel(text: string, d: string, name: string)
    requires text == "\\c[15]<Lulu>RESETCOLOR" && d == "15" && name == "Lulu"
    ensures SanitizeNameBoxText(text) == name
  {
    NamedSpeaker(name);
    ColouredAngledNameReset(d, name);
    LuluLabelPieces(text, d, name);
  }

  lemma LuluLabelPieces(text: string, d: string, name: string)
    requires text == "\\c[15]<Lulu>RESETCOLOR" && d == "15" && name == "Lulu"
    ensures "\\c[" + d + "]" + ("<" + name + ">") + ResetColour == text
  {
  }

  /** A second colour code whose backslash has become an escape character is removed too. */
  lemma MalformedColourLabel()
    ensures SanitizeNameBoxText("\\c[15]" + [Esc] + "c[12]<Count Dracular>RESETCOLOR") == "Count Dracular"
  {
    DraculaLabel("\\c[15]" + [Esc] + "c[12]<Count Dracular>RESETCOLOR", "Count Dracular");
  }

  lemma DraculaLabel(text: string, name: string)
    requires text == "\\c[15]" + [Esc] + "c[12]<Count Dracular>RESETCOLOR" && name == "Count Dracular"
    ensures SanitizeNameBoxText(text) == name
  {
    var core := "<" + name + ">";
    NamedSpeaker(name);
    AngledNameChars(name);
    MalformedColourCore("15", Esc, "12", core);
    AngleBracketsDropped(name);
    DraculaPieces(text, core);
  }

  lemma DraculaPieces(text: string, core: string)
    requires text == "\\c[15]" + [Esc] + "c[12]<Count Dracular>RESETCOLOR" && core == "<" + "Count Dracular" + ">"
    ensures "\\c[" + "15" + "]" + ([Esc] + "c[" + "12" + "]" + (core + ResetColour)) == text
  {
  }

  // ---------------------------------------------------------------------------
  // Whole announcements

  /** A speaker and a message made of ordinary prose are announced as `speaker: message`. */
  lemma PlainAnnouncement(speaker: string, text: string)
    requires Ordinary(speaker) && Ordinary(text)
    ensures SanitizeForScreenReader(speaker + ": " + text) == speaker + ": " + text
  {
    assert Ordinary(": ");
    Ordinary3(speaker, ": ", text);
    OrdinaryTextUnchanged(speaker + ": " + text);
  }

  /** A face worn by an actor: the actor's name speaks the message. */
  lemma FaceOfActorAnnounced()
    ensures MessageAnnouncement(MessageWindow(None, "butterface", [Some(Actor("Butterface the Cow", "butterface"))]), "Mooooo!")
         == "Butterface the Cow" + ": " + "Mooooo!"
  {
    FaceOfActor("butterface", "Butterface the Cow", "Mooooo!");
  }

  lemma FaceOfActor(face: string, name: string, text: string)
    requires face == "butterface" && name == "Butterface the Cow" && text == "Mooooo!"
    ensures MessageAnnouncement(MessageWindow(None, face, [Some(Actor(name, face))]), text) == name + ": " + text
  {
    FaceSpeakerIsFirstActor(face, [Some(Actor(name, face))], 0, text);
    CowProse(face, name, text);
    PlainAnnouncement(name, text);
  }

  lemma CowProse(face: string, name: string, text: string)
    requires face == "butterface" && name == "Butterface the Cow" && text == "Mooooo!"
    ensures Ordinary(face) && Ordinary(name) && Ordinary(text)
  {
  }

  /** A face no actor wears: the face name speaks the message. */
  lemma FaceNameAnnounced()
    ensures MessageAnnouncement(MessageWindow(None, "butterface", []), "Mooooo!") == "butterface" + ": " + "Mooooo!"
  {
    FaceName("butterface", "Mooooo!");
  }

  lemma FaceName(face: string, text: string)
    requires face == "butterface" && text == "Mooooo!"
    ensures MessageAnnouncement(MessageWindow(None, face, []), text) == face + ": " + text
  {
    FaceSpeakerFallback(face, [], text);
    CowProse(face, "Butterface the Cow", text);
    PlainAnnouncement(face, text);
  }

  /** A speaker tag in the name box names the speaker of the message. */
  lemma SpeakerTagAnnounced()
    ensures MessageAnnouncement(MessageWindow(Some("<Mario>"), "", []), "It's a me!") == "Mario" + ": " + "It's a me!"
  {
    SpeakerTag("<Mario>", "Mario", "It's a me!");
  }

  lemma SpeakerTag(box: string, name: string, text: string)
    requires box == "<Mario>" && name == "Mario" && text == "It's a me!"
    ensures MessageAnnouncement(MessageWindow(Some(box), "", []), text) == name + ": " + text
  {
    MarioLabel(box, name);
    MarioProse(name, text);
    PlainAnnouncement(name, text);
  }

  lemma MarioProse(name: string, text: string)
    requires name == "Mario" && text == "It's a me!"
    ensures Ordinary(name) && Ordinary(text)
  {
  }

  /** A speaker followed by ordinary prose between runs of font-size framing: only the framing goes. */
  lemma SpokenFramed(speaker: string, open: string, body: string, close: string)
    requires Ordinary(speaker)
    requires forall i | 0 <= i < |open| :: open[i] in DisplayEscapes
    requires forall i | 0 <= i < |close| :: close[i] in DisplayEscapes
    requires Ordinary(body)
    ensures SanitizeForScreenReader(speaker + ": " + (open + body + close)) == speaker + ": " + body
  {
    var lead := speaker + ": ";
    var framed := open + body + close;
    assert Ordinary(": ");
    OrdinaryAppend(speaker, ": ");
    FramingMarkupFree(open);
    FramingMarkupFree(close);
    NoMarkupAppend(open, body);
    NoMarkupAppend(open + body, close);
    NoMarkupAppend(lead, framed);
    SymbolsAndFramingRemoved(lead + framed);
    WithoutAppend(lead, framed, UnprintableSymbols);
    WithoutNothing(lead, UnprintableSymbols);
    FramedNoSymbols(open, body, close);
    WithoutAppend(lead, framed, DisplayEscapes);
    WithoutNothing(lead, DisplayEscapes);
    FramingDropped(open, body, close);
  }

  /** A coloured name box and a plain message. */
  lemma ColouredSpeakerAnnounced()
    ensures MessageAnnouncement(MessageWindow(Some("\\c[2]Lara Croft\\c"), "", []), "Hmmm. Where did I put that buttler?")
         == "Lara Croft" + ": " + "Hmmm. Where did I put that buttler?"
  {
    ColouredSpeaker("\\c[2]Lara Croft\\c", "Lara Croft", "Hmmm. Where did I put that buttler?");
  }

  lemma ColouredSpeaker(box: string, name: string, text: string)
    requires box == "\\c[2]Lara Croft\\c" && name == "Lara Croft" && text == "Hmmm. Where did I put that buttler?"
    ensures MessageAnnouncement(MessageWindow(Some(box), "", []), text) == name + ": " + text
  {
    LaraLabel(box, "2", name);
    LaraProse(name, text);
    PlainAnnouncement(name, text);
  }

  lemma LaraProse(name: string, text: string)
    requires name == "Lara Croft" && text == "Hmmm. Where did I put that buttler?"
    ensures Ordinary(name) && Ordinary(text)
  {
  }

  /** A coloured speaker tag and a message in larger font. */
  lemma LargerFontAnnounced()
    ensures MessageAnnouncement(MessageWindow(Some("\\c[5]<Campbell>\\c"), "", []), "{{{" + "SNAAAAAKE!" + "}}}")
         == "Campbell" + ": " + "SNAAAAAKE!"
  {
    LargerFontMessage("\\c[5]<Campbell>\\c", "Campbell", "SNAAAAAKE!");
  }

  lemma LargerFontMessage(box: string, name: string, body: string)
    requires box == "\\c[5]<Campbell>\\c" && name == "Campbell" && body == "SNAAAAAKE!"
    ensures MessageAnnouncement(MessageWindow(Some(box), "", []), "{{{" + body + "}}}") == name + ": " + body
  {
    CampbellLabel(box, "5", name);
    CampbellProse(name, body);
    SpokenFramed(name, "{{{", body, "}}}");
  }

  lemma CampbellProse(name: string, body: string)
    requires name == "Campbell" && body == "SNAAAAAKE!"
    ensures Ordinary(name) && Ordinary(body)
  {
  }

  /** A plain name box and a message in smaller font. */
  lemma SmallerFontAnnounced()
    ensures MessageAnnouncement(MessageWindow(Some("Youngster"), "", []),
                                "}" + ("I like shorts. " + "They're comfortable " + "and easy to wear.") + "{")
         == "Youngster: " + ("I like shorts. " + "They're comfortable " + "and easy to wear.")
  {
    var a, b, c := "I like shorts. ", "They're comfortable ", "and easy to wear.";
    ShortsProse(a, b, c);
    Ordinary3(a, b, c);
    SmallerFontMessage("Youngster", a + b + c);
  }

  lemma SmallerFontMessage(name: string, body: string)
    requires name == "Youngster" && Ordinary(body)
    ensures MessageAnnouncement(MessageWindow(Some(name), "", []), "}" + body + "{") == name + ": " + body
  {
    YoungsterChars(name);
    NoLeadNoOccurrence(name, ResetColour);
    NameBoxPlainUnchanged(name);
    SpokenFramed(name, "}", body, "{");
  }

  lemma YoungsterChars(name: string)
    requires name == "Youngster"
    ensures Ordinary(name)
    ensures forall i | 0 <= i < |name| :: IsNameBoxChar(name[i]) && name[i] != ResetColour[0]
  {
  }

  /** A coloured name box and a message with two coloured words, each closed by a reset-colour token. */
  lemma ResetColourAnnounced()
    ensures MessageAnnouncement(MessageWindow(Some("\\c[15]<Lulu>RESETCOLOR"), "", []),
                                "No matter how " + "c[12]dark" + "RESETCOLOR" + " the night, the "
                                + "c[2]morning" + "RESETCOLOR" + " always comes.")
         == "Lulu: No matter how " + "dark" + " the night, the " + "morning" + " always comes."
  {
    ResetColourMessage("\\c[15]<Lulu>RESETCOLOR", "No matter how " + "c[12]dark" + "RESETCOLOR" + " the night, the "
                       + "c[2]morning" + "RESETCOLOR" + " always comes.");
  }

  lemma ResetColourMessage(box: string, text: string)
    requires box == "\\c[15]<Lulu>RESETCOLOR"
    requires text == "No matter how " + "c[12]dark" + "RESETCOLOR" + " the night, the " + "c[2]morning" + "RESETCOLOR" + " always comes."
    ensures MessageAnnouncement(MessageWindow(Some(box), "", []), text)
         == "Lulu: No matter how " + "dark" + " the night, the " + "morning" + " always comes."
  {
    ResetColourLabel();
    LuluMessagePieces(text);
    ResetColourCalls();
  }

  lemma LuluMessagePieces(text: string)
    requires text == "No matter how " + "c[12]dark" + "RESETCOLOR" + " the night, the " + "c[2]morning" + "RESETCOLOR" + " always comes."
    ensures "Lulu" + ": " + text == "Lulu: No matter how " + "c[12]dark" + "RESETCOLOR" + " the night, the "
                                    + "c[2]morning" + "RESETCOLOR" + " always comes."
  {
    assert "Lulu" + ": " + "No matter how " == "Lulu: No matter how ";
  }

  /** A skill with a name only is announced by its name. */
  lemma NameOnlySkill(db: Databases)
    ensures SkillAnnouncement(Some(Skill("Attack", "")), db) == Some("Attack")
  {
    assert Ordinary("Attack");
    OrdinaryTextUnchanged("Attack");
  }

  /** The states table, holding one state whose icon is 1, named "blindness". */
  const BlindnessOnly: Databases := Databases([], [], [], [], [Some(Entry(Some(1), "blindness"))])

  /** An icon in a skill description is replaced by the name of the state that uses it. */
  lemma IconNamedInDescription()
    ensures SkillAnnouncement(Some(Skill("Jumping Flash", "Leap into the air " + "and blind the enemy " + "with a flash of "
                                          + "light. Causes " + "\\I[1]" + " for 3 turns.")), BlindnessOnly)
         == Some("Jumping Flash" + ": " + ("Leap into the air " + "and blind the enemy " + "with a flash of "
                                           + "light. Causes " + "blindness " + " for 3 turns."))
  {
    var before := "Leap into the air " + "and blind the enemy " + "with a flash of " + "light. Causes ";
    IconInSkill("Jumping Flash", before, "\\I[1]", " for 3 turns.");
  }

  lemma IconInSkill(name: string, before: string, token: string, after: string)
    requires name == "Jumping Flash" && after == " for 3 turns." && token == "\\I[1]"
    requires before == "Leap into the air " + "and blind the enemy " + "with a flash of " + "light. Causes "
    ensures SkillAnnouncement(Some(Skill(name, before + token + after)), BlindnessOnly)
         == Some(name + ": " + (before + "blindness " + after))
  {
    SkillProse(name, before, after);
    StateIconToken(token);
    IconBetweenProse(name, before, token, after);
  }

  /** A description with the blindness icon between prose without markup reads the state's name there. */
  lemma IconBetweenProse(name: string, before: string, token: string, after: string)
    requires Ordinary(name) && Unescaped(before) && Unescaped(after) && token == IconToken(false, true, "1")
    ensures SkillAnnouncement(Some(Skill(name, before + token + after)), BlindnessOnly)
         == Some(name + ": " + (before + "blindness " + after))
  {
    IconReplacedByBlindness(before, after);
    assert Ordinary("blindness ");
    Ordinary3(before, "blindness ", after);
    PlainAnnouncement(name, before + "blindness " + after);
  }

  lemma StateIconToken(token: string)
    requires token == "\\I[1]"
    ensures token == IconToken(false, true, "1")
  {
  }

  lemma BlindnessFound()
    ensures FindNameByIconIndex(1, BlindnessOnly) == Some("blindness")
  {
    StatesAreSearchedLast(BlindnessOnly, 0, 1);
  }

  /** With only the blindness state known, icon 1 between text without backslashes reads "blindness ". */
  lemma IconReplacedByBlindness(before: string, after: string)
    requires forall i | 0 <= i < |before| :: before[i] != '\\'
    requires forall i | 0 <= i < |after| :: after[i] != '\\'
    ensures ReplaceIconsWithNames(before + IconToken(false, true, "1") + after, BlindnessOnly) == before + "blindness " + after
  {
    OneIsDigits("1");
    IconTokenReplaced(BlindnessOnly, before, false, true, "1", after);
    BlindnessReplacement("1");
    NoIconUnchanged(after, BlindnessOnly);
  }

  lemma OneIsDigits(d: string)
    requires d == "1"
    ensures d != [] && AllDigits(d)
  {
  }

  lemma BlindnessReplacement(d: string)
    requires d == "1"
    ensures IconReplacement(FindNameByIconIndex(ParseDigits(d), BlindnessOnly)) == "blindness "
  {
    assert ParseDigits(d) == 1;
    BlindnessFound();
  }

  /** Prose without a backslash. */
  predicate Unescaped(s: string) {
    Ordinary(s) && forall i | 0 <= i < |s| :: s[i] != '\\'
  }

  lemma UnescapedAppend(a: string, b: string)
    requires Unescaped(a) && Unescaped(b)
    ensures Unescaped(a + b)
  {
    OrdinaryAppend(a, b);
    forall i | 0 <= i < |a + b| ensures (a + b)[i] == if i < |a| then a[i] else b[i - |a|] {
    }
  }

  lemma SkillProse(name: string, before: string, after: string)
    requires name == "Jumping Flash" && after == " for 3 turns."
    requires before == "Leap into the air " + "and blind the enemy " + "with a flash of " + "light. Causes "
    ensures Ordinary(name) && Ordinary(after) && Unescaped(before) && Unescaped(after)
  {
    var a, b, c, d := "Leap into the air ", "and blind the enemy ", "with a flash of ", "light. Causes ";
    FirstChunks(a, b);
    LastChunks(c, d);
    UnescapedAppend(a, b);
    UnescapedAppend(a + b, c);
    UnescapedAppend(a + b + c, d);
    SkillEnds(name, after);
  }

  lemma FirstChunks(a: string, b: string)
    requires a == "Leap into the air " && b == "and blind the enemy "
    ensures Unescaped(a) && Unescaped(b)
  {
  }

  lemma LastChunks(c: string, d: string)
    requires c == "with a flash of " && d == "light. Causes "
    ensures Unescaped(c) && Unescaped(d)
  {
  }

  lemma SkillEnds(name: string, after: string)
    requires name == "Jumping Flash" && after == " for 3 turns."
    ensures Ordinary(name) && Unescaped(after)
  {
  }
}
