/**
 * The announcement text of the current plugin (src/ScreenReaderAccess.js): the
 * general sanitizer every announcement goes through, the stricter sanitizer for
 * Yanfly name-box labels, icon substitution in descriptions, and the way the
 * message and skill-list announcements are put together from them.
 */
module ScreenReaderAccess {
  import opened Wrappers
  import opened Markup
  import opened Databases
  import opened Patterns

  /** The structural markers replaced (first occurrence only) by one space, in this order. */
  const Markers: seq<string> := ["<WordWrap>", "<SIMPLE>", "<CENTER>", "<br>", "<BR>"]

  const ResetColour: string := "RESETCOLOR"

  /**
   * The class of `unprintableSymbolsRegex`. Its source text holds two escape
   * characters (U+001B), the same character the test messages carry.
   */
  const UnprintableSymbols: set<char> := {'\U{1B}'}

  /** The font-size framing characters of `displayEscapeCharactersRegex`. */
  const DisplayEscapes: set<char> := {'{', '}', '^'}

  /** The five literal replacements, each of the first occurrence only. */
  function ReplaceMarkers(text: string): string {
    var t := ReplaceFirst(text, Markers[0], " ");
    var t := ReplaceFirst(t, Markers[1], " ");
    var t := ReplaceFirst(t, Markers[2], " ");
    var t := ReplaceFirst(t, Markers[3], " ");
    ReplaceFirst(t, Markers[4], " ")
  }

  /** The passes after the markers: reset-colour tokens, unprintable symbols, `{}^`. */
  function StripFormatting(text: string): string {
    var t := RewriteAll(Literal(ResetColour), text);
    var t := RewriteAll(AnyOf(UnprintableSymbols), t);
    RewriteAll(AnyOf(DisplayEscapes), t)
  }

  /** `sanitizeForScreenReader`: what every announcement is cleaned with before it is spoken. */
  function SanitizeForScreenReader(text: string): string {
    RewriteAll(ColourAnyLead, StripFormatting(ReplaceMarkers(text)))
  }

  /** The sanitizer pass by pass, with each intermediate text named. */
  lemma SanitizeStages(text: string, t1: string, t2: string, t3: string, t4: string)
    requires ReplaceMarkers(text) == t1
    requires RewriteAll(Literal(ResetColour), t1) == t2
    requires RewriteAll(AnyOf(UnprintableSymbols), t2) == t3
    requires RewriteAll(AnyOf(DisplayEscapes), t3) == t4
    ensures SanitizeForScreenReader(text) == RewriteAll(ColourAnyLead, t4)
  {
  }

  /** `sanitizeNameBoxText`: the stricter cleaning of a Yanfly name-box boxText. */
  function SanitizeNameBoxText(text: string): string {
    var t := RewriteAll(ColourLead(BackslashLead), text);
    var t := RewriteAll(ColourLead(NonPrintableLead), t);
    var t := RewriteAll(LoneColour, t);
    var t := RewriteAll(Literal(ResetColour), t);
    RewriteAll(RunOf(NotNameBox, ""), t)
  }

  /** The name-box sanitizer pass by pass, with each intermediate text named. */
  lemma NameBoxStages(text: string, t1: string, t2: string, t3: string, t4: string)
    requires RewriteAll(ColourLead(BackslashLead), text) == t1
    requires RewriteAll(ColourLead(NonPrintableLead), t1) == t2
    requires RewriteAll(LoneColour, t2) == t3
    requires RewriteAll(Literal(ResetColour), t3) == t4
    ensures SanitizeNameBoxText(text) == RewriteAll(RunOf(NotNameBox, ""), t4)
  {
  }

  /** `replaceIconsWithNames`: every icon token becomes the name its index resolves to. */
  function ReplaceIconsWithNames(text: string, db: Databases): string {
    RewriteAll(Icon(db), text)
  }

  // ---------------------------------------------------------------------------
  // The general sanitizer

  /** No `c[digits]` anywhere, whatever precedes it. */
  predicate ColourCodeFree(s: string) {
    forall i | 0 <= i <= |s| :: Bracketed(s[i..], {'c'}).None?
  }

  /** The announcement never contains `{`, `}`, `^` or an unprintable symbol: they are removed and the last pass only deletes. */
  lemma SanitizedHasNoFraming(text: string)
    ensures forall c | c in SanitizeForScreenReader(text) :: c !in DisplayEscapes && c !in UnprintableSymbols
  {
    var t6 := RewriteAll(Literal(ResetColour), ReplaceMarkers(text));
    var t7 := RewriteAll(AnyOf(UnprintableSymbols), t6);
    var t8 := RewriteAll(AnyOf(DisplayEscapes), t7);
    AnyOfRemoves(UnprintableSymbols, t6);
    DeletingKeepsChars(AnyOf(DisplayEscapes), t7);
    AnyOfRemoves(DisplayEscapes, t7);
    DeletingKeepsChars(ColourAnyLead, t8);
  }

  /** The colour pass only deletes characters. */
  lemma SanitizeOnlyShortensAfterMarkers(text: string)
    ensures |SanitizeForScreenReader(text)| <= |ReplaceMarkers(text)|
  {
    var t := ReplaceMarkers(text);
    DeletingShrinks(Literal(ResetColour), t);
    var t6 := RewriteAll(Literal(ResetColour), t);
    DeletingShrinks(AnyOf(UnprintableSymbols), t6);
    var t7 := RewriteAll(AnyOf(UnprintableSymbols), t6);
    DeletingShrinks(AnyOf(DisplayEscapes), t7);
    DeletingShrinks(ColourAnyLead, StripFormatting(t));
  }

  /**
   * Text with none of the markers, no reset-colour token, no unprintable symbol, no
   * `{`, `}`, `^` and no `c[digits]` is announced exactly as it is.
   */
  lemma PlainTextUnchanged(text: string)
    requires forall k | 0 <= k < |Markers| :: TokenFree(text, Markers[k])
    requires TokenFree(text, ResetColour)
    requires forall i | 0 <= i < |text| :: text[i] !in UnprintableSymbols && text[i] !in DisplayEscapes
    requires ColourCodeFree(text)
    ensures SanitizeForScreenReader(text) == text
  {
    assert TokenFree(text, Markers[0]) && TokenFree(text, Markers[1]) && TokenFree(text, Markers[2]);
    assert TokenFree(text, Markers[3]) && TokenFree(text, Markers[4]);
    ReplaceFirstAbsent(text, Markers[0], " ");
    ReplaceFirstAbsent(text, Markers[1], " ");
    ReplaceFirstAbsent(text, Markers[2], " ");
    ReplaceFirstAbsent(text, Markers[3], " ");
    ReplaceFirstAbsent(text, Markers[4], " ");
    TokenFreeUnchanged(text, ResetColour);
    NoTriggerUnchanged(AnyOf(UnprintableSymbols), text);
    NoTriggerUnchanged(AnyOf(DisplayEscapes), text);
    forall i | 0 <= i < |text| ensures MatchAt(ColourAnyLead, text[i..]).None? {
      var k := Run(Backslash, text[i..]);
      assert text[i..][k..] == text[i + k..];
    }
    NoMatchUnchanged(ColourAnyLead, text);
  }

  /** Ordinary prose: no `<`, `R`, `[`, framing or unprintable characters, so nothing to clean. */
  predicate Ordinary(text: string) {
    forall i | 0 <= i < |text| :: OrdinaryChar(text[i])
  }

  predicate OrdinaryChar(c: char) {
    c != '<' && c != 'R' && c != '[' && c !in UnprintableSymbols && c !in DisplayEscapes
  }

  lemma OrdinaryAppend(a: string, b: string)
    requires Ordinary(a) && Ordinary(b)
    ensures Ordinary(a + b)
  {
    forall i | 0 <= i < |a + b| ensures (a + b)[i] == if i < |a| then a[i] else b[i - |a|] {
    }
  }

  lemma OrdinaryTextUnchanged(text: string)
    requires Ordinary(text)
    ensures SanitizeForScreenReader(text) == text
  {
    forall k | 0 <= k < |Markers| ensures TokenFree(text, Markers[k]) {
      NoLeadNoOccurrence(text, Markers[k]);
    }
    NoLeadNoOccurrence(text, ResetColour);
    assert ColourCodeFree(text);
    PlainTextUnchanged(text);
  }

  /** A reset-colour token after text without `R` is deleted, and the pass goes on after it. */
  lemma ResetTokenDeleted(x: string, y: string)
    requires forall i | 0 <= i < |x| :: x[i] != 'R'
    ensures RewriteAll(Literal(ResetColour), x + ResetColour + y) == x + RewriteAll(Literal(ResetColour), y)
  {
    assert x + ResetColour + y == x + (ResetColour + y);
    RewriteAppend(Literal(ResetColour), x, ResetColour + y);
    ResetTokenAtHead(y);
  }

  lemma ResetTokenAtHead(y: string)
    ensures RewriteAll(Literal(ResetColour), ResetColour + y) == RewriteAll(Literal(ResetColour), y)
  {
    assert (ResetColour + y)[..|ResetColour|] == ResetColour;
    RewriteHead(Literal(ResetColour), ResetColour + y, Hit(|ResetColour|, ""));
    assert (ResetColour + y)[|ResetColour|..] == y;
  }

  /**
   * A colour code with no backslash at all, `c[digits]`, is deleted by the colour pass
   * (zero backslashes are allowed), and the pass goes on after it.
   */
  lemma BareColourCodeDeleted(x: string, digits: string, y: string)
    requires forall i | 0 <= i < |x| :: x[i] != '\\' && x[i] != 'c'
    requires digits != [] && AllDigits(digits)
    ensures RewriteAll(ColourAnyLead, x + "c[" + digits + "]" + y) == x + RewriteAll(ColourAnyLead, y)
  {
    assert x + "c[" + digits + "]" + y == x + ("c[" + digits + "]" + y);
    RewriteAppend(ColourAnyLead, x, "c[" + digits + "]" + y);
    BareColourCodeAtHead(digits, y);
  }

  lemma BareColourCodeAtHead(digits: string, y: string)
    requires digits != [] && AllDigits(digits)
    ensures RewriteAll(ColourAnyLead, "c[" + digits + "]" + y) == RewriteAll(ColourAnyLead, y)
  {
    var s := "c[" + digits + "]" + y;
    BareColourCodeMatched(digits, y);
    RewriteHead(ColourAnyLead, s, Hit(3 + |digits|, ""));
    assert s[3 + |digits|..] == y;
  }

  lemma BareColourCodeMatched(digits: string, y: string)
    requires digits != [] && AllDigits(digits)
    ensures MatchAt(ColourAnyLead, "c[" + digits + "]" + y) == Some(Hit(3 + |digits|, ""))
  {
    var s := "c[" + digits + "]" + y;
    BracketedCode('c', {'c'}, digits, y);
    assert s == ['c'] + "[" + digits + "]" + y;
    assert Run(Backslash, s) == 0;
    assert s[0..] == s;
  }

  /** Text without `R`, `[`, unprintable symbols or framing passes the steps after the markers unchanged. */
  lemma FormattingFree(text: string)
    requires forall i | 0 <= i < |text| :: text[i] != 'R' && text[i] != '[' && text[i] !in UnprintableSymbols && text[i] !in DisplayEscapes
    ensures RewriteAll(ColourAnyLead, StripFormatting(text)) == text
  {
    NoLeadNoOccurrence(text, ResetColour);
    TokenFreeUnchanged(text, ResetColour);
    NoTriggerUnchanged(AnyOf(UnprintableSymbols), text);
    NoTriggerUnchanged(AnyOf(DisplayEscapes), text);
    NoTriggerUnchanged(ColourAnyLead, text);
  }

  /** Text without `<` holds no marker, so the marker passes leave it as it is. */
  lemma NoAngleNoMarkers(text: string)
    requires forall i | 0 <= i < |text| :: text[i] != '<'
    ensures ReplaceMarkers(text) == text
  {
    forall k | 0 <= k < |Markers| ensures forall j | 0 <= j <= |text| :: !OccursAt(text, Markers[k], j) {
      NoLeadNoOccurrence(text, Markers[k]);
    }
    ReplaceFirstAbsent(text, Markers[0], " ");
    ReplaceFirstAbsent(text, Markers[1], " ");
    ReplaceFirstAbsent(text, Markers[2], " ");
    ReplaceFirstAbsent(text, Markers[3], " ");
    ReplaceFirstAbsent(text, Markers[4], " ");
  }

  /** The markers open with `<`, hold no other `<`, and differ pairwise in their second character. */
  lemma MarkerShapes()
    ensures forall k | 0 <= k < |Markers| :: |Markers[k]| >= 2 && Markers[k][0] == '<'
    ensures forall k, i | 0 <= k < |Markers| && 1 <= i < |Markers[k]| :: Markers[k][i] != '<'
    ensures forall x, y | 0 <= x < |Markers| && 0 <= y < |Markers| && x != y :: Markers[x][1] != Markers[y][1]
  {
  }

  /** A marker does not occur in another marker followed by text free of it. */
  lemma OtherMarkerAbsent(k: nat, b: string, j: nat)
    requires k < |Markers| && j < |Markers| && j != k
    requires TokenFree(b, Markers[j])
    ensures forall i | 0 <= i <= |Markers[k] + b| :: !OccursAt(Markers[k] + b, Markers[j], i)
  {
    MarkerShapes();
    var m := Markers[k];
    var pat := Markers[j];
    var s := m + b;
    forall i | 0 <= i <= |s| ensures !OccursAt(s, pat, i) {
      if i == 0 {
      } else if i < |m| {
      } else {
        if OccursAt(s, pat, i) {
          assert b[i - |m|..i - |m| + |pat|] == s[i..i + |pat|];
          assert OccursAt(b, pat, i - |m|);
        }
      }
    }
  }

  /** One marker pass over `a + Markers[k] + b`, where `a` has no `<` and `b` no other marker. */
  lemma MarkerPass(a: string, k: nat, b: string, j: nat)
    requires k < |Markers| && j < |Markers|
    requires forall i | 0 <= i < |a| :: a[i] != '<'
    requires j != k ==> TokenFree(b, Markers[j])
    ensures ReplaceFirst(a + Markers[k] + b, Markers[j], " ") == if j == k then a + " " + b else a + Markers[k] + b
  {
    MarkerShapes();
    var m := Markers[k];
    var pat := Markers[j];
    assert a + m + b == a + (m + b);
    ReplaceFirstSkip(a, m + b, pat, " ");
    var s := m + b;
    if j == k {
      assert OccursAt(s, pat, 0);
      ReplaceFirstAt(s, pat, " ", 0);
      assert s[|pat|..] == b;
    } else {
      OtherMarkerAbsent(k, b, j);
      ReplaceFirstAbsent(s, pat, " ");
    }
  }

  /**
   * Only the first occurrence of a marker becomes a space: in `a + marker + b`, with no
   * `<` in `a`, the marker is replaced and a repeat of it in `b` survives.
   */
  lemma OnlyFirstMarkerReplaced(a: string, k: nat, b: string)
    requires k < |Markers|
    requires forall i | 0 <= i < |a| :: a[i] != '<'
    requires forall j | 0 <= j < |Markers| && j != k :: TokenFree(b, Markers[j])
    ensures ReplaceMarkers(a + Markers[k] + b) == a + " " + b
  {
    var text := a + Markers[k] + b;
    var rest := a + " " + b;
    forall j | 0 <= j < |Markers| && j != k ensures ReplaceFirst(rest, Markers[j], " ") == rest {
      assert rest == (a + " ") + b;
      ReplaceFirstSkip(a + " ", b, Markers[j], " ");
      ReplaceFirstAbsent(b, Markers[j], " ");
    }
    MarkerPass(a, k, b, 0);
    MarkerPass(a, k, b, 1);
    MarkerPass(a, k, b, 2);
    MarkerPass(a, k, b, 3);
    MarkerPass(a, k, b, 4);
  }

  /** A marker between ordinary pieces of prose is announced as one space. */
  lemma MarkerBetweenOrdinaryText(a: string, k: nat, b: string)
    requires k < |Markers| && Ordinary(a) && Ordinary(b)
    ensures SanitizeForScreenReader(a + Markers[k] + b) == a + " " + b
  {
    forall j | 0 <= j < |Markers| ensures TokenFree(b, Markers[j]) {
      NoLeadNoOccurrence(b, Markers[j]);
    }
    OnlyFirstMarkerReplaced(a, k, b);
    var rest := a + " " + b;
    OrdinaryAppend(a, " ");
    OrdinaryAppend(a + " ", b);
    NoAngleNoMarkers(rest);
    OrdinaryTextUnchanged(rest);
  }

  /** `s` without the characters of `cs`: an independent definition of a one-character-class deletion. */
  function Without(s: string, cs: set<char>): (r: string)
    ensures |r| <= |s|
    ensures forall i | 0 <= i < |r| :: r[i] !in cs
  {
    if s == [] then [] else (if s[0] in cs then [] else [s[0]]) + Without(s[1..], cs)
  }

  /** Every character `Without` keeps comes from its input. */
  lemma {:induction false} WithoutKeepsChars(s: string, cs: set<char>)
    ensures forall c | c in Without(s, cs) :: c in s
  {
    if s != [] {
      WithoutKeepsChars(s[1..], cs);
      forall c | c in Without(s, cs) ensures c in s {
        if c != s[0] {
          assert c in Without(s[1..], cs);
          assert s == [s[0]] + s[1..];
        }
      }
    }
  }

  lemma {:induction false} WithoutAppend(a: string, b: string, cs: set<char>)
    ensures Without(a + b, cs) == Without(a, cs) + Without(b, cs)
  {
    if a != [] {
      var head := if a[0] in cs then [] else [a[0]];
      assert (a + b)[0] == a[0] && (a + b)[1..] == a[1..] + b;
      assert Without(a + b, cs) == head + Without(a[1..] + b, cs);
      WithoutAppend(a[1..], b, cs);
      assert head + (Without(a[1..], cs) + Without(b, cs)) == (head + Without(a[1..], cs)) + Without(b, cs);
    } else {
      assert a + b == b;
    }
  }

  /** Deleting a character class with the scanner is exactly `Without`. */
  lemma {:induction false} AnyOfIsWithout(cs: set<char>, s: string)
    ensures RewriteAll(AnyOf(cs), s) == Without(s, cs)
  {
    if s != [] {
      AnyOfIsWithout(cs, s[1..]);
    }
  }

  lemma WithoutNothing(s: string, cs: set<char>)
    requires forall i | 0 <= i < |s| :: s[i] !in cs
    ensures Without(s, cs) == s
  {
    AnyOfIsWithout(cs, s);
    NoTriggerUnchanged(AnyOf(cs), s);
  }

  lemma WithoutEverything(s: string, cs: set<char>)
    requires forall i | 0 <= i < |s| :: s[i] in cs
    ensures Without(s, cs) == []
  {
  }

  /**
   * Prose without markers, reset-colour tokens or colour codes (no `<`, `R` or `[`) is
   * announced with its unprintable symbols and font-size framing removed and nothing else changed.
   */
  lemma SymbolsAndFramingRemoved(text: string)
    requires forall i | 0 <= i < |text| :: text[i] != '<' && text[i] != 'R' && text[i] != '['
    ensures SanitizeForScreenReader(text) == Without(Without(text, UnprintableSymbols), DisplayEscapes)
  {
    NoAngleNoMarkers(text);
    NoLeadNoOccurrence(text, ResetColour);
    TokenFreeUnchanged(text, ResetColour);
    AnyOfIsWithout(UnprintableSymbols, text);
    var t := Without(text, UnprintableSymbols);
    AnyOfIsWithout(DisplayEscapes, t);
    WithoutKeepsChars(text, UnprintableSymbols);
    assert forall i | 0 <= i < |t| :: t[i] in t;
    FramingRemovedTail(t);
  }

  lemma FramingRemovedTail(text: string)
    requires forall i | 0 <= i < |text| :: text[i] != '['
    ensures RewriteAll(ColourAnyLead, Without(text, DisplayEscapes)) == Without(text, DisplayEscapes)
  {
    var t := Without(text, DisplayEscapes);
    WithoutKeepsChars(text, DisplayEscapes);
    assert forall i | 0 <= i < |t| :: t[i] in t;
    NoTriggerUnchanged(ColourAnyLead, t);
  }

  // ---------------------------------------------------------------------------
  // The name-box sanitizer

  /** A name-box boxText is reduced to letters, digits, `_`, `.`, `,`, `?`, `!`, `*`, space and `-`. */
  lemma NameBoxCharset(text: string)
    ensures forall c | c in SanitizeNameBoxText(text) :: IsNameBoxChar(c)
  {
    var t1 := RewriteAll(ColourLead(BackslashLead), text);
    var t2 := RewriteAll(ColourLead(NonPrintableLead), t1);
    var t3 := RewriteAll(LoneColour, t2);
    var t4 := RewriteAll(Literal(ResetColour), t3);
    RunPassOutput(NotNameBox, "", t4);
  }

  /** A boxText already made of whitelisted characters, without a reset-colour token, is kept as it is. */
  lemma NameBoxPlainUnchanged(text: string)
    requires forall i | 0 <= i < |text| :: IsNameBoxChar(text[i])
    requires TokenFree(text, ResetColour)
    ensures SanitizeNameBoxText(text) == text
  {
    NameBoxColourPassesIdle(text);
    TokenFreeUnchanged(text, ResetColour);
    NameBoxWhitelistIdle(text);
    NameBoxStages(text, text, text, text, text);
  }

  lemma NameBoxColourPassesIdle(text: string)
    requires forall i | 0 <= i < |text| :: IsNameBoxChar(text[i])
    ensures RewriteAll(ColourLead(BackslashLead), text) == text
    ensures RewriteAll(ColourLead(NonPrintableLead), text) == text
    ensures RewriteAll(LoneColour, text) == text
  {
    NameBoxCharsPlain(text);
    ColourPassIdle(ColourLead(BackslashLead), text);
    ColourPassIdle(ColourLead(NonPrintableLead), text);
    ColourPassIdle(LoneColour, text);
  }

  lemma NameBoxCharsPlain(text: string)
    requires forall i | 0 <= i < |text| :: IsNameBoxChar(text[i])
    ensures forall i | 0 <= i < |text| :: text[i] != '[' && text[i] != '\\'
  {
  }

  /** Text without `[` or backslash is left as it is by each colour pass of the name-box sanitizer. */
  lemma ColourPassIdle(p: Pattern, text: string)
    requires p == ColourLead(BackslashLead) || p == ColourLead(NonPrintableLead) || p == LoneColour
    requires forall i | 0 <= i < |text| :: text[i] != '[' && text[i] != '\\'
    ensures RewriteAll(p, text) == text
  {
    NoTriggerUnchanged(p, text);
  }

  lemma NameBoxWhitelistIdle(text: string)
    requires forall i | 0 <= i < |text| :: IsNameBoxChar(text[i])
    ensures RewriteAll(RunOf(NotNameBox, ""), text) == text
  {
    NoTriggerUnchanged(RunOf(NotNameBox, ""), text);
  }

  /** Text without `[` or backslash passes the three colour passes of the name-box sanitizer unchanged. */
  lemma NameBoxColourPassesFree(text: string)
    requires forall i | 0 <= i < |text| :: text[i] != '[' && text[i] != '\\'
    ensures RewriteAll(LoneColour, RewriteAll(ColourLead(NonPrintableLead), RewriteAll(ColourLead(BackslashLead), text))) == text
  {
    ColourPassIdle(ColourLead(BackslashLead), text);
    ColourPassIdle(ColourLead(NonPrintableLead), text);
    ColourPassIdle(LoneColour, text);
  }

  /**
   * A colour code behind a single lead character is deleted by the pass for that lead
   * (the backslash of `colourOnlyRegex`, the non-printable character of
   * `malformedColourRegex`), and the pass goes on after it.
   */
  lemma LeadColourCodeDeleted(lead: Lead, x: string, e: char, digits: string, y: string)
    requires forall i | 0 <= i < |x| :: !IsLead(lead, x[i])
    requires IsLead(lead, e) && digits != [] && AllDigits(digits)
    ensures RewriteAll(ColourLead(lead), x + [e] + "c[" + digits + "]" + y) == x + RewriteAll(ColourLead(lead), y)
  {
    assert x + [e] + "c[" + digits + "]" + y == x + ([e] + "c[" + digits + "]" + y);
    RewriteAppend(ColourLead(lead), x, [e] + "c[" + digits + "]" + y);
    LeadColourCodeAtHead(lead, e, digits, y);
  }

  lemma LeadColourCodeAtHead(lead: Lead, e: char, digits: string, y: string)
    requires IsLead(lead, e) && digits != [] && AllDigits(digits)
    ensures RewriteAll(ColourLead(lead), [e] + "c[" + digits + "]" + y) == RewriteAll(ColourLead(lead), y)
  {
    var s := [e] + "c[" + digits + "]" + y;
    LeadColourCodeMatched(lead, e, digits, y);
    RewriteHead(ColourLead(lead), s, Hit(4 + |digits|, ""));
    assert s[4 + |digits|..] == y;
  }

  lemma LeadColourCodeMatched(lead: Lead, e: char, digits: string, y: string)
    requires IsLead(lead, e) && digits != [] && AllDigits(digits)
    ensures MatchAt(ColourLead(lead), [e] + "c[" + digits + "]" + y) == Some(Hit(4 + |digits|, ""))
  {
    var s := [e] + "c[" + digits + "]" + y;
    assert s[1..] == ['c'] + "[" + digits + "]" + y;
    BracketedCode('c', {'c'}, digits, y);
    assert !IsLead(lead, s[1]);
    assert LeadCount(lead, s, {'c'}) == Some(1);
  }

  /** A lone `\c` (a colour directive without its bracket) is deleted, and the pass goes on after it. */
  lemma LoneColourDeleted(x: string, y: string)
    requires forall i | 0 <= i < |x| :: x[i] != '\\'
    ensures RewriteAll(LoneColour, x + "\\c" + y) == x + RewriteAll(LoneColour, y)
  {
    var s := "\\c" + y;
    assert x + "\\c" + y == x + s;
    RewriteAppend(LoneColour, x, s);
    assert MatchAt(LoneColour, s) == Some(Hit(2, ""));
    RewriteHead(LoneColour, s, Hit(2, ""));
    assert s[2..] == y;
  }

  /** The angle brackets around a name-box name are dropped and the name is kept. */
  lemma AngleBracketsDropped(name: string)
    requires name != [] && forall i | 0 <= i < |name| :: IsNameBoxChar(name[i])
    ensures RewriteAll(RunOf(NotNameBox, ""), "<" + name + ">") == name
  {
    OpeningBracketDropped(name);
    ClosingBracketDropped(name);
  }

  lemma OpeningBracketDropped(name: string)
    requires name != [] && IsNameBoxChar(name[0])
    ensures RewriteAll(RunOf(NotNameBox, ""), "<" + name + ">") == RewriteAll(RunOf(NotNameBox, ""), name + ">")
  {
    assert "<" + name + ">" == "<" + (name + ">");
    RunCollapses(NotNameBox, "", "<", name + ">");
  }

  lemma ClosingBracketDropped(name: string)
    requires forall i | 0 <= i < |name| :: IsNameBoxChar(name[i])
    ensures RewriteAll(RunOf(NotNameBox, ""), name + ">") == name
  {
    RewriteAppend(RunOf(NotNameBox, ""), name, ">");
    ClosingBracketAlone();
  }

  lemma ClosingBracketAlone()
    ensures RewriteAll(RunOf(NotNameBox, ""), ">") == []
  {
    assert MatchAt(RunOf(NotNameBox, ""), ">") == Some(Hit(1, ""));
  }

  // ---------------------------------------------------------------------------
  // Icon substitution

  /** An icon token: one or two backslashes, `i` or `I`, the index digits in brackets. */
  function IconToken(doubled: bool, upper: bool, digits: string): string {
    (if doubled then "\\\\" else "\\") + [if upper then 'I' else 'i'] + "[" + digits + "]"
  }

  /**
   * Text before the first backslash is kept, the token is replaced by its resolved
   * name plus a space (or by nothing), and the rest is rewritten on its own.
   */
  lemma IconTokenReplaced(db: Databases, before: string, doubled: bool, upper: bool, digits: string, after: string)
    requires forall i | 0 <= i < |before| :: before[i] != '\\'
    requires digits != [] && AllDigits(digits)
    ensures ReplaceIconsWithNames(before + IconToken(doubled, upper, digits) + after, db)
         == before + IconReplacement(FindNameByIconIndex(ParseDigits(digits), db)) + ReplaceIconsWithNames(after, db)
  {
    IconMatched(db, doubled, upper, digits, after);
    RewriteAfterPlain(Icon(db), before, IconToken(doubled, upper, digits), after,
      IconReplacement(FindNameByIconIndex(ParseDigits(digits), db)));
  }

  /** The matcher recognises a whole icon token at the head of the text. */
  lemma IconMatched(db: Databases, doubled: bool, upper: bool, digits: string, after: string)
    requires digits != [] && AllDigits(digits)
    ensures MatchAt(Icon(db), IconToken(doubled, upper, digits) + after)
         == Some(Hit(|IconToken(doubled, upper, digits)|, IconReplacement(FindNameByIconIndex(ParseDigits(digits), db))))
  {
    var s := IconToken(doubled, upper, digits) + after;
    var letter := if upper then 'I' else 'i';
    var lead := if doubled then 2 else 1;
    IconTokenShape(doubled, upper, digits, after);
    BracketedCode(letter, {'i', 'I'}, digits, after);
    IconLead(s, lead);
    IconFrom(db, s, lead, 3 + |digits|, digits);
  }

  /** An icon token is one or two backslashes, then the letter, then the bracketed digits. */
  lemma IconTokenShape(doubled: bool, upper: bool, digits: string, after: string)
    ensures var s := IconToken(doubled, upper, digits) + after;
      var letter := if upper then 'I' else 'i';
      var lead := if doubled then 2 else 1;
      |s| > lead && s[0] == '\\' && s[1] == (if doubled then '\\' else letter)
      && s[lead..] == [letter] + "[" + digits + "]" + after
  {
    var letter := if upper then 'I' else 'i';
    var lead := if doubled then "\\\\" else "\\";
    var body := [letter] + "[" + digits + "]" + after;
    assert IconToken(doubled, upper, digits) + after == lead + body;
  }

  /** One backslash before a bracketed icon code, or two: the lead the icon pattern takes. */
  lemma IconLead(s: string, lead: nat)
    requires (lead == 1 || lead == 2) && |s| > lead && s[0] == '\\'
    requires s[1] == '\\' <==> lead == 2
    requires Bracketed(s[lead..], {'i', 'I'}).Some?
    ensures LeadCount(BackslashLead, s, {'i', 'I'}) == Some(lead)
  {
  }

  /** The icon matcher, from what it reads: the lead, the bracketed code and its digits. */
  lemma IconFrom(db: Databases, s: string, lead: nat, n: nat, digits: string)
    requires s != [] && LeadCount(BackslashLead, s, {'i', 'I'}) == Some(lead)
    requires Bracketed(s[lead..], {'i', 'I'}) == Some(n) && s[lead..][2..n - 1] == digits
    ensures MatchAt(Icon(db), s) == Some(Hit(lead + n, IconReplacement(FindNameByIconIndex(ParseDigits(digits), db))))
  {
    assert MatchIcon(db, s) == Some(Hit(lead + n, IconReplacement(FindNameByIconIndex(ParseDigits(digits), db))));
  }

  /** `L[digits]` is recognised whole, whatever follows it. */
  lemma BracketedCode(letter: char, letters: set<char>, digits: string, after: string)
    requires letter in letters && digits != [] && AllDigits(digits)
    ensures Bracketed([letter] + "[" + digits + "]" + after, letters) == Some(3 + |digits|)
    ensures ([letter] + "[" + digits + "]" + after)[2..2 + |digits|] == digits
  {
    var body := [letter] + "[" + digits + "]" + after;
    assert body[2..] == digits + ("]" + after);
    RunOfPrefix(Digit, digits, "]" + after);
  }

  /** Text without a backslash has no icon token and is kept as it is. */
  lemma NoIconUnchanged(text: string, db: Databases)
    requires forall i | 0 <= i < |text| :: text[i] != '\\'
    ensures ReplaceIconsWithNames(text, db) == text
  {
    NoTriggerUnchanged(Icon(db), text);
  }

  /** An icon that no table knows is dropped without a trace. */
  lemma UnknownIconDropped(db: Databases, iconIndex: nat)
    requires forall t | 0 <= t < 5 :: NoMatchIn(SearchOrder(db)[t], iconIndex)
    ensures IconReplacement(FindNameByIconIndex(iconIndex, db)) == ""
  {
  }

  /** An item with the icon but an empty name hides the named entries of later tables: the token is dropped. */
  lemma EmptyItemNameShadows(db: Databases, k: nat, iconIndex: nat)
    requires k < |db.items| && Matches(db.items[k], iconIndex) && db.items[k].value.name == ""
    requires forall j | 0 <= j < k :: !Matches(db.items[j], iconIndex)
    ensures IconReplacement(FindNameByIconIndex(iconIndex, db)) == ""
  {
    ItemsTakePriority(db, k, iconIndex);
  }

  // ---------------------------------------------------------------------------
  // Composed announcements

  /** A row of `$dataActors`. */
  datatype Actor = Actor(name: string, faceName: string)

  predicate HasFace(a: Option<Actor>, faceName: string) {
    a.Some? && a.value.faceName == faceName
  }

  /** `$dataActors.find((a) => a != null && a.faceName == faceName)`, as a position. */
  function ActorWithFace(actors: seq<Option<Actor>>, faceName: string): (r: Option<nat>)
    ensures r.Some? ==> r.value < |actors| && HasFace(actors[r.value], faceName)
    ensures r.Some? ==> forall j | 0 <= j < r.value :: !HasFace(actors[j], faceName)
    ensures r.None? ==> forall j | 0 <= j < |actors| :: !HasFace(actors[j], faceName)
  {
    if actors == [] then None
    else if HasFace(actors[0], faceName) then Some(0)
    else match ActorWithFace(actors[1..], faceName)
      case None => None
      case Some(k) => Some(k + 1)
  }

  /**
   * What `Window_Message.startMessage` reads from the engine: the Yanfly name-box boxText
   * (`Some` exactly when the Yanfly name window is loaded and `hasDifferentNameBoxText()`
   * holds), the message's face name (`""` when there is none) and `$dataActors`.
   */
  datatype MessageWindow = MessageWindow(nameBox: Option<string>, faceName: string, actors: seq<Option<Actor>>)

  /** Who is speaking: the cleaned name-box boxText, else the actor wearing the face, else the face name itself. */
  function Speaker(w: MessageWindow): Option<string> {
    if w.nameBox.Some? then Some(SanitizeNameBoxText(w.nameBox.value))
    else if w.faceName != "" then
      match ActorWithFace(w.actors, w.faceName)
      case Some(k) => Some(w.actors[k].value.name)
      case None => Some(w.faceName)
    else None
  }

  /** The text `startMessage` hands to `setTextTo`; `text` is the result of `convertEscapeCharacters`. */
  function MessageText(w: MessageWindow, text: string): string {
    match Speaker(w)
    case Some(name) => name + ": " + text
    case None => text
  }

  /** What the screen reader receives for a message. */
  function MessageAnnouncement(w: MessageWindow, text: string): string {
    SanitizeForScreenReader(MessageText(w, text))
  }

  /**
   * With a name box, the speaker is its cleaned boxText, whatever the face says, and
   * that cleaned text has no colon: the first `": "` of the message ends the speaker's name.
   */
  lemma NameBoxSpeaker(boxText: string, faceName: string, actors: seq<Option<Actor>>, text: string)
    ensures MessageText(MessageWindow(Some(boxText), faceName, actors), text)
         == MessageText(MessageWindow(Some(boxText), "", []), text)
    ensures MessageText(MessageWindow(Some(boxText), faceName, actors), text)
         == SanitizeNameBoxText(boxText) + ": " + text
    ensures forall c | c in SanitizeNameBoxText(boxText) :: IsNameBoxChar(c) && c != ':'
  {
    NameBoxCharset(boxText);
  }

  /** Without a name box, a face names the first actor wearing it. */
  lemma FaceSpeakerIsFirstActor(faceName: string, actors: seq<Option<Actor>>, k: nat, text: string)
    requires faceName != "" && k < |actors| && HasFace(actors[k], faceName)
    requires forall j | 0 <= j < k :: !HasFace(actors[j], faceName)
    ensures MessageText(MessageWindow(None, faceName, actors), text) == actors[k].value.name + ": " + text
  {
    var r := ActorWithFace(actors, faceName);
    assert r == Some(k) by {
      assert r.Some?;
      assert !(r.value < k) && !(k < r.value);
    }
  }

  /** A face no actor wears is announced by its own name. */
  lemma FaceSpeakerFallback(faceName: string, actors: seq<Option<Actor>>, text: string)
    requires faceName != ""
    requires forall j | 0 <= j < |actors| :: !HasFace(actors[j], faceName)
    ensures MessageText(MessageWindow(None, faceName, actors), text) == faceName + ": " + text
  {
  }

  /** Neither a name box nor a face: the message is announced without a speaker. */
  lemma NoSpeaker(actors: seq<Option<Actor>>, text: string)
    ensures MessageText(MessageWindow(None, "", actors), text) == text
  {
  }

  /** The selected row of `Window_SkillList`. */
  datatype Skill = Skill(name: string, description: string)

  /** The text `Window_SkillList.select` hands to `setTextTo`, `None` when nothing is selected. */
  function SkillText(item: Option<Skill>, db: Databases): Option<string> {
    match item
    case None => None
    case Some(skill) =>
      if skill.description != "" then Some(skill.name + ": " + ReplaceIconsWithNames(skill.description, db))
      else Some(skill.name)
  }

  /** What the screen reader receives when a skill is selected. */
  function SkillAnnouncement(item: Option<Skill>, db: Databases): Option<string> {
    match SkillText(item, db)
    case None => None
    case Some(t) => Some(SanitizeForScreenReader(t))
  }

  /** A description without icon tokens is read after the name as it is written. */
  lemma SkillDescriptionKept(name: string, description: string, db: Databases)
    requires description != ""
    requires forall i | 0 <= i < |description| :: description[i] != '\\'
    ensures SkillText(Some(Skill(name, description)), db) == Some(name + ": " + description)
  {
    NoIconUnchanged(description, db);
  }
}
