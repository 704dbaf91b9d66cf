/**
 * `String.prototype.replace` as the sanitizers use it. A literal first argument
 * replaces only the first occurrence (ReplaceFirst). A global regular expression
 * (`/…/g`) is a left-to-right scan: at each position the pattern is tried; a match
 * is replaced and the scan resumes after it, otherwise one character is copied
 * (RewriteAll). None of the patterns can match the empty string.
 *
 * Every regular expression of the plugin is one `Pattern`, and MatchAt is its
 * matcher at the head of the remaining text. Greedy quantifiers are resolved by
 * hand: `\d+` and `\w+` are always followed by a character outside their class
 * (`]`, `>`, `\`), so only the maximal run can succeed; `X{1,2}` tries two leading
 * characters before one; an optional group `( … )?` is tried present, then absent.
 */
module Patterns {
  import opened Wrappers
  import opened Markup
  import opened Databases

  /** A match at the head of the text: its length and the text that replaces it. */
  datatype Hit = Hit(len: nat, rep: string)

  /** The character that may stand before a colour code in `X{1,2}c\[\d+\]`. */
  datatype Lead = BackslashLead | NonPrintableLead

  predicate IsLead(lead: Lead, c: char) {
    match lead
    case BackslashLead => c == '\\'
    case NonPrintableLead => !IsPrintableAscii(c)
  }

  datatype Pattern =
    | Literal(token: string)           // a fixed token, e.g. /RESETCOLOR/g
    | AnyOf(chars: set<char>)          // a one-character class, e.g. /[\{\}^]/g
    | ColourAnyLead                    // /\\*c\[\d+\]/g
    | ColourLead(lead: Lead)           // /\\{1,2}c\[\d+\]/g and /[^ -~]{1,2}c\[\d+\]/g
    | LoneColour                       // /\\{1,2}c/g
    | Icon(db: Databases)              // /\\{1,2}[iI]\[(\d+)\]/g, replaced by the icon's name
    | RunOf(cls: CharClass, with: string) // /[^…]+/g replaced by `with`
    | SpeakerTag                       // /<(\\c\[\d+\])?(\w+)>/g  -> "$2: "
    | ColourWord                       // /\\c\[\d+\](\w+)\\c/g   -> "$1"
    | PlayerTag                        // /<(\\c\[\d+\])?\\N\[1\]>/g -> "Me: "
    | LineEscape                       // /\\[nr]/g               -> " "

  /** `L\[\d+\]` at the head of `s` with `L` one of `letters`: the length of the match. */
  function Bracketed(s: string, letters: set<char>): (n: Option<nat>)
    ensures n.Some? ==> 4 <= n.value <= |s| && s[0] in letters && s[1] == '[' && s[n.value - 1] == ']'
    ensures n.Some? ==> AllDigits(s[2..n.value - 1])
  {
    if |s| < 2 || s[0] !in letters || s[1] != '[' then None
    else
      var d := Run(Digit, s[2..]);
      if 1 <= d && 2 + d < |s| && s[2 + d] == ']' then Some(3 + d) else None
  }

  /** `X{1,2}` before `L\[\d+\]`: the number of lead characters the match takes (two tried first). */
  function LeadCount(lead: Lead, s: string, letters: set<char>): (k: Option<nat>)
    ensures k.Some? ==> (k.value == 1 || k.value == 2) && k.value <= |s|
    ensures k.Some? ==> Bracketed(s[k.value..], letters).Some?
    ensures k.Some? ==> forall i | 0 <= i < k.value :: IsLead(lead, s[i])
  {
    if 2 <= |s| && IsLead(lead, s[0]) && IsLead(lead, s[1]) && Bracketed(s[2..], letters).Some? then Some(2)
    else if 1 <= |s| && IsLead(lead, s[0]) && Bracketed(s[1..], letters).Some? then Some(1)
    else None
  }

  /** `\\c\[\d+\]` (one backslash) at the head of `s`: the length of the match. */
  function ColourCode(s: string): (n: Option<nat>)
    ensures n.Some? ==> 5 <= n.value <= |s| && s[0] == '\\' && s[1] == 'c' && s[2] == '['
  {
    if s != [] && s[0] == '\\' && Bracketed(s[1..], {'c'}).Some? then Some(1 + Bracketed(s[1..], {'c'}).value) else None
  }

  function StartsWith(s: string, prefix: string): bool {
    |prefix| <= |s| && s[..|prefix|] == prefix
  }

  /** The name an icon token is replaced by: `name + " "` when the name is truthy, else nothing. */
  function IconReplacement(name: Option<string>): string {
    if name.Some? && name.value != "" then name.value + " " else ""
  }

  /** `(\w+)>` starting at `j`, as in the speaker tag: the match up to and including `>`. */
  function WordThenClose(s: string, j: nat): (h: Option<Hit>)
    requires j <= |s|
    ensures h.Some? ==> j < h.value.len <= |s|
  {
    var w := Run(Word, s[j..]);
    if 1 <= w && j + w < |s| && s[j + w] == '>' then Some(Hit(j + w + 1, s[j..j + w] + ": ")) else None
  }

  /** `/\\*c\[\d+\]/`: any number of backslashes (all of them, greedily), then a colour code. */
  function MatchColourAnyLead(s: string): (h: Option<Hit>)
    ensures h.Some? ==> 1 <= h.value.len <= |s| && h.value.rep == []
    ensures h.Some? ==> (s[0] == '\\' || s[0] == 'c')
    ensures h.Some? ==> exists i | 0 <= i < h.value.len :: s[i] == '['
  {
    var k := Run(Backslash, s);
    var n := Bracketed(s[k..], {'c'});
    if n.Some? then
      assert s[k + 1] == '[';
      Some(Hit(k + n.value, ""))
    else None
  }

  /** `X{1,2}c\[\d+\]` with `X` the lead class. */
  function MatchColourLead(lead: Lead, s: string): (h: Option<Hit>)
    ensures h.Some? ==> 1 <= h.value.len <= |s| && h.value.rep == []
    ensures h.Some? ==> IsLead(lead, s[0])
    ensures h.Some? ==> exists i | 0 <= i < h.value.len :: s[i] == '['
  {
    var k := LeadCount(lead, s, {'c'});
    if k.Some? then
      var n := Bracketed(s[k.value..], {'c'});
      assert s[k.value + 1] == '[';
      Some(Hit(k.value + n.value, ""))
    else None
  }

  /** `\\{1,2}c`: a colour directive without its bracket. */
  function MatchLoneColour(s: string): (h: Option<Hit>)
    ensures h.Some? ==> 1 <= h.value.len <= |s| && h.value.rep == [] && s[0] == '\\'
  {
    if 3 <= |s| && s[0] == '\\' && s[1] == '\\' && s[2] == 'c' then Some(Hit(3, ""))
    else if 2 <= |s| && s[0] == '\\' && s[1] == 'c' then Some(Hit(2, ""))
    else None
  }

  /** `\\{1,2}[iI]\[(\d+)\]`, replaced by the name its index resolves to. */
  function MatchIcon(db: Databases, s: string): (h: Option<Hit>)
    ensures h.Some? ==> 1 <= h.value.len <= |s| && s[0] == '\\'
  {
    var k := LeadCount(BackslashLead, s, {'i', 'I'});
    if k.Some? then
      var n := Bracketed(s[k.value..], {'i', 'I'});
      var digits := s[k.value..][2..n.value - 1];
      Some(Hit(k.value + n.value, IconReplacement(FindNameByIconIndex(ParseDigits(digits), db))))
    else None
  }

  /** `<(\\c\[\d+\])?(\w+)>`, replaced by `"$2: "`: the group is tried present, then absent. */
  function MatchSpeakerTag(s: string): (h: Option<Hit>)
    ensures h.Some? ==> 1 <= h.value.len <= |s| && s[0] == '<'
  {
    if s == [] || s[0] != '<' then None
    else
      var g := ColourCode(s[1..]);
      var withGroup := if g.Some? then WordThenClose(s, 1 + g.value) else None;
      if withGroup.Some? then withGroup else WordThenClose(s, 1)
  }

  /** `\\c\[\d+\](\w+)\\c`, replaced by `"$1"`: the coloured word. */
  function MatchColourWord(s: string): (h: Option<Hit>)
    ensures h.Some? ==> 1 <= h.value.len <= |s| && s[0] == '\\'
  {
    var g := ColourCode(s);
    if g.Some? then
      var j := g.value;
      var w := Run(Word, s[j..]);
      if 1 <= w && j + w + 1 < |s| && s[j + w] == '\\' && s[j + w + 1] == 'c' then Some(Hit(j + w + 2, s[j..j + w]))
      else None
    else None
  }

  /** `<(\\c\[\d+\])?\\N\[1\]>`, replaced by `"Me: "`. */
  function MatchPlayerTag(s: string): (h: Option<Hit>)
    ensures h.Some? ==> 1 <= h.value.len <= |s| && s[0] == '<'
  {
    if s == [] || s[0] != '<' then None
    else
      var g := ColourCode(s[1..]);
      if g.Some? && StartsWith(s[1 + g.value..], "\\N[1]>") then Some(Hit(1 + g.value + 6, "Me: "))
      else if StartsWith(s[1..], "\\N[1]>") then Some(Hit(7, "Me: "))
      else None
  }

  /** The matcher of each pattern at the head of `s`. */
  function MatchAt(p: Pattern, s: string): (h: Option<Hit>)
    requires s != []
    ensures h.Some? ==> 1 <= h.value.len <= |s|
    ensures h.Some? ==> CanStart(p, s[0])
    ensures h.Some? ==> exists i | 0 <= i < h.value.len :: Triggers(p, s[i])
    ensures h.Some? && Deleting(p) ==> h.value.rep == []
  {
    match p
    case Literal(t) => if t != [] && StartsWith(s, t) then Some(Hit(|t|, "")) else None
    case AnyOf(cs) => if s[0] in cs then Some(Hit(1, "")) else None
    case ColourAnyLead => MatchColourAnyLead(s)
    case ColourLead(lead) => MatchColourLead(lead, s)
    case LoneColour => MatchLoneColour(s)
    case Icon(db) => MatchIcon(db, s)
    case RunOf(cls, with) => var r := Run(cls, s); if 1 <= r then Some(Hit(r, with)) else None
    case SpeakerTag => MatchSpeakerTag(s)
    case ColourWord => MatchColourWord(s)
    case PlayerTag => MatchPlayerTag(s)
    case LineEscape => if 2 <= |s| && s[0] == '\\' && (s[1] == 'n' || s[1] == 'r') then Some(Hit(2, " ")) else None
  }

  /** The characters a match of `p` can begin with. */
  predicate CanStart(p: Pattern, c: char) {
    match p
    case Literal(t) => t != [] && c == t[0]
    case AnyOf(cs) => c in cs
    case ColourAnyLead => c == '\\' || c == 'c'
    case ColourLead(lead) => IsLead(lead, c)
    case RunOf(cls, _) => InClass(cls, c)
    case SpeakerTag => c == '<'
    case PlayerTag => c == '<'
    case _ => c == '\\'
  }

  /** Characters of which every match of `p` contains at least one. */
  predicate Triggers(p: Pattern, c: char) {
    match p
    case ColourAnyLead => c == '['
    case ColourLead(_) => c == '['
    case _ => CanStart(p, c)
  }

  /** The patterns the sanitizers replace by the empty string. */
  predicate Deleting(p: Pattern) {
    p.Literal? || p.AnyOf? || p.ColourAnyLead? || p.ColourLead? || p.LoneColour? || (p.RunOf? && p.with == [])
  }

  /** `text.replace(/…/g, …)`: the left-to-right, non-overlapping rewrite of every match. */
  function RewriteAll(p: Pattern, s: string): string
    decreases |s|
  {
    if s == [] then []
    else match MatchAt(p, s)
      case Some(h) => h.rep + RewriteAll(p, s[h.len..])
      case None => [s[0]] + RewriteAll(p, s[1..])
  }

  /** Text in which no character can take part in a match is left as it is. */
  lemma {:induction false} NoTriggerUnchanged(p: Pattern, s: string)
    requires forall i | 0 <= i < |s| :: !Triggers(p, s[i])
    ensures RewriteAll(p, s) == s
  {
    if s != [] {
      assert MatchAt(p, s).None?;
      NoTriggerUnchanged(p, s[1..]);
    }
  }

  /** Text in which the pattern matches at no position is left as it is. */
  lemma {:induction false} NoMatchUnchanged(p: Pattern, s: string)
    requires forall i | 0 <= i < |s| :: MatchAt(p, s[i..]).None?
    ensures RewriteAll(p, s) == s
  {
    if s != [] {
      assert MatchAt(p, s[0..]).None?;
      assert s[0..] == s;
      forall i | 0 <= i < |s[1..]| ensures MatchAt(p, s[1..][i..]).None? {
        assert s[1..][i..] == s[i + 1..];
      }
      NoMatchUnchanged(p, s[1..]);
    }
  }

  predicate TokenFree(s: string, token: string) {
    forall i | 0 <= i <= |s| :: !OccursAt(s, token, i)
  }

  /** Removing a token that does not occur changes nothing. */
  lemma TokenFreeUnchanged(s: string, token: string)
    requires TokenFree(s, token)
    ensures RewriteAll(Literal(token), s) == s
  {
    forall i | 0 <= i < |s| ensures MatchAt(Literal(token), s[i..]).None? {
      assert !OccursAt(s, token, i);
      if |token| <= |s[i..]| {
        assert s[i..][..|token|] == s[i..i + |token|];
      }
    }
    NoMatchUnchanged(Literal(token), s);
  }

  /** A prefix in which no match can begin is copied, and the scan goes on after it. */
  lemma {:induction false} RewriteAppend(p: Pattern, a: string, b: string)
    requires forall i | 0 <= i < |a| :: !CanStart(p, a[i])
    ensures RewriteAll(p, a + b) == a + RewriteAll(p, b)
  {
    if a == [] {
      assert a + b == b;
    } else {
      assert (a + b)[0] == a[0];
      RewriteNoStart(p, a + b);
      assert (a + b)[1..] == a[1..] + b;
      RewriteAppend(p, a[1..], b);
      ConsAppend(a, RewriteAll(p, b));
    }
  }

  /** Splitting off the first element and appending commute. */
  lemma ConsAppend(a: string, rest: string)
    requires a != []
    ensures [a[0]] + (a[1..] + rest) == a + rest
  {
    assert a == [a[0]] + a[1..];
  }

  /** A position at which the pattern does not match is copied, and the scan goes on after it. */
  lemma RewriteMiss(p: Pattern, s: string)
    requires s != [] && MatchAt(p, s).None?
    ensures RewriteAll(p, s) == [s[0]] + RewriteAll(p, s[1..])
  {
  }

  /** A character at which no match can begin is copied. */
  lemma RewriteNoStart(p: Pattern, s: string)
    requires s != [] && !CanStart(p, s[0])
    ensures RewriteAll(p, s) == [s[0]] + RewriteAll(p, s[1..])
  {
    assert MatchAt(p, s).None?;
  }

  /** A match at the head is replaced and the scan resumes right after it. */
  lemma RewriteHead(p: Pattern, s: string, h: Hit)
    requires s != [] && MatchAt(p, s) == Some(h)
    ensures RewriteAll(p, s) == h.rep + RewriteAll(p, s[h.len..])
  {
  }

  /** The same, with the matched text given as the prefix `a` of `a + b`. */
  lemma RewritePrefix(p: Pattern, a: string, b: string, rep: string)
    requires a != [] && MatchAt(p, a + b) == Some(Hit(|a|, rep))
    ensures RewriteAll(p, a + b) == rep + RewriteAll(p, b)
  {
    RewriteHead(p, a + b, Hit(|a|, rep));
    assert (a + b)[|a|..] == b;
  }

  /** A match after a prefix in which no match can begin: the prefix is copied and the match replaced. */
  lemma RewriteAfterPlain(p: Pattern, before: string, tok: string, after: string, rep: string)
    requires forall i | 0 <= i < |before| :: !CanStart(p, before[i])
    requires tok != [] && MatchAt(p, tok + after) == Some(Hit(|tok|, rep))
    ensures RewriteAll(p, before + tok + after) == before + rep + RewriteAll(p, after)
  {
    assert before + tok + after == before + (tok + after);
    RewriteAppend(p, before, tok + after);
    RewritePrefix(p, tok, after, rep);
    var rest := RewriteAll(p, after);
    assert before + (rep + rest) == before + rep + rest;
  }

  /** A deleting pass only removes characters: whatever it outputs was in its input. */
  lemma {:induction false} DeletingKeepsChars(p: Pattern, s: string)
    requires Deleting(p)
    ensures forall c | c in RewriteAll(p, s) :: c in s
  {
    if s != [] {
      match MatchAt(p, s)
      case Some(h) =>
        DeletingKeepsChars(p, s[h.len..]);
        assert RewriteAll(p, s) == RewriteAll(p, s[h.len..]);
        SuffixCharsIn(s, h.len);
      case None =>
        DeletingKeepsChars(p, s[1..]);
        SuffixCharsIn(s, 1);
        assert RewriteAll(p, s) == [s[0]] + RewriteAll(p, s[1..]);
    }
  }

  lemma SuffixCharsIn(s: string, k: nat)
    requires k <= |s|
    ensures forall c | c in s[k..] :: c in s
  {
    assert forall i | 0 <= i < |s| - k :: s[k..][i] == s[k + i];
  }

  /** A deleting pass never lengthens the text. */
  lemma {:induction false} DeletingShrinks(p: Pattern, s: string)
    requires Deleting(p)
    ensures |RewriteAll(p, s)| <= |s|
  {
    if s != [] {
      match MatchAt(p, s)
      case Some(h) => DeletingShrinks(p, s[h.len..]);
      case None => DeletingShrinks(p, s[1..]);
    }
  }

  /** Removing a character class leaves none of its characters. */
  lemma {:induction false} AnyOfRemoves(cs: set<char>, s: string)
    ensures forall c | c in RewriteAll(AnyOf(cs), s) :: c !in cs
  {
    if s != [] {
      AnyOfRemoves(cs, s[1..]);
    }
  }

  /** After a run-replacing pass, every character is outside the class or comes from the replacement. */
  lemma {:induction false} RunPassOutput(cls: CharClass, with: string, s: string)
    ensures forall c | c in RewriteAll(RunOf(cls, with), s) :: !InClass(cls, c) || c in with
  {
    if s != [] {
      match MatchAt(RunOf(cls, with), s)
      case Some(h) => RunPassOutput(cls, with, s[h.len..]);
      case None => RunPassOutput(cls, with, s[1..]);
    }
  }

  /** A maximal run of the class is replaced by exactly one copy of the replacement. */
  lemma RunCollapses(cls: CharClass, with: string, run: string, rest: string)
    requires run != [] && forall i | 0 <= i < |run| :: InClass(cls, run[i])
    requires rest == [] || !InClass(cls, rest[0])
    ensures RewriteAll(RunOf(cls, with), run + rest) == with + RewriteAll(RunOf(cls, with), rest)
  {
    RunOfPrefix(cls, run, rest);
    assert MatchAt(RunOf(cls, with), run + rest) == Some(Hit(|run|, with));
    RewriteHead(RunOf(cls, with), run + rest, Hit(|run|, with));
    assert (run + rest)[|run|..] == rest;
  }

  predicate OccursAt(s: string, pat: string, i: nat) {
    i + |pat| <= |s| && s[i..i + |pat|] == pat
  }

  /** `text.replace(pat, rep)` with a string pattern: only the first occurrence is replaced. */
  function ReplaceFirst(s: string, pat: string, rep: string): string
    requires pat != []
    decreases |s|
  {
    if |s| < |pat| then s
    else if s[..|pat|] == pat then rep + s[|pat|..]
    else [s[0]] + ReplaceFirst(s[1..], pat, rep)
  }

  /** Occurrences in the tail are occurrences in the whole text, one position later. */
  lemma OccursInTail(s: string, pat: string, j: nat)
    requires s != []
    ensures OccursAt(s[1..], pat, j) <==> OccursAt(s, pat, j + 1)
  {
    if j + 1 + |pat| <= |s| {
      assert s[1..][j..j + |pat|] == s[j + 1..j + 1 + |pat|];
    }
  }

  /** The first occurrence is replaced, and everything after it, later occurrences included, is kept. */
  lemma {:induction false} ReplaceFirstAt(s: string, pat: string, rep: string, i: nat)
    requires pat != [] && OccursAt(s, pat, i)
    requires forall j | 0 <= j < i :: !OccursAt(s, pat, j)
    ensures ReplaceFirst(s, pat, rep) == s[..i] + rep + s[i + |pat|..]
  {
    if i > 0 {
      assert !OccursAt(s, pat, 0);
      assert ReplaceFirst(s, pat, rep) == [s[0]] + ReplaceFirst(s[1..], pat, rep);
      forall j | 0 <= j < i - 1 ensures !OccursAt(s[1..], pat, j) {
        OccursInTail(s, pat, j);
      }
      OccursInTail(s, pat, i - 1);
      ReplaceFirstAt(s[1..], pat, rep, i - 1);
      calc {
        ReplaceFirst(s, pat, rep);
        [s[0]] + (s[1..][..i - 1] + rep + s[1..][i - 1 + |pat|..]);
        { assert [s[0]] + s[1..][..i - 1] == s[..i]; assert s[1..][i - 1 + |pat|..] == s[i + |pat|..]; }
        s[..i] + rep + s[i + |pat|..];
      }
    }
  }

  /** Without an occurrence the text is unchanged. */
  lemma {:induction false} ReplaceFirstAbsent(s: string, pat: string, rep: string)
    requires pat != []
    requires forall j | 0 <= j <= |s| :: !OccursAt(s, pat, j)
    ensures ReplaceFirst(s, pat, rep) == s
  {
    if |s| >= |pat| {
      assert !OccursAt(s, pat, 0);
      forall j | 0 <= j <= |s| - 1 ensures !OccursAt(s[1..], pat, j) {
        OccursInTail(s, pat, j);
      }
      ReplaceFirstAbsent(s[1..], pat, rep);
    }
  }

  /** Prepending text that lacks the token's first character does not create or move an occurrence. */
  lemma {:induction false} ReplaceFirstSkip(a: string, b: string, pat: string, rep: string)
    requires pat != [] && forall i | 0 <= i < |a| :: a[i] != pat[0]
    ensures ReplaceFirst(a + b, pat, rep) == a + ReplaceFirst(b, pat, rep)
  {
    if a == [] {
      assert a + b == b;
    } else {
      var s := a + b;
      assert s[0] == a[0] && s[1..] == a[1..] + b;
      ReplaceFirstNoLead(s, pat, rep);
      ReplaceFirstSkip(a[1..], b, pat, rep);
      assert [a[0]] + (a[1..] + ReplaceFirst(b, pat, rep)) == a + ReplaceFirst(b, pat, rep);
    }
  }

  /** Text that does not begin with the token's first character keeps that character. */
  lemma ReplaceFirstNoLead(s: string, pat: string, rep: string)
    requires pat != [] && s != [] && s[0] != pat[0]
    ensures ReplaceFirst(s, pat, rep) == [s[0]] + ReplaceFirst(s[1..], pat, rep)
  {
    if |s| >= |pat| {
      assert s[..|pat|][0] != pat[0];
    } else {
      assert |s[1..]| < |pat|;
    }
  }

  /** Text that lacks the first character of the token has no occurrence of it. */
  lemma NoLeadNoOccurrence(s: string, pat: string)
    requires pat != [] && forall i | 0 <= i < |s| :: s[i] != pat[0]
    ensures forall j | 0 <= j <= |s| :: !OccursAt(s, pat, j)
  {
    forall j | 0 <= j <= |s| ensures !OccursAt(s, pat, j) {
      if j + |pat| <= |s| {
        assert s[j..j + |pat|][0] == s[j];
      }
    }
  }
}
