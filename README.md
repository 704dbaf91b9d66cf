# ScreenReaderAccess announcement pipeline, in Dafny

The ScreenReaderAccess plugin for RPG Maker MV makes in-game text available to
screen readers. Before the plugin writes any text to its live region, that text
goes through a small pipeline:

- `sanitizeForScreenReader` deletes the engine's formatting. It removes the
  structural markers, `RESETCOLOR`, unprintable filler, the `{ } ^` font-size
  framing and colour codes.
- `sanitizeNameBoxText` cleans the label of a Yanfly name box. Only letters,
  digits and a little punctuation are kept.
- `replaceIconsWithNames` turns icon codes such as `\I[64]` into the name of the
  database row that uses the icon. `findNameByIconIndex` finds that row by
  searching items, weapons, armors, skills and states, in that order.
- `Window_Message.startMessage` puts the speaker in front of the message text.
  `Window_SkillList.select` announces a skill as `name: description`.

This project models that pipeline, and proves what the code promises about it:

- what each sanitizer keeps and what it removes;
- that the last pass of each sanitizer leaves only whitelisted characters or no
  framing;
- that text with nothing to clean is returned unchanged;
- how every kind of token is rewritten;
- the priority order of the icon lookup;
- how the speaker of a message is chosen.

The concrete inputs and outputs of the plugin's own tests are proved as lemmas
(module `TestVectors`).

The project also models three more parts:

- The sanitizer of the plugin's earlier version (`ScreenReaderAccess.js` at the
  repository root). It turns speaker tags into `Name: ` and unwraps coloured
  words. It replaces every run of characters outside its whitelist by one space.
- The rolling announcement log. It holds the twenty most recent announcements,
  newest first, and does not log a message that repeats the one just before it.
  This log is known only from `spec/ScreenReaderAccess/LoggingSpec.js`. The
  source files here have no implementation of it, so the class `Log` is built
  from what that test asserts.
- The interactable-elements menu (`src/InteractableElementsMenu.js`). It lists
  the map events the player can interact with, sorted by id. An unnamed event
  gets a generated name. A disabled placeholder appears when there are no
  interactable events.

How the regular expressions are modelled (module `Patterns`):

- Each global regular expression of the plugin is one `Pattern`. `MatchAt` is
  that pattern's matcher at the head of the text.
- `RewriteAll` is JavaScript's left-to-right, non-overlapping global `replace`.
- `ReplaceFirst` is `replace` with a string argument, which replaces the first
  occurrence only.
- The greedy quantifiers were resolved by hand: `\d+` and `\w+` are always
  followed by a character outside their class.

## Model

| member | source | states |
|---|---|---|
| Patterns.MatchAt | src/ScreenReaderAccess.js:33-36 | Every match of every pattern is non-empty, fits in the text, begins with a character the pattern can start with, and holds a character every match of it must contain. The deleting patterns replace their match by nothing. |
| Patterns.Bracketed | src/ScreenReaderAccess.js:34 | `L[digits]` is recognised only when the letter is one of the allowed ones, a `[` follows, at least one digit and a closing `]` follow. The digits between the brackets are all decimal digits. |
| Patterns.LeadCount | src/ScreenReaderAccess.js:51-53 | `X{1,2}` before a bracketed code takes one or two lead characters. All of them are of the lead class, and a bracketed code follows them. |
| Patterns.NoTriggerUnchanged | src/ScreenReaderAccess.js:43-46 | A global replace leaves text unchanged when no character of it can take part in a match. |
| Patterns.NoMatchUnchanged | src/ScreenReaderAccess.js:46 | A global replace leaves text unchanged when the pattern matches at no position. |
| Patterns.TokenFreeUnchanged | src/ScreenReaderAccess.js:43 | `/RESETCOLOR/g` leaves text without the token unchanged. |
| Patterns.RewriteAppend | src/ScreenReaderAccess.js:43-46 | Text before the first character that can start a match is copied as it is, and the scan continues on the rest. |
| Patterns.RewriteAfterPlain | src/ScreenReaderAccess.js:67-75 | A token after a match-free prefix is replaced in place, and the text after it is rewritten on its own. |
| Patterns.DeletingKeepsChars | src/ScreenReaderAccess.js:43-46 | A pass that replaces with `""` creates no new character: every output character occurs in its input. |
| Patterns.DeletingShrinks | src/ScreenReaderAccess.js:43-46 | A deleting pass never lengthens the text. |
| Patterns.AnyOfRemoves | src/ScreenReaderAccess.js:44-45 | After a one-character-class deletion, no character of the class is left. |
| Patterns.RunPassOutput | src/ScreenReaderAccess.js:56-62 | After replacing every run of a class by a string `w`, each remaining character is outside the class or comes from `w`. |
| Patterns.RunCollapses | ScreenReaderAccess.js:36-47 | A maximal run of the class is replaced by exactly one copy of the replacement. |
| Patterns.ReplaceFirstAt | src/ScreenReaderAccess.js:38-42 | A string-argument `replace` replaces exactly the first occurrence and keeps everything before and after it. |
| Patterns.ReplaceFirstAbsent | src/ScreenReaderAccess.js:38-42 | A string-argument `replace` leaves text without an occurrence unchanged. |
| Patterns.ReplaceFirstSkip | src/ScreenReaderAccess.js:38-42 | Text that cannot begin the pattern is skipped, and the first occurrence is looked for after it. |
| Markup.Run | src/ScreenReaderAccess.js:34 | A greedy run is the longest prefix of the class: every character in it is of the class, and the next one is not. |
| Markup.RunOfPrefix | src/ScreenReaderAccess.js:34 | A run stops exactly where its class does. |
| Markup.ParsePrinted | src/ScreenReaderAccess.js:91 | Parsing the printed decimal form of a number gives the number back. |
| Markup.PrintedInjective | spec/ScreenReaderAccess/LoggingSpec.js:71-85 | Different numbers print differently. |
| ScreenReaderAccess.SanitizedHasNoFraming | src/ScreenReaderAccess.js:33-46 | No announcement contains `{`, `}`, `^` or an unprintable symbol: they are deleted, and the last pass only deletes. |
| ScreenReaderAccess.SanitizeOnlyShortensAfterMarkers | src/ScreenReaderAccess.js:43-46 | After the marker replacements, the sanitizer never lengthens the text. |
| ScreenReaderAccess.PlainTextUnchanged | src/ScreenReaderAccess.js:37-46 | Text with no marker, no `RESETCOLOR`, no unprintable symbol, no `{ } ^` and no `c[digits]` is announced exactly as written. |
| ScreenReaderAccess.OrdinaryTextUnchanged | src/ScreenReaderAccess.js:37-46 | Prose without `<`, `R`, `[`, framing or unprintable characters is announced unchanged. |
| ScreenReaderAccess.ResetTokenDeleted | src/ScreenReaderAccess.js:35-43 | Every `RESETCOLOR` is deleted, and the scan goes on after it. |
| ScreenReaderAccess.BareColourCodeDeleted | src/ScreenReaderAccess.js:34-46 | `c[digits]` is deleted even with no backslash before it, because the colour pattern allows zero backslashes. |
| ScreenReaderAccess.FormattingFree | src/ScreenReaderAccess.js:43-46 | Text without `R`, `[`, unprintable symbols or framing passes all the passes after the markers unchanged. |
| ScreenReaderAccess.NoAngleNoMarkers | src/ScreenReaderAccess.js:38-42 | Text without `<` contains no marker and is not changed by the marker replacements. |
| ScreenReaderAccess.MarkerShapes | src/ScreenReaderAccess.js:38-42 | The five markers open with `<`, contain no other `<`, and differ pairwise in their second character. |
| ScreenReaderAccess.MarkerPass | src/ScreenReaderAccess.js:38-42 | Each marker replacement changes only its own marker. |
| ScreenReaderAccess.OnlyFirstMarkerReplaced | src/ScreenReaderAccess.js:38-42 | The first occurrence of a marker becomes one space, and later text, including later occurrences of the same marker, is kept. |
| ScreenReaderAccess.MarkerBetweenOrdinaryText | src/ScreenReaderAccess.js:37-46 | A marker between two pieces of ordinary prose is announced as a single space. |
| ScreenReaderAccess.Without | src/ScreenReaderAccess.js:44-45 | This is an independent definition of deleting a character class. The result is no longer than the input and holds no character of the class. |
| ScreenReaderAccess.AnyOfIsWithout | src/ScreenReaderAccess.js:44-45 | The scanning deletion of a character class equals `Without`. |
| ScreenReaderAccess.WithoutAppend | src/ScreenReaderAccess.js:44-45 | Deleting a class distributes over concatenation. |
| ScreenReaderAccess.WithoutKeepsChars | src/ScreenReaderAccess.js:44-45 | Deleting a class keeps only input characters. |
| ScreenReaderAccess.SymbolsAndFramingRemoved | src/ScreenReaderAccess.js:37-46 | For text without `<`, `R` or `[`, the announcement is the text with exactly the unprintable symbols and the framing characters removed. |
| ScreenReaderAccess.NameBoxCharset | src/ScreenReaderAccess.js:56-62 | Every character of a cleaned name-box label is a letter, a digit, `_`, `.`, `,`, `?`, `!`, `*`, a space or `-`. |
| ScreenReaderAccess.NameBoxPlainUnchanged | src/ScreenReaderAccess.js:51-62 | A label made only of whitelisted characters and without `RESETCOLOR` is kept as it is. |
| ScreenReaderAccess.ColourPassIdle | src/ScreenReaderAccess.js:51-54 | The three colour passes of the name-box sanitizer leave text without `[` or `\` unchanged. |
| ScreenReaderAccess.LeadColourCodeDeleted | src/ScreenReaderAccess.js:51-59 | A colour code is deleted by its pass, whether it is led by a backslash or by a non-printable character. The scan goes on after it. |
| ScreenReaderAccess.LoneColourDeleted | src/ScreenReaderAccess.js:54-60 | A lone `\c` is deleted. |
| ScreenReaderAccess.AngleBracketsDropped | src/ScreenReaderAccess.js:56-62 | The whitelist pass drops the brackets of `<Name>` and keeps the name. |
| ScreenReaderAccess.IconTokenReplaced | src/ScreenReaderAccess.js:65-75 | Each icon token (one or two backslashes, `i` or `I`, bracketed digits) becomes `IconReplacement` of the name found for its index. Text before it is kept, and the rest is rewritten independently. |
| ScreenReaderAccess.IconMatched | src/ScreenReaderAccess.js:66 | The icon pattern recognises the whole token and passes the parsed index to the lookup. |
| ScreenReaderAccess.NoIconUnchanged | src/ScreenReaderAccess.js:65-75 | A description without a backslash is kept as it is. |
| ScreenReaderAccess.UnknownIconDropped | src/ScreenReaderAccess.js:70-98 | An index that no table knows is replaced by the empty string. |
| ScreenReaderAccess.EmptyItemNameShadows | src/ScreenReaderAccess.js:70-98 | An item with the icon but an empty name ends the search, and the token is dropped even if a later table has a named match. |
| ScreenReaderAccess.ActorWithFace | src/ScreenReaderAccess.js:135 | It finds the first non-null actor wearing the face, or reports that none does. |
| ScreenReaderAccess.NameBoxSpeaker | src/ScreenReaderAccess.js:129-133 | With a name box, the face and actors play no part: the message text is exactly `sanitizeNameBoxText(label) + ": " + text`, and the cleaned label contains no colon. |
| ScreenReaderAccess.FaceSpeakerIsFirstActor | src/ScreenReaderAccess.js:134-138 | Without a name box, a face makes the first actor wearing it the speaker. |
| ScreenReaderAccess.FaceSpeakerFallback | src/ScreenReaderAccess.js:134-138 | A face no actor wears is announced by its own face name. |
| ScreenReaderAccess.NoSpeaker | src/ScreenReaderAccess.js:124-140 | With neither a name box nor a face, the text is announced without a speaker. |
| ScreenReaderAccess.SkillDescriptionKept | src/ScreenReaderAccess.js:158-169 | A skill with an icon-free description is announced as `name: description`. |
| Databases.FirstMatch | src/ScreenReaderAccess.js:91 | `find` returns the first non-null entry with the icon index. No earlier slot matches, and `None` means no slot matches. |
| Databases.FindName | src/ScreenReaderAccess.js:90-98 | The search returns `None` exactly when no table has a match. |
| Databases.HigherTableWins | src/ScreenReaderAccess.js:90-96 | The first match of the first table that has one is returned, whatever later tables hold. |
| Databases.ItemsTakePriority | src/ScreenReaderAccess.js:82-96 | A matching item shadows every other table, even when its name is empty. |
| Databases.StatesAreSearchedLast | src/ScreenReaderAccess.js:82-96 | A state is found only when no item, weapon, armor or skill has the icon. |
| LegacyScreenReaderAccess.SanitizedCharset | ScreenReaderAccess.js:36-47 | Every character of the output is a word character or one of `. , ? ! ' : _` space `-`. |
| LegacyScreenReaderAccess.WhitelistedUnchanged | ScreenReaderAccess.js:37-47 | Text made only of whitelisted characters passes through unchanged. |
| LegacyScreenReaderAccess.WhitelistedIdle | ScreenReaderAccess.js:43-47 | No pass of the earlier sanitizer can start on a whitelisted character. |
| LegacyScreenReaderAccess.NonTextRunBecomesOneSpace | ScreenReaderAccess.js:36-47 | Each maximal run of non-whitelisted characters becomes exactly one space. |
| LegacyScreenReaderAccess.SpeakerTagRewritten | ScreenReaderAccess.js:32-43 | `<Name>` becomes `Name: `, and the scan continues after the tag. |
| LegacyScreenReaderAccess.ColouredSpeakerTagRewritten | ScreenReaderAccess.js:32-43 | `<\c[n]Name>` becomes `Name: `, and the colour is dropped. |
| LegacyScreenReaderAccess.ColourWordUnwrapped | ScreenReaderAccess.js:33-44 | `\c[n]word\c` becomes `word`. |
| LegacyScreenReaderAccess.PlayerTagRewritten | ScreenReaderAccess.js:34-45 | `<\N[1]>` becomes `Me: `. |
| LegacyScreenReaderAccess.ColouredPlayerTagRewritten | ScreenReaderAccess.js:34-45 | `<\c[n]\N[1]>` becomes `Me: `. |
| LegacyScreenReaderAccess.LineEscapeRewritten | ScreenReaderAccess.js:35-46 | `\n` and `\r` each become one space. |
| AnnouncementLog.Collapse | spec/ScreenReaderAccess/LoggingSpec.js:88-106 | Collapsing consecutive repeats never lengthens the history and keeps the latest message last. |
| AnnouncementLog.LogIsRecentHistory | spec/ScreenReaderAccess/LoggingSpec.js:54-106 | The log equals the latest twenty of the announcements with consecutive repeats collapsed, newest first. |
| AnnouncementLog.LogBounded | spec/ScreenReaderAccess/LoggingSpec.js:68-81 | The log never holds more than twenty entries. |
| AnnouncementLog.NewestFirst | spec/ScreenReaderAccess/LoggingSpec.js:83-103 | The message just announced is always at the head. |
| AnnouncementLog.SingleAnnouncement | spec/ScreenReaderAccess/LoggingSpec.js:54-65 | After one announcement, the log is exactly that message. |
| AnnouncementLog.RepeatIsLoggedOnce | spec/ScreenReaderAccess/LoggingSpec.js:88-106 | The announcements A, A, B give the log B, A. |
| AnnouncementLog.CollapseDistinct | spec/ScreenReaderAccess/LoggingSpec.js:68-85 | A history without consecutive repeats is not collapsed. |
| AnnouncementLog.RollingTruncation | spec/ScreenReaderAccess/LoggingSpec.js:68-85 | Twenty or more messages without repeats leave exactly twenty entries: the latest twenty, newest first. |
| AnnouncementLog.TwentyTwoPages | spec/ScreenReaderAccess/LoggingSpec.js:71-85 | Pages 0 to 21 leave twenty entries, and the head is "This is page 21". |
| AnnouncementLog.Log.Record | spec/ScreenReaderAccess/LoggingSpec.js:54-106 | Recording keeps the log equal to the collapsed recent history. A repeat of the head is dropped; otherwise the message goes in front and the oldest entry beyond twenty falls off. The head is the message just recorded. |
| InteractableElementsMenu.InteractableElements | src/InteractableElementsMenu.js:114-122 | The filter keeps exactly the interactable events: action button, player touch or event touch, with normal priority. |
| InteractableElementsMenu.InteractableElementsKeepOrder | src/InteractableElementsMenu.js:114-118 | The filter keeps map order: filtering a concatenation concatenates the results. |
| InteractableElementsMenu.SortById | src/InteractableElementsMenu.js:81-83 | The sort gives ascending ids and a permutation of its input. |
| InteractableElementsMenu.CommandListLength | src/InteractableElementsMenu.js:85-93 | With no interactable element, the list is the single placeholder. Otherwise it has one command per element. |
| InteractableElementsMenu.CommandsAscendById | src/InteractableElementsMenu.js:80-89 | The commands carry symbols in ascending id order. |
| InteractableElementsMenu.OneCommandPerElement | src/InteractableElementsMenu.js:85-89 | Every interactable event has a command whose extension is that event. Every command with an extension is enabled, has the element's id as its symbol, and stands for an interactable event. |
| InteractableElementsMenu.CommandNames | src/InteractableElementsMenu.js:87 | A named element keeps its name. An unnamed one is called `Event i at x y`, after its sorted position and its tile. |
| InteractableElementsMenu.Window.MakeCommandList | src/InteractableElementsMenu.js:77-94 | The loop appends the element commands, then the disabled placeholder if the list is still empty. From an empty list, the result is `CommandList`. |
| TestVectors.ScrollTextLineBreak | spec/ScreenReaderAccess/WindowScrollTextSpec.js:59-60 | `In A.D. 2101<br>War was beginning.` is announced with the `<br>` as one space. |
| TestVectors.TrailingEscapeDropped | spec/ScreenReaderAccess/WindowScrollTextSpec.js:64-65 | A trailing escape character is dropped. |
| TestVectors.StandardMessage | spec/ScreenReaderAccess/WindowMessageSpec.js:61-63 | A standard message is announced unchanged. |
| TestVectors.UnprintableCharactersDropped | spec/ScreenReaderAccess/WindowMessageSpec.js:66-68 | The escape characters inside a message are dropped. |
| TestVectors.LargerFontUnframed | spec/ScreenReaderAccess/WindowMessageSpec.js:172-173 | `{{{SNAAAAAKE!}}}` is announced as `SNAAAAAKE!`. |
| TestVectors.SmallerFontUnframed | spec/ScreenReaderAccess/WindowMessageSpec.js:178-179 | The inverted braces of smaller text are dropped. |
| TestVectors.ResetColourCalls | spec/ScreenReaderAccess/WindowMessageSpec.js:184-185 | Colour codes without a backslash and `RESETCOLOR` tokens in the text are removed. |
| TestVectors.SpeakerTagLabel | spec/ScreenReaderAccess/WindowMessageSpec.js:159-161 | The label `<Mario>` is cleaned to `Mario`. |
| TestVectors.ColouredLabel | spec/ScreenReaderAccess/WindowMessageSpec.js:165-167 | The label `\c[2]Lara Croft\c` is cleaned to `Lara Croft`. |
| TestVectors.ColouredSpeakerTagLabel | spec/ScreenReaderAccess/WindowMessageSpec.js:171-173 | The label `\c[5]<Campbell>\c` is cleaned to `Campbell`. |
| TestVectors.ResetColourLabel | spec/ScreenReaderAccess/WindowMessageSpec.js:183-185 | The label `\c[15]<Lulu>RESETCOLOR` is cleaned to `Lulu`. |
| TestVectors.MalformedColourLabel | spec/ScreenReaderAccess/WindowMessageSpec.js:190-192 | A colour code led by an escape character instead of a backslash is removed from the label, leaving `Count Dracular`. |
| TestVectors.SpeakerTagAnnounced | spec/ScreenReaderAccess/WindowMessageSpec.js:158-161 | The message from the `<Mario>` name box is announced as `Mario: It's a me!`. |
| TestVectors.ResetColourAnnounced | spec/ScreenReaderAccess/WindowMessageSpec.js:181-185 | The Lulu message is announced with the speaker and without colour codes. |
| TestVectors.ColouredSpeakerAnnounced | spec/ScreenReaderAccess/WindowMessageSpec.js:163-167 | The message from the `\c[2]Lara Croft\c` name box is announced as `Lara Croft: Hmmm. Where did I put that buttler?`. |
| TestVectors.LargerFontAnnounced | spec/ScreenReaderAccess/WindowMessageSpec.js:169-173 | The larger-font message from the `\c[5]<Campbell>\c` name box is announced as `Campbell: SNAAAAAKE!`. |
| TestVectors.SmallerFontAnnounced | spec/ScreenReaderAccess/WindowMessageSpec.js:175-179 | The smaller-font message from the `Youngster` name box is announced as `Youngster: I like shorts. They're comfortable and easy to wear.`. |
| TestVectors.FaceOfActorAnnounced | spec/ScreenReaderAccess/WindowMessageSpec.js:106-121 | A face worn by an actor is announced as `Butterface the Cow: Mooooo!`. |
| TestVectors.FaceNameAnnounced | spec/ScreenReaderAccess/WindowMessageSpec.js:124-132 | A face worn by no actor is announced as `butterface: Mooooo!`. |
| TestVectors.NameOnlySkill | spec/ScreenReaderAccess/WindowSkillListSpec.js:41-55 | A skill without a description is announced by its name alone. |
| TestVectors.IconNamedInDescription | spec/ScreenReaderAccess/WindowSkillListSpec.js:82-95 | `\I[1]` with a state named `blindness` is announced as `blindness ` in the skill description. |
| TestVectors.RepeatedMarkerNeedsTwoPasses | src/ScreenReaderAccess.js:41 | `<br><br>` gives ` <br>`, and sanitizing that again gives two spaces, so the sanitizer is not idempotent. |
| TestVectors.JoinedResetTokenNeedsTwoPasses | src/ScreenReaderAccess.js:35-43 | `RESETRESETCOLORCOLOR` gives `RESETCOLOR`, because a deletion can create a new token. |

## Left out

- The DOM work is not modelled: creating the `sr-only` element, its CSS and aria attributes, and the `innerText` writes of `setTextTo` (src/ScreenReaderAccess.js:8-29,101-105). This is I/O. An announcement is modelled as what `sanitizeForScreenReader` returns for the text handed to `setTextTo`.
- The engine patching (`overrides`) and the call-through to the original engine methods are not modelled. They are engine glue.
- `convertEscapeCharacters` is engine code and is not part of this model. The message text is a parameter of `MessageText` and is already converted.
- The Yanfly name-box detection (`Yanfly.nameWindow` and `hasDifferentNameBoxText()`) is reduced to an optional label in `MessageWindow`.
- `Window_ScrollText.startMessage` and `Window_Command.select` are not modelled separately. They hand their text to the sanitizer unchanged.
- The item-list, options, battle-status and battle-log announcements are not modelled. They are thin wrappers around engine calls.
- src/WallBump.js is not part of this model.
- The keyboard listeners, scene changes, `drawItem` and sounds of the interactable-elements menu are not modelled. They are event-driven I/O.
- The loose equality between the captured digits and a numeric `iconIndex` is modelled as parsing the digits to a natural number. Leading zeros therefore parse to the same index, as `"01" == 1` does. Other JavaScript coercions, such as a string `iconIndex`, are not modelled.
- A missing skill description and a missing element name are modelled as `""`. The code tests only these two fields for truthiness (`item.description` at src/ScreenReaderAccess.js:163, `element.name` at src/InteractableElementsMenu.js:87), and `""` takes the same branch as `null` or `undefined` there.
- A null or missing skill name, actor name or name-box text is not modelled: names and labels are always strings here. In JavaScript such a value would be printed as `null` or `undefined` in the announcement, or would make `replace` throw.
- InteractableElementsMenu.SortById: the model sorts a value, not the array in place. The array is freshly built by `filter`, so nothing else sees it. Ids are compared as unbounded integers. The ordering of equal ids (stability) is not stated.
- Patterns.LeadCount: a string is a sequence of Unicode scalar values, while JavaScript regular expressions without the `u` flag work on UTF-16 code units. A character outside the Basic Multilingual Plane (an emoji, say) is two code units in JavaScript, so `[^ -~]{1,2}` can take half of it, but here it counts as one lead. On such text the model of `malformedColourRegex` can delete a different span than the code does; the other patterns either match ASCII characters only or replace whole runs of characters outside a whitelist, and such a run covers the same text whether it is counted in code units or in scalar values.
- ScreenReaderAccess.UnprintableSymbols: the class of `unprintableSymbolsRegex` is modelled as the single escape character U+001B, which is what its source bytes hold.
- The general sanitizer has no whitelist and makes no idempotence promise, and none is stated:
  - It keeps every character that no pass removes. Only the name-box sanitizer and the earlier version whitelist characters.
  - The markers are replaced at their first occurrence only.
  - Sanitizing is not idempotent (`TestVectors.RepeatedMarkerNeedsTwoPasses`, `TestVectors.JoinedResetTokenNeedsTwoPasses`).
- The announcement log compares a new message with the newest entry. The source of the log is not among the files modelled here, so the model follows its test. Because the newest entry is always the message recorded last, this is the same as comparing with the last recorded message.
