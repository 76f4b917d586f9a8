# dlg in Dafny

A model of the dialog-script library `dlg` and of the playback state
machine in its terminal debugger.

A script is plain text with these markers:

- `@name:state` — mentions, which choose the speaker;
- `#section` — links, which open a new section;
- `:menu` and `:opt(#target)` — commands, which build a menu;
- `{...}` — inline blocks;
- `// ...` — line comments.

Compilation has three stages:

1. A lexer cuts the text into tokens. Text the lexer does not recognise falls back to plain text.
2. A reducer turns those tokens into semantic tokens. It buffers text, splits it into paragraphs two lines at a time, and decodes each mention, link and command.
3. A fold (`parse_semantics`) builds the document. The document has two parts:
   - a table from each character to the named states the script requires;
   - the lines of every section, where a line is a phrase of paragraphs or a menu.

A cursor (section, line, segment) walks the document. The console player steps the cursor one segment at a time. The debugger does more:

- it animates each segment grapheme by grapheme;
- it waits for Enter;
- it lets the user pick a menu option with the arrow keys, wrapping around at either end.

Modules, in dependency order:

| file | module | models |
|---|---|---|
| results.dfy | `Results` | `Option` / `Result` with failure propagation |
| strings.dfy | `Strings` | the parts of Rust's `str` the code uses: `trim`, `lines`, `split`, `chunks(2)`, `find`, decimal rendering |
| tokens.dfy | `Tokens` | the token alphabets and a longest-match lexer |
| section.dfy | `Sections` | `Section` and its `Display` |
| cursor.dfy | `Cursors` | `Cursor`, its operations and its `Display` |
| dialog.dfy | `Dialogs` | the document types, `get_line_by_cursor`, `ensure_character_requirement` |
| builder.dfy | `Builder` | `parse_semantics` as a fold over an explicit accumulator |
| builder_props.dfy | `BuilderProperties` | what every compiled document satisfies |
| reducer.dfy | `Reducer` | the text buffering and token decoding of `from_str`, and `from_str` itself |
| player.dfy | `Player` | `Animation`, `DialogState`, `process_line`, `play` |
| debugger.dfy | `Debugger` | `dialog_ui`'s view resolution, the key handler, the tick, the selection wrap |
| scenarios.dfy | `Scenarios` | the repository's tests worked through the model, and a debugger session |

How the source's behaviour is represented:

- Every `Err` and every `panic!` on the way from text to document becomes a `Dialogs.CompileError`.
- Every `panic!` in the debugger's loop becomes a `Debugger.Fault`.
- Rust's `usize` and `isize` are unbounded integers here.
- `%` on `isize` truncates toward zero, and is written out as `Debugger.TruncRem`.

## Model

| member | source | states |
|---|---|---|
| Strings.Trim | dlg/src/parser/mod.rs:217 | the result has no surrounding whitespace; it shows something exactly when the input does, and is empty exactly when the input is blank |
| Strings.TrimSlice | dlg/src/parser/mod.rs:217 | the trimmed text is a contiguous slice of the input, with only whitespace cut on either side |
| Strings.TrimIdempotent | dlg/src/parser/mod.rs:227 | trimming twice is trimming once |
| Strings.Split | dlg/src/parser/mod.rs:247 | `split(':')` yields at least one part; no part contains `:`; the parts joined with `:` give back the input |
| Strings.SplitJoin | dlg/src/parser/mod.rs:247 | splitting parts joined with `:` gives back the parts, when no part contains `:` |
| Strings.SplitCount | dlg/src/parser/mod.rs:247-248 | the number of parts is one more than the number of `:` |
| Strings.Lines | dlg/src/parser/mod.rs:222-224 | no line of `lines()` contains a newline |
| Strings.LinesJoin | dlg/src/parser/mod.rs:222-224 | newline-free lines joined with newlines come back out of `lines()` |
| Strings.LinesVisible | dlg/src/parser/mod.rs:222-224 | some line shows something exactly when the text does |
| Strings.Chunks2 | dlg/src/parser/mod.rs:225 | `chunks(2)` yields ⌈n/2⌉ chunks |
| Strings.ChunksWindow | dlg/src/parser/mod.rs:225 | chunk k is lines 2k and 2k+1, or only the last line; every chunk holds one or two lines |
| Tokens.IdentLen | dlg/src/parser/tokens.rs:3 | the longest prefix matching `[a-zA-Z_][a-zA-Z_0-9]*`, 0 when none matches |
| Tokens.MatchMentionShape | dlg/src/parser/tokens.rs:7 | a mention the matcher finds has the mention shape; none is found exactly when the input does not start with whitespace then `@` |
| Tokens.MentionLongest | dlg/src/parser/tokens.rs:7 | no longer prefix has the mention shape |
| Tokens.MatchLinkLongest | dlg/src/parser/tokens.rs:11 | the link found has the link shape (whitespace, `#`, a non-empty identifier), and no longer prefix does |
| Tokens.MatchCommandShape | dlg/src/parser/tokens.rs:14 | a command found has the command shape; when none is found, no prefix has that shape |
| Tokens.CommandLongest | dlg/src/parser/tokens.rs:14 | no longer prefix has the command shape |
| Tokens.MatchInlineBlockOnly | dlg/src/parser/tokens.rs:17 | the inline block found is the only prefix of the form `{`, non-`}` characters, `}` |
| Tokens.MatchCommentOnly | dlg/src/parser/tokens.rs:20 | the comment found is the only prefix of the form `//`, non-newlines, newline |
| Tokens.MatchAt | dlg/src/parser/tokens.rs:5-21 | a match is a structured kind with a non-empty length inside the input |
| Tokens.MatchAtLongest | dlg/src/parser/tokens.rs:5-21 | the match is the longest prefix of its kind, and no other kind matches any prefix; no match means no structured pattern matches any prefix |
| Tokens.NextLexeme | dlg/src/parser/tokens.rs:23-24 | each step consumes a non-empty prefix of the input |
| Tokens.NextLexemeWellLexed | dlg/src/parser/tokens.rs:5-24 | the lexeme is the longest structured match, or one character of text when nothing matches |
| Tokens.Lex | dlg/src/parser/tokens.rs:23-24 | lexing never fails: the slices, read in order, are the input |
| Tokens.LexWellLexed | dlg/src/parser/tokens.rs:5-24 | every lexeme is the one the rules demand in front of the rest of the input |
| Tokens.LexShapes | dlg/src/parser/tokens.rs:7-20 | every structured lexeme's slice matches its kind's pattern |
| Tokens.CommentsEndInNewline | dlg/src/parser/tokens.rs:20 | a lexed comment implies a newline in the input |
| Tokens.CommentNeedsNewline | dlg/src/parser/tokens.rs:20 | without a newline in the input, no lexeme is a comment |
| Tokens.ShapeStart | dlg/src/parser/tokens.rs:7-20 | every structured pattern starts with whitespace, `{` or `/` |
| Tokens.LeadingDelimiterIsText | dlg/src/parser/tokens.rs:7-14 | `@`, `#` or `:` at offset 0 is lexed as one character of text, because the patterns need whitespace first |
| Sections.Display | dlg/src/parser/section.rs:9-16 | a rendering starts with `#` exactly for a named section, with the name after it; `Initial` renders as `initial` |
| Sections.ParseDisplay | dlg/src/parser/section.rs:9-16 | every rendering reads back as the section it came from |
| Sections.DisplayInjective | dlg/src/parser/section.rs:3-16 | two sections render alike only when they are equal |
| Cursors.SetSectionInternal | dlg/src/player/cursor.rs:10-14 | the cursor moves to the start of the given section |
| Cursors.Reset | dlg/src/player/cursor.rs:16-18 | the cursor becomes the default cursor |
| Cursors.SetSection | dlg/src/player/cursor.rs:20-22 | the cursor moves to line 0, segment 0 of `Named(name)` |
| Cursors.NextLineIndex | dlg/src/player/cursor.rs:29-32 | same section, next line, segment 0 |
| Cursors.NextPhraseIndex | dlg/src/player/cursor.rs:39-41 | only the segment grows, by one |
| Cursors.OnlyJumpsGoBack | dlg/src/player/cursor.rs:9-47 | a step that is not a jump moves strictly forward in the same section; a change of section or a smaller line index implies a jump (`reset` or `set_section`) |
| Cursors.NoJumpMonotone | dlg/src/player/cursor.rs:9-47 | a series of steps without jumps stays in the section, never lowers the line, and moves forward when not empty |
| Cursors.ParseDisplay | dlg/src/player/cursor.rs:55-59 | `<section>:<line>:<segment>` reads back as the cursor |
| Dialogs.GetLineByCursor | dlg/src/parser/mod.rs:63-67 | a line is returned exactly when the cursor's line index is inside its section's lines, and it is that line |
| Dialogs.EnsureCharacterRequirement | dlg/src/parser/mod.rs:69-79 | the narrator changes nothing; a character's alias gains an entry; a new named state is appended; a known or default state leaves the list alone; other characters are unchanged |
| Dialogs.EnsureKeepsWellFormed | dlg/src/parser/mod.rs:69-79 | state lists stay free of duplicates and of `Default` |
| Builder.Touch | dlg/src/parser/mod.rs:88 | the section gains an entry (empty when new), and existing entries are unchanged |
| Builder.PushLine | dlg/src/parser/mod.rs:165-168 | the line is appended to the section, and the other sections are unchanged |
| Builder.WithPending | dlg/src/parser/mod.rs:123-125 | the pending option, if any, is appended to the menu's options |
| Builder.CloseMenu | dlg/src/parser/mod.rs:122-129 | an open menu, with its pending option, becomes the last line of the current section; with no menu the document is unchanged |
| Builder.Register | dlg/src/parser/mod.rs:94 | the alias gains an entry (empty when new), and existing entries are unchanged |
| Builder.MentionStep | dlg/src/parser/mod.rs:91-120 | fails exactly for `@:state` while the narrator speaks; otherwise sets the speaker for each mention kind, records its requirement, and leaves the sections, the menu and the option alone |
| Builder.TitleMenu | dlg/src/parser/mod.rs:147-148 | an untitled menu takes the first paragraph as its title; a titled one is unchanged; the options are kept |
| Builder.TextStep | dlg/src/parser/mod.rs:138-170 | outside a menu, appends one phrase of the current speaker. Inside a menu: no paragraphs fails; otherwise the first paragraph titles the menu, else the pending option, else compilation fails. The menu, whether still open or pushed as a menu line, is the old one with the first paragraph as title when it had none. More paragraphs with an option pending push it with the option and close it, without clearing the option |
| Builder.CommandStep | dlg/src/parser/mod.rs:171-189 | `:menu` opens a fresh menu, replacing an open one; `:opt` outside a menu fails; other commands are ignored |
| Builder.Step | dlg/src/parser/mod.rs:87-193 | a link closes the open menu into the section being left, then moves to `Named(target)` with the narrator; an inline block fails; the entries grow by exactly the current section; only a link changes the section |
| BuilderProperties.FoldAppend | dlg/src/parser/mod.rs:87-194 | folding a concatenation folds its parts in turn, stopping at the first error |
| BuilderProperties.FoldKeepsInv | dlg/src/parser/mod.rs:87-194 | the loop keeps requirements well formed and every phrase's speaker known |
| BuilderProperties.ParseSemanticsWellFormed | dlg/src/parser/mod.rs:69-79 | a compiled document lists each named state once and never `Default`, and every speaking character has an entry |
| BuilderProperties.ParseSemanticsErrors | dlg/src/parser/mod.rs:81-206 | the loop only ever fails with the narrator-state error or one of its four panics |
| BuilderProperties.ParseSemanticsNonEmpty | dlg/src/parser/mod.rs:141-142 | given non-empty text tokens, the "0 lines" panic never fires, and every phrase has a paragraph |
| BuilderProperties.StateAfterNarratorFails | dlg/src/parser/mod.rs:101-109 | `@` then `@:state` fails to compile, whatever comes before or after |
| BuilderProperties.OptionsFold | dlg/src/parser/mod.rs:178-187 | in a titled menu, each titled `:opt` appends its option after the ones before it |
| BuilderProperties.MenuOptionsInOrder | dlg/src/parser/mod.rs:171-203 | a titled menu with titled options compiles to one menu line whose options are the declared ones, in order |
| BuilderProperties.FoldSections | dlg/src/parser/mod.rs:88 | entries are only added, and only for the current section or a link target |
| BuilderProperties.FoldEntries | dlg/src/parser/mod.rs:86-88 | the loop adds an entry for exactly the starting section (when there is a token) and each section opened by a link that another token follows; an open menu's section has an entry |
| BuilderProperties.ParseSemanticsSections | dlg/src/parser/mod.rs:86-88 | `Initial` has an entry exactly when there is a token, and `#n` exactly when a link to `n` is followed by another token, so a link as the last token leaves no entry |
| Reducer.DropEmpty | dlg/src/parser/mod.rs:226-234 | only non-empty strings are kept; nothing is kept exactly when all are empty; with no empty strings the input is kept unchanged |
| Reducer.DropEmptyFrom | dlg/src/parser/mod.rs:226-234 | every kept string comes from the input |
| Reducer.JoinChunks | dlg/src/parser/mod.rs:227 | one string per chunk: its lines joined with a newline, then trimmed |
| Reducer.ChunkVisible | dlg/src/parser/mod.rs:227-228 | a joined chunk shows something exactly when one of its lines does |
| Reducer.Paragraphs | dlg/src/parser/mod.rs:222-234 | no paragraph comes out exactly when the buffer is blank |
| Reducer.ParagraphsTrimmed | dlg/src/parser/mod.rs:222-234 | every paragraph is non-empty and trimmed |
| Reducer.ParagraphsPairLines | dlg/src/parser/mod.rs:222-234 | when every line shows something: ⌈n/2⌉ paragraphs, paragraph k being lines 2k and 2k+1 joined and trimmed |
| Reducer.Flush | dlg/src/parser/mod.rs:221-239 | at most one text token, none exactly when the buffer is blank, never an empty one |
| Reducer.FlushTexts | dlg/src/parser/mod.rs:284-303 | a flushed text token has non-empty, trimmed paragraphs |
| Reducer.DecodeMention | dlg/src/parser/mod.rs:243-263 | `@` alone is the narrator; longer slices never are |
| Reducer.DecodeMentionFails | dlg/src/parser/mod.rs:243-263 | decoding fails exactly on an empty slice or more than one `:` |
| Reducer.DecodeMentionParts | dlg/src/parser/mod.rs:247-259 | one part gives `Name`; two parts give `State` when the left part is blank, and `NameState` otherwise |
| Reducer.DecodeEncodeMention | dlg/src/parser/mod.rs:243-263 | decoding a written mention gives it back |
| Reducer.EncodeDecodeMention | dlg/src/parser/mod.rs:243-263 | every slice the lexer calls a mention decodes, and writing the result gives the slice back |
| Reducer.DecodeLink | dlg/src/parser/mod.rs:265 | fails exactly on an empty slice; the target is the slice without its first character |
| Reducer.DecodeEncodeLink | dlg/src/parser/mod.rs:265 | `#target` decodes to `target` |
| Reducer.DecodeCommand | dlg/src/parser/mod.rs:266-275 | fails exactly when the slice bounds are out of range; the name never contains `(` |
| Reducer.DecodeEncodeCommand | dlg/src/parser/mod.rs:266-275 | `:name(args)` and `:name` decode to their name and arguments |
| Reducer.EncodeDecodeCommand | dlg/src/parser/mod.rs:266-275 | every slice the lexer calls a command decodes, and writing the result gives the slice back |
| Reducer.CommandWithArgs | dlg/src/parser/mod.rs:267-271 | with `(`, the name runs from after `:` to the first `(`, and the arguments from after it to before the last character |
| Reducer.DecodeLexeme | dlg/src/parser/mod.rs:242-277 | comments and text give no token, inline blocks keep their trimmed text, and no decoded token is text |
| Reducer.ShapedDecodes | dlg/src/parser/mod.rs:242-277 | no lexeme of a structured kind hits a slicing panic or the many-`:` panic |
| Reducer.ReduceTexts | dlg/src/parser/mod.rs:216-303 | every text token produced has non-empty, trimmed paragraphs |
| Reducer.ReduceShaped | dlg/src/parser/mod.rs:216-282 | over well-shaped lexemes the loop never fails |
| Reducer.ReduceTextRun | dlg/src/parser/mod.rs:219-220 | a run of text lexemes collapses into the one flush of all of it |
| Reducer.ReduceNonText | dlg/src/parser/mod.rs:242-281 | apart from text tokens, the output is exactly the decoded structured lexemes, in order |
| Reducer.LexedReduces | dlg/src/parser/mod.rs:212-303 | on any input, the loop over the lexer's tokens succeeds and its text tokens are well formed |
| Reducer.FromStrOutcomes | dlg/src/parser/mod.rs:209-311 | compiling any text either succeeds with a document whose phrases are non-empty, whose requirements are well formed and whose speakers are known, or fails only in `parse_semantics`, never with the "0 lines" panic |
| Player.DisplayAnimation | dlg/src/player/mod.rs:22-26 | a rendering is at least `0..0` long |
| Player.ParseDisplayAnimation | dlg/src/player/mod.rs:22-26 | `current..target` reads back as the two counters |
| Player.ProcessLine | dlg/src/player/mod.rs:65-89 | a menu leaves the cursor unchanged, and a phrase always moves it forward. It stays on the line exactly when the segment index was in range; otherwise it moves to segment 0 of the next line. The animation is never touched |
| Player.RunEndsWithoutLine | dlg/src/player/mod.rs:52-62 | the loop stops exactly when no line is under the cursor |
| Player.RunKeepsSection | dlg/src/player/mod.rs:58-60 | the loop never leaves its section, never lowers the line, never touches the animation |
| Player.RunStuckAtMenu | dlg/src/player/mod.rs:78-85 | on a menu the loop makes no progress, however long it runs |
| Player.RunPhrases | dlg/src/player/mod.rs:58-76 | in a section of phrases the loop ends exactly after one iteration per remaining segment plus one per line, past the last line |
| Player.PlayPhrases | dlg/src/player/mod.rs:52-62 | the same from the default state for the initial section |
| Debugger.TruncRem | dlg-debugger/src/main.rs:307 | the remainder lies strictly between -len and len, with the sign of the dividend |
| Debugger.WrapSelection | dlg-debugger/src/main.rs:169-171 | panics exactly for an empty list; otherwise the selection is in `[0, len)` |
| Debugger.WrapIsFloorMod | dlg-debugger/src/main.rs:306-309 | for len > 0 the wrapped value equals floor modulo |
| Debugger.MoveSelection | dlg-debugger/src/main.rs:300-309 | panics exactly for an empty menu |
| Debugger.MoveWraps | dlg-debugger/src/main.rs:300-309 | Up goes from 0 to len-1 and otherwise one back; Down goes from len-1 to 0 and otherwise one on; other keys keep the selection |
| Debugger.Draw | dlg-debugger/src/main.rs:340-475 | the cursor, the dialog and the revealed count are kept. The view is End exactly when it already was or no line is under the cursor. It panics exactly on a phrase addressed past its segments or revealed past its end, or on a menu missing a title. Otherwise a phrase sets the target to the segment's grapheme count and animates exactly while current < target, then waits for the next line after the last segment and for the next segment before it; a menu is shown with the previous menu view's selection, or 0 |
| Debugger.DrawSafe | dlg-debugger/src/main.rs:409-473 | with the invariant, drawing panics only on a menu the debugger cannot play. Otherwise the view matches the line: the target is the segment's grapheme count, and the view animates exactly while current < target, else waits for the next segment or the next line (the last segment). A menu keeps a valid selection |
| Debugger.HandleKey | dlg-debugger/src/main.rs:256-325 | quits exactly on Escape, Ctrl-C or End. Enter reveals the whole segment while animating, goes to the next line or the next segment when waiting, and in a menu follows the selected option to the section named after its first character, panicking on a selection out of range, empty arguments or a multi-byte first character. Another key leaves a non-menu view unchanged, and in a menu moves the selection as `MoveSelection` says, panicking on an empty menu. Every cursor move starts a fresh animation |
| Debugger.HandleArrows | dlg-debugger/src/main.rs:300-314 | with a selection inside the menu, Up and Down move it by one, wrapping around the ends, and change nothing else |
| Debugger.HandleKeySafe | dlg-debugger/src/main.rs:264-325 | from a drawn view, a key panics only on an unplayable menu, and otherwise keeps the invariant |
| Debugger.LineStartSegment | dlg-debugger/src/main.rs:267-289 | moving to segment 0 of any line lands on an existing segment |
| Debugger.AdvanceInv | dlg-debugger/src/main.rs:267-289 | a fresh animation at an existing segment satisfies the invariant |
| Debugger.Tick | dlg-debugger/src/main.rs:329-336 | while animating below the target, `current` grows by one and nothing else changes; otherwise the app is unchanged; `current ≤ target` is kept |
| Debugger.TickInv | dlg-debugger/src/main.rs:329-336 | the timer keeps the invariant |
| Debugger.FrameSafe | dlg-debugger/src/main.rs:239-338 | one loop turn from the invariant panics only on an unplayable menu, and otherwise keeps the invariant |
| Debugger.SessionSafe | dlg-debugger/src/main.rs:239-338 | when every menu is playable, no sequence of keys and ticks makes the loop panic |
| Debugger.Load | dlg-debugger/src/main.rs:64-85 | the loaded app starts animating at the default state, and its document is compiled as `from_str` promises; otherwise the error comes from `parse_semantics` |
| Debugger.LoadInv | dlg-debugger/src/main.rs:64-85 | every loaded app satisfies the invariant |
| Debugger.LoadedSessionSafe | dlg-debugger/src/main.rs:64-338 | a loaded script whose menus are playable never makes the loop panic |
| Debugger.UnplayableMenuFaults | dlg-debugger/src/main.rs:445-466 | drawing a menu with an untitled option, or without a title, panics; so does an arrow key or Enter on an empty menu |
| Scenarios.BasicDialog | tests/basic_dialog.rs:7-36 | the two-speaker script compiles to the expected phrases and requirements |
| Scenarios.MenuScript | tests/menu.rs:11-68 | the menu script compiles to the expected menu and sections |
| Scenarios.MentionsScript | tests/mentions.rs:7-54 | the mentions script compiles to the expected phrases, with `calm` as `bob`'s one requirement |
| Scenarios.FeatureRequirements | tests/all_dialog_features.rs:7-47 | `bob` requires `state_1` and `state_2`, in that order |
| Scenarios.ConsolePlayerStuck | dlg/src/player/mod.rs:52-89 | the console player never gets past the menu of the menu script |
| Scenarios.MenuFirstFrame | dlg-debugger/src/main.rs:445-473 | the first frame of the menu script shows the menu with selection 0 |
| Scenarios.UpWraps | dlg-debugger/src/main.rs:300-314 | Up on the first option selects the last |
| Scenarios.EnterFollowsOption | dlg-debugger/src/main.rs:282-298 | Enter follows the selected option to `section_2`, and the tick is skipped |
| Scenarios.AnimationStarts | dlg-debugger/src/main.rs:424-435 | the next frame sets the target to 17 graphemes, and a tick reveals one |
| Scenarios.EnterSkipsAnimation | dlg-debugger/src/main.rs:319-323 | Enter while animating reveals the whole segment |
| Scenarios.EnterLeavesLine | dlg-debugger/src/main.rs:267-272 | Enter on the last segment moves to the next line |
| Scenarios.SessionEnds | dlg-debugger/src/main.rs:409-412 | past the section's last line the loop ends |
| Scenarios.MenuSession | dlg-debugger/src/main.rs:239-338 | the seven-event session through the menu script ends normally |

## Left out

- Terminal set-up, widget layout and rendering, event polling and the `Instant` clock are left out. A loop turn takes the key that arrived and whether the timer elapsed as parameters (`Debugger.Frame`).
- The grapheme segmentation of `unicode_segmentation` is left out. The debugger takes a counting function as a parameter.
- `run_select_file_menu` is left out: file discovery, reading and its rendering are I/O. Its selection wrap (main.rs:163-171) is the same arithmetic as the menu's, and `Debugger.WrapSelection` models both.
- Esc and Ctrl-C are modelled as keys of their own: `Escape` and `Interrupt`.
- Key modifiers are not modelled, apart from Ctrl-C.
- The console player's printing and its wait for Enter on stdin are left out.
- The `Player` trait's signatures are left out.
- `end()` is left out, because it only prints.
- Player.Run: the `while let` loop of `play` runs for at most `fuel` iterations. The loop never ends on a menu, and `Player.RunStuckAtMenu` states that for every fuel. Outside menus, `Player.RunPhrases` gives the exact number of iterations needed.
- Tokens.Lex: the logos DFA is not modelled. At each position the lexer takes the longest match of the pattern that can match there, and when nothing matches, one character becomes text.
  - Mention, link and command all start with whitespace (tokens.rs:7, 11, 14). They differ only at the second character (`@`, `#`, `:`), so at most one of them matches at a position.
  - Logos's error slice after a failed partial match can cover everything its automaton consumed. An unclosed `{` (tokens.rs:17) or a final `//` with no newline (tokens.rs:20) can swallow a later ` @bob`, ` #x` or ` :menu` into text. The model instead emits one character of text and then lexes that mention, link or command, so on such inputs the two diverge.
- Integer widths are not modelled. `usize` and `isize` are unbounded, so a selection at `isize::MAX` or a line index at `usize::MAX` does not overflow.
- Strings are sequences of characters. The byte slices `[1..]` on token text always start after an ASCII marker, so they agree with character slices. The debugger's `args[1..]` on option arguments can fail on a multi-byte first character, and that case is modelled as `ArgsNotCharBoundary`.
- `Strings.Lines` follows current Rust `lines()`: it splits on `\n` and drops one trailing `\r` per line.
- Player.DisplayAnimation: the contract states only a length bound. That the rendering is exactly the two counters is stated by `Player.ParseDisplayAnimation`.
- The scenarios start from the semantic tokens that each test's script reduces to, not from the raw text. The paragraph rule and the decoders that produce those tokens are proved separately, in `Reducer`.
- tests/texts.rs expects four lines in one phrase and two in another. The code pairs lines two at a time (`chunks(2)`), so it yields two-line paragraphs. The model follows the code (`Reducer.ParagraphsPairLines`), and that test is not encoded.
- `prelude.rs`, `tests/macro.rs`, `src/main.rs` and the console-player example are not part of this model. They are macros, a legacy prototype and a floating-point animation.
- `Animation.waited` is carried but never read or written by the code modelled.
