# A Dafny model of C&C Generals / Zero Hour engine helpers and source-maintenance scripts

This project models, in Dafny, a set of self-contained pieces of the *Command & Conquer
Generals* and *Zero Hour* game code, and proves properties about them. It covers two
groups.

**The line-rewriting scripts** in `scripts/cpp`. Each takes one source line, or a file
as a list of lines, and returns new text.
- `refactor_debug_log_newline.py` removes the escaped line break before the closing quote of a logging macro.
- `refactor_delete_instance.py` turns `obj->deleteInstance()` into `MemoryPoolObject::deleteInstance(obj)`.
- `remove_rts_internal.py` folds `RTS_INTERNAL` conditions and drops `#ifdef RTS_INTERNAL` blocks.
- `remove_trailing_whitespace.py` strips trailing whitespace and terminates the last line.
- `unify_move_files.py` toggles CMake lines when a file moves into the shared `Core` tree.

**Sequential engine logic**:
- string classes: `AsciiString` and `UnicodeString` trimming, truncation, prefix tests and `nextToken`;
- command line: the tokenizer and dispatch, map paths and the `-mod` path;
- messaging: the game-message list and the priority-ordered translator list;
- replays: the replay header layout and its in-place updates, the CRC queue, command culling and header strings;
- archives: the `.big` directory reader;
- game logic: the special-power recharge timer and the stealth decision table;
- small helpers: IP address list insertion, memory-pool sizing, byte-order conversion, STL erase helpers, sparse best-match selection, version strings, network command classification, the debug assert rule and character scrubbing, and the CRC debug ring buffer;
- files: the local file's open modes and readers, the file-system front end, and replay simulation bookkeeping;
- editor: the WorldBuilder layer list;
- `BaseType.h` helpers.

Each source file (or script) is one Dafny module:
- Values are immutable datatypes and sequences.
- Operations are pure functions, with a few methods for the source's loops.
- Reads from files, OS services and the rest of the engine are explicit parameters.
- `Common`, `Strings`, `Bytes`, `Decimal` and `EngineStrings` hold vocabulary shared by several modules.

Where the code and its documented behaviour disagree, the model follows the code. Where the
code does something evidently unintended, the model keeps both the code as written and the
corrected behaviour; see "Findings".

Two places where the code and its documented behaviour differ:
- The newline stripper's two patterns are Python raw strings. They match the literal text
  `\r\n"` and `\n"` (backslash escapes as they are written in C++ source), not
  carriage-return or line-feed characters. The model matches the literal text.
- The whitespace normaliser writes every line as `rstrip() + "\n"`. When the last input line
  lacked a terminator, it then writes one more `"\n"`. So such a file ends with an empty
  line rather than with a single terminator. The model does the same
  (`TrailingWhitespace.Process`).

## Model

| member | source | states |
|---|---|---|
| Strings.FirstContainedFrom | scripts/cpp/refactor_debug_log_newline.py:11-47 | the table entry picked is the first in table order that occurs anywhere in the line, and none is picked exactly when no entry occurs |
| DebugLogNewline.ScanPattern | scripts/cpp/refactor_debug_log_newline.py:49-58 | the `while i < lookEnd` scan finds the first occurrence starting at or after the macro end that ends before the last character, or reports none in that window |
| DebugLogNewline.ScanPatternIsBoundedFind | scripts/cpp/refactor_debug_log_newline.py:50-58 | the scan equals a plain find from the macro end, kept only when it lies inside the window |
| DebugLogNewline.ScanPatterns | scripts/cpp/refactor_debug_log_newline.py:48-58 | patterns are tried in list order; a hit is in the window of a listed pattern, and no hit means no pattern occurs in its window |
| DebugLogNewline.FindHit | scripts/cpp/refactor_debug_log_newline.py:43-60 | no macro means no substitution; a substitution uses one of the two raw patterns inside the window after the first macro found |
| DebugLogNewline.ModifyLine | scripts/cpp/refactor_debug_log_newline.py:54-57 | on a hit exactly that occurrence becomes one `"`, so the line shrinks by the pattern length minus one; otherwise the line is returned as is |
| DebugLogNewline.NoMacroUnchanged | scripts/cpp/refactor_debug_log_newline.py:11-62 | a line mentioning none of the macros is unchanged |
| DebugLogNewline.OnlyFirstMacroExamined | scripts/cpp/refactor_debug_log_newline.py:43-60 | when the first macro found has no pattern after it the line is unchanged, even if a later macro would have one (the loop breaks) |
| DebugLogNewline.PrefixKept | scripts/cpp/refactor_debug_log_newline.py:44-56 | text up to the end of the macro name is never altered |
| DebugLogNewline.LongPatternFirst | scripts/cpp/refactor_debug_log_newline.py:38-48 | the `\n"` pattern is used only when `\r\n"` has no match in its window, and each hit is the first one of its pattern |
| DebugLogNewline.MatchAtLineEndIgnored | scripts/cpp/refactor_debug_log_newline.py:51-53 | an occurrence ending exactly at the last character lies outside the scanned window |
| DeleteInstance.ScanBack | scripts/cpp/refactor_delete_instance.py:29-43 | the backward walk stops at the first character from the right that the skip test rejects, or at -1, having skipped only accepted characters |
| DeleteInstance.ScanBackStopsAt | scripts/cpp/refactor_delete_instance.py:29-43 | the walk's stopping point is exactly the rightmost rejected character, so the walk has one answer |
| DeleteInstance.FindReceiver | scripts/cpp/refactor_delete_instance.py:28-44 | objectEnd lies after a run of `>`, `-` and whitespace and is preceded by none of them; the receiver holds no whitespace or brace and is preceded by one when it does not start the line |
| DeleteInstance.ReceiverFound | scripts/cpp/refactor_delete_instance.py:28-44 | for a line `pre obj arrow deleteInstance()` the receiver found is exactly `obj` |
| DeleteInstance.NoReceiverFound | scripts/cpp/refactor_delete_instance.py:28-44 | when only arrows or blanks follow a brace or the line start, the receiver is empty |
| DeleteInstance.ModifyLine | scripts/cpp/refactor_delete_instance.py:7-26 | a line with `friend_deleteInstance()`, without `deleteInstance()`, or with `::` or `void ` right before the first call is returned unchanged |
| DeleteInstance.RewriteOnceKnown | scripts/cpp/refactor_delete_instance.py:46-55 | with a receiver the span from it to the call end becomes `MemoryPoolObject::deleteInstance(<receiver>)`; without one only the call becomes `MemoryPoolObject::deleteInstance(this)` |
| DeleteInstance.ReceiverCallRewritten | scripts/cpp/refactor_delete_instance.py:46-50 | `pre obj-> deleteInstance() post` becomes `pre MemoryPoolObject::deleteInstance(obj) post` |
| DeleteInstance.BareCallRewritten | scripts/cpp/refactor_delete_instance.py:51-55 | a bare call keeps the text before it, blanks included, and passes `this` |
| DeleteInstance.NoCallAfterReceiverRewrite | scripts/cpp/refactor_delete_instance.py:46-50 | after the receiver rewrite of a line with one call, no `deleteInstance()` is left, provided the receiver does not begin with `)` and does not end in `deleteInstance(` (on `x deleteInstance(->deleteInstance()` the rewrite itself forms a new call) |
| DeleteInstance.NoCallAfterThisRewrite | scripts/cpp/refactor_delete_instance.py:51-55 | after the `this` rewrite of a line with one call, no `deleteInstance()` is left |
| DeleteInstance.ParenReceiverRewriteIsSkipped | scripts/cpp/refactor_delete_instance.py:16-18 | a receiver starting with `)` leaves the rewritten call preceded by `::`, so the second run skips it |
| DeleteInstance.RewriteIsFinal | scripts/cpp/refactor_delete_instance.py:7-57 | on a line with one call and no `friend_deleteInstance`, whose receiver (if any) does not end in `deleteInstance(`, running the rewrite a second time changes nothing (on `x deleteInstance(->deleteInstance()` the first run forms a new call) |
| RemoveRtsInternal.ModifyLine | scripts/cpp/remove_rts_internal.py:10-39 | only the first occurrence of the first occurring phrase is replaced by its paired replacement; with no phrase the line is returned as is |
| RemoveRtsInternal.PhrasesMentionFlag | scripts/cpp/remove_rts_internal.py:11-19 | every search phrase mentions `RTS_INTERNAL` |
| RemoveRtsInternal.NoFlagUnchanged | scripts/cpp/remove_rts_internal.py:11-39 | a line without `RTS_INTERNAL`, an already folded line among them, is a fixed point |
| RemoveRtsInternal.Run | scripts/cpp/remove_rts_internal.py:67-83 | the loop only appends to the output, at most one line per line read, and never changes what it already wrote |
| RemoveRtsInternal.Process | scripts/cpp/remove_rts_internal.py:67-83 | a file never yields more lines than it has |
| RemoveRtsInternal.RunAppend | scripts/cpp/remove_rts_internal.py:67-83 | the depth-threaded loop over two pieces of a file is the loop over the second from where the first left off |
| RemoveRtsInternal.RunMatchesSelection | scripts/cpp/remove_rts_internal.py:67-83 | after any prefix of the file the loop's depth and output equal an independent per-line selection: the lines seen at depth 0 that are not openers, each folded once, in order |
| RemoveRtsInternal.ProcessIsSelection | scripts/cpp/remove_rts_internal.py:67-83 | the lines written for a file are exactly the depth-0, non-opener lines, folded, in input order |
| RemoveRtsInternal.NestedBlockDropped | scripts/cpp/remove_rts_internal.py:69-80 | for an opener, a nested `#if`, content and two `#endif` lines followed by another line, only that last line is written, and its `#endif`s are dropped with the block |
| TrailingWhitespace.RStrip | scripts/cpp/remove_trailing_whitespace.py:37 | `rstrip()` keeps the longest prefix that does not end in whitespace, and everything it drops is whitespace |
| TrailingWhitespace.WriteLine | scripts/cpp/remove_trailing_whitespace.py:37 | every written line ends in one `\n`, and before it the original text less its trailing whitespace |
| TrailingWhitespace.Process | scripts/cpp/remove_trailing_whitespace.py:36-43 | each line is rewritten in place; when the last line lacked a terminator one extra `"\n"` line is written |
| TrailingWhitespace.WriteAll | scripts/cpp/remove_trailing_whitespace.py:36-38 | one written line per input line, in order |
| TrailingWhitespace.BlankLineBecomesNewline | scripts/cpp/remove_trailing_whitespace.py:37 | a whitespace-only line becomes `"\n"` |
| TrailingWhitespace.WriteLineKeepsText | scripts/cpp/remove_trailing_whitespace.py:37 | characters up to the last non-whitespace one are kept in place |
| TrailingWhitespace.EmptyFileStaysEmpty | scripts/cpp/remove_trailing_whitespace.py:40-43 | an empty file writes nothing |
| TrailingWhitespace.WriteLineFixed | scripts/cpp/remove_trailing_whitespace.py:37 | rewriting a rewritten line changes nothing |
| TrailingWhitespace.ProcessIdempotent | scripts/cpp/remove_trailing_whitespace.py:36-43 | processing the processed lines gives the same lines |
| TrailingWhitespace.ReadJoinRoundTrip | scripts/cpp/remove_trailing_whitespace.py:31 | `readlines` on the text of terminated lines gives those lines back |
| TrailingWhitespace.ReadLines | scripts/cpp/remove_trailing_whitespace.py:31 | `readlines` loses nothing: its lines put together are the text; no line is empty and every line but the last ends with its only line break |
| TrailingWhitespace.RewrittenFileIsStable | scripts/cpp/remove_trailing_whitespace.py:31-43 | the written file read back is the written lines, and a second run writes the same text |
| UnifyMoveFiles.GamePath | scripts/cpp/unify_move_files.py:29-36 | each game maps to a non-empty directory |
| UnifyMoveFiles.GamePathInjective | scripts/cpp/unify_move_files.py:29-36 | different games map to different directories |
| UnifyMoveFiles.OppositeGame | scripts/cpp/unify_move_files.py:39-44 | Generals and Zero Hour map to each other; Core fails the assertion |
| UnifyMoveFiles.OppositeIsInvolution | scripts/cpp/unify_move_files.py:39-44 | the opposite of the opposite is the game itself |
| UnifyMoveFiles.RemoveFirstHash | scripts/cpp/unify_move_files.py:69 | `replace("#", "", 1)` deletes exactly the first `#`, wherever it is, and is the identity without one |
| UnifyMoveFiles.ModifyLine | scripts/cpp/unify_move_files.py:65-69 | only lines containing the search text change: ADD prefixes `#`, REMOVE deletes the first `#` |
| UnifyMoveFiles.ModifyCmakeLines | scripts/cpp/unify_move_files.py:64-71 | the line count is kept and each line is modified on its own |
| UnifyMoveFiles.OtherLinesUnchanged | scripts/cpp/unify_move_files.py:64-71 | a line without the search text is unchanged |
| UnifyMoveFiles.RemoveUndoesAddLine | scripts/cpp/unify_move_files.py:66-69 | REMOVE after ADD restores the line |
| UnifyMoveFiles.RemoveUndoesAdd | scripts/cpp/unify_move_files.py:64-71 | REMOVE after ADD restores the whole file |
| UnifyMoveFiles.AddTwiceDiffers | scripts/cpp/unify_move_files.py:66-67 | ADD is not idempotent: twice gives `##` |
| UnifyMoveFiles.RemoveWithoutHashIsIdentity | scripts/cpp/unify_move_files.py:69 | REMOVE on a line without `#` is the identity |
| UnifyMoveFiles.SplitAtFirstFolder | scripts/cpp/unify_move_files.py:82-90 | the split exists iff the first `/` is at an index above 0; folder, `/` and the CMake-relative rest rebuild the path |
| UnifyMoveFiles.UnifyFile | scripts/cpp/unify_move_files.py:74-101 | the run passes its assertions iff the target is Core, the source is not, and both paths have a first folder; it then comments out both games' entries, uncomments Core's, deletes the opposite copy and moves the file |
| UnifyMoveFiles.UnifyMoveFile | scripts/cpp/unify_move_files.py:104-126 | the run passes its assertions iff the target is Core and both paths have a first folder; it then comments out the source entry, uncomments Core's and moves the file |
| UnifyMoveFiles.PlansUseCmakeRelativePaths | scripts/cpp/unify_move_files.py:115-124 | the CMake edits use the folder and the path relative to it, which together rebuild the file paths |
| TrailingWhitespace.ProcessedIsTerminated | scripts/cpp/remove_trailing_whitespace.py:36-43 | the written file is empty or its last line ends with a line break |
| TrailingWhitespace.ProcessedLineFixed | scripts/cpp/remove_trailing_whitespace.py:36-43 | every written line, the added final break included, is kept by the per-line rewrite |
| DeleteInstance.OutputIsFixed | scripts/cpp/refactor_delete_instance.py:7-26 | a line with no call, or whose first call is in a context the script skips, is left alone |
| EngineStrings.TrimEnd | Generals/Code/GameEngine/Source/Common/System/AsciiString.cpp:298-341 | trimming the end keeps the longest prefix whose last element fails the test, and everything dropped passes it |
| EngineStrings.LeadingRun | Generals/Code/GameEngine/Source/Common/System/AsciiString.cpp:277-295 | the leading run skipped by `trim` is maximal and passes the test throughout |
| EngineStrings.Trim | Generals/Code/GameEngine/Source/Common/System/AsciiString.cpp:277-295 | `trim` gives the slice after the leading whitespace run, with trailing whitespace removed |
| EngineStrings.TruncateBy | Generals/Code/GameEngine/Source/Common/System/AsciiString.cpp:370-388 | no change for a count of 0 or less; otherwise a prefix shorter by the count, and empty when the count is at least the length |
| EngineStrings.TruncateTo | Generals/Code/GameEngine/Source/Common/System/AsciiString.cpp:391-404 | unchanged when the length is at most the limit (a negative limit compares unsigned and never truncates); otherwise the prefix of that length |
| EngineStrings.Concat | Generals/Code/GameEngine/Source/Common/System/AsciiString.cpp:258-275 | the old contents followed by the appended ones |
| EngineStrings.TruncateUndoesConcat | Generals/Code/GameEngine/Source/Common/System/AsciiString.cpp:258-388 | truncating by the appended length undoes `concat` |
| EngineStrings.TruncateToUndoesConcat | Generals/Code/GameEngine/Source/Common/System/AsciiString.cpp:258-404 | truncating to the old length undoes `concat` |
| EngineStrings.RemoveLastChar | Generals/Code/GameEngine/Source/Common/System/AsciiString.cpp:364-367 | the string less its last character, which it had; an empty string stays empty |
| EngineStrings.StartsWith | Generals/Code/GameEngine/Source/Common/System/AsciiString.cpp:452-463 | true exactly when the pattern is a prefix; an empty pattern always is, a longer one never |
| EngineStrings.EndsWith | Generals/Code/GameEngine/Source/Common/System/AsciiString.cpp:480-491 | true exactly when the pattern is a suffix |
| EngineStrings.Span | Core/GameEngine/Source/Common/System/UnicodeString.cpp:395-400 | `strspn`/`strcspn`: the maximal run from a position whose members all are (or all are not) separators |
| EngineStrings.SplitToken | Generals/Code/GameEngine/Source/Common/System/AsciiString.cpp:519-541 | either the string splits into leading separators, a maximal non-empty token and a rest starting at a separator, or it is all separators and both results are empty |
| EngineStrings.SplitTokenUnique | Generals/Code/GameEngine/Source/Common/System/AsciiString.cpp:519-541 | any such split is the one `nextToken` returns, so the token and rest are determined by the string |
| AsciiStrings.TrimEndSpace | Generals/Code/GameEngine/Source/Common/System/AsciiString.cpp:298-318 | `trimEnd()` removes exactly the trailing C-whitespace run |
| AsciiStrings.TrimEndChar | Generals/Code/GameEngine/Source/Common/System/AsciiString.cpp:321-341 | `trimEnd(c)` removes exactly the trailing run of `c` |
| AsciiStrings.TrimSpace | Generals/Code/GameEngine/Source/Common/System/AsciiString.cpp:277-295 | what `trim()` leaves neither starts nor ends with whitespace and is no longer than the input |
| AsciiStrings.TrimEndSpaceIdempotent | Generals/Code/GameEngine/Source/Common/System/AsciiString.cpp:298-318 | trimming the end twice is trimming once |
| AsciiStrings.TrimOfBlankIsEmpty | Generals/Code/GameEngine/Source/Common/System/AsciiString.cpp:277-295 | a blank string trims to empty |
| AsciiStrings.StartsWithNoCase | Generals/Code/GameEngine/Source/Common/System/AsciiString.cpp:466-477 | true exactly when the pattern fits and equals the prefix up to case |
| AsciiStrings.EndsWithNoCase | Generals/Code/GameEngine/Source/Common/System/AsciiString.cpp:494-505 | true exactly when the pattern fits and equals the suffix up to case |
| AsciiStrings.NoCaseIsLowered | Generals/Code/GameEngine/Source/Common/System/AsciiString.cpp:452-505 | the case-blind tests are the plain tests on lower-cased strings, and a plain match is also a case-blind one |
| AsciiStrings.NextToken | Generals/Code/GameEngine/Source/Common/System/AsciiString.cpp:514-542 | false with nothing changed for an empty string or when the token is the string itself; otherwise the token split with the given separators or `" \n\r\t"` |
| AsciiStrings.NextTokenExample | Generals/Code/GameEngine/Source/Common/System/AsciiString.cpp:514-542 | `"  ab cd"` yields `"ab"` and leaves `" cd"` |
| AsciiStrings.EmptySepsWholeToken | Generals/Code/GameEngine/Source/Common/System/AsciiString.cpp:514-542 | with an empty separator set the whole string is the token |
| UnicodeStrings.Widen | Core/GameEngine/Source/Common/System/UnicodeString.cpp:195-204 | a signed `char` widened to `wchar_t`: bytes below 0x80 keep their value, higher bytes are sign-extended to 0xFF00 + b |
| UnicodeStrings.Translate | Core/GameEngine/Source/Common/System/UnicodeString.cpp:195-204 | same length, and the i-th wide character is the widened i-th byte |
| UnicodeStrings.Narrow | Core/GameEngine/Source/Common/System/UnicodeString.cpp:195-204 | a wide character below 256 narrows to itself |
| UnicodeStrings.NarrowTranslate | Core/GameEngine/Source/Common/System/UnicodeString.cpp:195-204 | the low byte of each wide character gives the source byte back, so nothing is lost |
| UnicodeStrings.TranslateSevenBit | Core/GameEngine/Source/Common/System/UnicodeString.cpp:195-204 | seven-bit text translates to the same code units |
| UnicodeStrings.TrimEndSpace | Core/GameEngine/Source/Common/System/UnicodeString.cpp:250-270 | removes exactly the trailing wide-whitespace run |
| UnicodeStrings.TrimEndChar | Core/GameEngine/Source/Common/System/UnicodeString.cpp:273-293 | removes exactly the trailing run of the character |
| UnicodeStrings.TruncateByWide | Core/GameEngine/Source/Common/System/UnicodeString.cpp:302-320 | removes min(n, length) trailing characters for n above 0, nothing otherwise |
| UnicodeStrings.TruncateToWide | Core/GameEngine/Source/Common/System/UnicodeString.cpp:323-336 | keeps the first m characters only when the string is longer |
| UnicodeStrings.NextToken | Core/GameEngine/Source/Common/System/UnicodeString.cpp:384-417 | false with nothing changed for an empty or aliased string; otherwise leading delimiters, token, remainder, with `L" \t\n\r"` when no delimiters are given, and both cleared when no token exists |
| UnicodeStrings.EmptyDelimitersSplitOnBlanks | Core/GameEngine/Source/Common/System/UnicodeString.cpp:384-394 | an empty delimiter string falls back to the blanks, so `a b` yields `a` |
| CommandLine.LeadSkip | Generals/Code/GameEngine/Source/Common/CommandLine.cpp:1341-1348 | when the text starts with a separator, the whole run of that character is skipped and nothing more; otherwise nothing is skipped |
| CommandLine.NextParam | Generals/Code/GameEngine/Source/Common/CommandLine.cpp:1327-1380 | no saved text gives NULL; a token returned is never empty, and the saved text left behind is strictly shorter, so the tokenizing loop ends |
| CommandLine.NextParamToken | Generals/Code/GameEngine/Source/Common/CommandLine.cpp:1341-1375 | the token runs from after the leading run to the first stop (that same character after a leading separator, else any separator), and the saved text moves past the stop, becoming NULL when nothing is left |
| CommandLine.QuotedArgument | Generals/Code/GameEngine/Source/Common/CommandLine.cpp:1341-1367 | `"word" rest` yields `word` and leaves `rest`, so a quoted argument may hold spaces |
| CommandLine.PlainArgument | Generals/Code/GameEngine/Source/Common/CommandLine.cpp:1350-1367 | `word rest` yields `word` and leaves `rest` |
| CommandLine.CollectParams | Generals/Code/GameEngine/Source/Common/CommandLine.cpp:1387-1393 | every token the collecting loop gathers is non-empty; it gathers a first token exactly when `nextParam` returns one for the whole line, and it is that token |
| CommandLine.FirstMatch | Generals/Code/GameEngine/Source/Common/CommandLine.cpp:1416-1430 | the entry used is the first whose name has the argument's length and equals it up to case |
| CommandLine.Dispatch | Generals/Code/GameEngine/Source/Common/CommandLine.cpp:1412-1437 | every call is for an argument at or after the start, to its first matching entry, and calls go in strictly increasing argument order |
| CommandLine.ParseCommandLine | Generals/Code/GameEngine/Source/Common/CommandLine.cpp:1396-1437 | matching starts at index 1, so the program name is never dispatched, and only table entries are called |
| CommandLine.UnmatchedArgumentSkipped | Generals/Code/GameEngine/Source/Common/CommandLine.cpp:1432-1435 | an argument that matches nothing advances by one |
| CommandLine.FirstMatchingArgumentDispatched | Generals/Code/GameEngine/Source/Common/CommandLine.cpp:1412-1437 | the first call goes to the first argument that matches an entry, with that entry |
| CommandLine.PathTokens | Generals/Code/GameEngine/Source/Common/CommandLine.cpp:90-96 | the path components that repeated `nextToken(..., "\\/")` returns are all non-empty |
| CommandLine.FirstMapToken | Generals/Code/GameEngine/Source/Common/CommandLine.cpp:91 | the loop stops at the first component with a `.map` suffix |
| CommandLine.LoopBodyAsWritten | Generals/Code/GameEngine/Source/Common/CommandLine.cpp:91-96 | on an exhausted path the body appends the token and a backslash and leaves the token as it was |
| CommandLine.AsWrittenNeverStops | Generals/Code/GameEngine/Source/Common/CommandLine.cpp:91-96 | once the path is exhausted with a non-`.map` token, no amount of fuel ends the loop |
| CommandLine.MapPathWithoutExtensionHangs | Generals/Code/GameEngine/Source/Common/CommandLine.cpp:79-96 | `Maps/Foo` gives `Maps`, then `Foo`, and then the loop never ends |
| CommandLine.RunLoopCollects | Generals/Code/GameEngine/Source/Common/CommandLine.cpp:90-96 | the corrected loop equals an independent walk over the list of components |
| CommandLine.CollectClosedForm | Generals/Code/GameEngine/Source/Common/CommandLine.cpp:90-96 | the walk yields the first `.map` component and the earlier components each followed by a backslash |
| CommandLine.RunLoopClosedForm | Generals/Code/GameEngine/Source/Common/CommandLine.cpp:90-96 | the corrected loop's result in closed form |
| CommandLine.RunAsWritten | Generals/Code/GameEngine/Source/Common/CommandLine.cpp:89-96 | when the loop as written stops, its token ends in `.map` or is empty, and the path built has only grown |
| CommandLine.RunLoop | Generals/Code/GameEngine/Source/Common/CommandLine.cpp:89-96 | the corrected loop ends on a `.map` component or an empty token, and the path built has only grown |
| CommandLine.ConvertMapPath | Generals/Code/GameEngine/Source/Common/CommandLine.cpp:85-89 | a name without `\` or `/` is kept |
| CommandLine.ConvertMapPathClosedForm | Generals/Code/GameEngine/Source/Common/CommandLine.cpp:79-114 | `A/B/name.map` becomes `A\B\name\name.map`: the earlier components, then the base name, a backslash, the base name and `.map` |
| CommandLine.MapSuffixLength | Generals/Code/GameEngine/Source/Common/CommandLine.cpp:103-106 | four `removeLastChar` calls on a `.map` name strip exactly the suffix |
| CommandLine.ModPath | Generals/Code/GameEngine/Source/Common/CommandLine.cpp:1064-1072 | a path with `:` or a leading slash or backslash is used as given; any other is put under the user-data directory |
| CommandLine.WithDirSep | Generals/Code/GameEngine/Source/Common/CommandLine.cpp:1089-1090 | a directory path gets a trailing `\` unless it ends in `\` or `/` |
| CommandLine.WithDirSepIdempotent | Generals/Code/GameEngine/Source/Common/CommandLine.cpp:1089-1090 | adding the separator twice is adding it once |
| CommandLine.ParseMod | Generals/Code/GameEngine/Source/Common/CommandLine.cpp:1060-1100 | with no argument one is consumed and nothing set; otherwise two are consumed, nothing is set when the path is missing or cannot be examined, a file becomes the mod archive and a directory the mod directory, with a backslash appended unless it already ends in a separator |
| CommandLine.RelativeModUnderUserData | Generals/Code/GameEngine/Source/Common/CommandLine.cpp:1064-1072 | a relative mod path is looked up under the user-data directory |
| MessageStream.NewMessage | GeneralsMD/Code/GameEngine/Source/Common/MessageStream.cpp:55-62 | a new message has its type, no arguments and no owning list |
| MessageStream.AppendArgument | GeneralsMD/Code/GameEngine/Source/Common/MessageStream.cpp:124-144 | `allocArg` adds the argument at the tail and the count grows by one; earlier arguments, the type and the owner are kept |
| MessageStream.ArgumentDataType | GeneralsMD/Code/GameEngine/Source/Common/MessageStream.cpp:105-119 | UNKNOWN for an index at or past the count; otherwise that argument's type, and the first argument's for a negative index |
| MessageStream.ArgumentRoundTrip | GeneralsMD/Code/GameEngine/Source/Common/MessageStream.cpp:105-144 | after appending an argument its index reports its type and earlier indices report what they did before |
| MessageStream.AppendMessage | GeneralsMD/Code/GameEngine/Source/Common/MessageStream.cpp:730-750 | the message becomes last, the others keep their order, the message records the list, and a list owning all its messages still does |
| MessageStream.InsertMessage | GeneralsMD/Code/GameEngine/Source/Common/MessageStream.cpp:755-774 | the message goes right after the given one with all other order kept, and it is last exactly when the given one was |
| MessageStream.RemoveMessage | GeneralsMD/Code/GameEngine/Source/Common/MessageStream.cpp:779-792 | the message leaves the list, the rest keep their order, and its owner is cleared |
| MessageStream.RemoveUndoesAppend | GeneralsMD/Code/GameEngine/Source/Common/MessageStream.cpp:730-792 | removing an appended message gives the list back |
| MessageStream.RemoveUndoesInsert | GeneralsMD/Code/GameEngine/Source/Common/MessageStream.cpp:755-792 | removing an inserted message gives the list back |
| MessageStream.ContainsMessageOfType | GeneralsMD/Code/GameEngine/Source/Common/MessageStream.cpp:797-807 | true exactly when some listed message has the type |
| MessageStream.EmptyStreamValid | GeneralsMD/Code/GameEngine/Source/Common/MessageStream.cpp:817-830 | a new stream has no translators and hands out ids from 1 |
| MessageStream.InsertPos | GeneralsMD/Code/GameEngine/Source/Common/MessageStream.cpp:925-927 | the insertion point is the first translator with a strictly greater priority |
| MessageStream.AttachTranslator | GeneralsMD/Code/GameEngine/Source/Common/MessageStream.cpp:904-959 | the new translator gets the next id and is placed right before the first strictly greater priority, or last |
| MessageStream.AttachKeepsSorted | GeneralsMD/Code/GameEngine/Source/Common/MessageStream.cpp:904-959 | the translator list stays sorted by non-decreasing priority |
| MessageStream.AttachKeepsIdsFresh | GeneralsMD/Code/GameEngine/Source/Common/MessageStream.cpp:912 | ids stay distinct and below the next id |
| MessageStream.AttachKeepsValid | GeneralsMD/Code/GameEngine/Source/Common/MessageStream.cpp:904-959 | attaching keeps both invariants |
| MessageStream.AttachAfterEqualPriority | GeneralsMD/Code/GameEngine/Source/Common/MessageStream.cpp:925-927 | a translator goes after every earlier one of equal priority, so equal priorities keep attach order |
| MessageStream.FindTranslator | GeneralsMD/Code/GameEngine/Source/Common/MessageStream.cpp:964-978 | NULL exactly when no entry has the id; otherwise the translator of an entry with it |
| MessageStream.RemoveTranslator | GeneralsMD/Code/GameEngine/Source/Common/MessageStream.cpp:983-1006 | the list loses at most one entry |
| MessageStream.RemoveAbsent | GeneralsMD/Code/GameEngine/Source/Common/MessageStream.cpp:983-1006 | no change when the id is absent |
| MessageStream.RemoveTranslatorSplits | GeneralsMD/Code/GameEngine/Source/Common/MessageStream.cpp:987-1004 | exactly the first entry with the id is unlinked, the rest kept in order |
| MessageStream.RemoveKeepsValid | GeneralsMD/Code/GameEngine/Source/Common/MessageStream.cpp:983-1006 | removing keeps the list sorted and the ids fresh |
| MessageStream.FindAfterRemove | GeneralsMD/Code/GameEngine/Source/Common/MessageStream.cpp:964-1006 | a removed id is no longer found |
| MessageStream.FindAfterAttach | GeneralsMD/Code/GameEngine/Source/Common/MessageStream.cpp:904-978 | the id an attach returns finds the attached translator |
| MessageStream.FindFirst | GeneralsMD/Code/GameEngine/Source/Common/MessageStream.cpp:968-972 | the search returns the translator of the first entry with the id |
| MessageStream.RemoveUndoesAttach | GeneralsMD/Code/GameEngine/Source/Common/MessageStream.cpp:904-1006 | removing the id an attach returned gives the translator list back |
| MessageStream.BuildRegion | GeneralsMD/Code/GameEngine/Source/Common/MessageStream.cpp:1227-1251 | lo is the componentwise minimum and hi the maximum of anchor and destination, so lo ≤ hi |
| MessageStream.BuildRegionSymmetric | GeneralsMD/Code/GameEngine/Source/Common/MessageStream.cpp:1227-1251 | swapping anchor and destination gives the same region |
| Recorder.BoolBytes | GeneralsMD/Code/GameEngine/Source/Common/Recorder.cpp:578-583 | one byte per flag, 1 for TRUE and 0 for FALSE |
| Recorder.EncodeFixedHeader | GeneralsMD/Code/GameEngine/Source/Common/Recorder.cpp:563-583 | `GENREP` without its NUL, the two 32-bit times, the frame count, the desync and quit flags, then one flag per slot, each at its offset |
| Recorder.OffsetValues | GeneralsMD/Code/GameEngine/Source/Common/Recorder.cpp:65-70 | the offsets are the cumulative field sizes: 6, 10, 14, 18, 19 and 20, and the fixed part ends at 28 |
| Recorder.DecodeFixedHeader | GeneralsMD/Code/GameEngine/Source/Common/Recorder.cpp:858-882 | the header is refused exactly when the zero-filled first six bytes are not `GENREP`; a file with `GENREP` that ends before byte 28 leaves fields the file does not determine; otherwise every field is read and fits its width |
| Recorder.ShortFileNoGenrep | GeneralsMD/Code/GameEngine/Source/Common/Recorder.cpp:859-861 | a file shorter than six bytes never passes the `GENREP` test, because the zero fill matches no byte of it |
| Recorder.FixedHeaderRoundTrip | GeneralsMD/Code/GameEngine/Source/Common/Recorder.cpp:563-583 | decoding what the recorder wrote gives the header back, whatever follows it |
| Recorder.DisconnectWriteOffset | GeneralsMD/Code/GameEngine/Source/Common/Recorder.cpp:129-146 | a write happens only with an open file and a slot in [0, MAX_SLOTS), at disconOffset + slot, inside the fixed part |
| Recorder.DisconnectMarksSlot | GeneralsMD/Code/GameEngine/Source/Common/Recorder.cpp:129-146 | the byte written changes exactly that slot's disconnect flag of the header read back |
| Recorder.NewCrcInfo | GeneralsMD/Code/GameEngine/Source/Common/Recorder.cpp:1009-1014 | a new queue is empty, has seen no mismatch, and still has one value to skip only in multiplayer |
| Recorder.AddCrc | GeneralsMD/Code/GameEngine/Source/Common/Recorder.cpp:1016-1031 | the first value is dropped when one is still to be skipped; afterwards values join the back of the queue |
| Recorder.ReadCrc | GeneralsMD/Code/GameEngine/Source/Common/Recorder.cpp:1033-1045 | 0 from an empty queue, which is left alone; otherwise the oldest value, taken off the front |
| Recorder.AddAllQueues | GeneralsMD/Code/GameEngine/Source/Common/Recorder.cpp:1016-1031 | once the skip is used, added values are queued in order |
| Recorder.ReadN | GeneralsMD/Code/GameEngine/Source/Common/Recorder.cpp:1033-1045 | reads hand back the queued values oldest first, and 0 for every read past the end of the queue |
| Recorder.CrcQueueOrder | GeneralsMD/Code/GameEngine/Source/Common/Recorder.cpp:1009-1031 | a new queue holds all added values in single player and all but the first in multiplayer |
| Recorder.WriteAsciiString | Generals/Code/GameEngine/Source/Common/Recorder.cpp:654-656 | a string is written as its characters followed by a NUL |
| Recorder.UntilNul | GeneralsMD/Code/GameEngine/Source/Common/Recorder.cpp:1332 | the C string in a buffer: the bytes before the first NUL |
| Recorder.LoopAsWritten | GeneralsMD/Code/GameEngine/Source/Common/Recorder.cpp:1321-1329 | the loop only extends the buffer, and can reach 1025 stored bytes, one past the array |
| Recorder.FirstStoredAsWritten | GeneralsMD/Code/GameEngine/Source/Common/Recorder.cpp:1316-1320 | at EOF the first read stores `(char)EOF`, 0xFF, over the NUL it just wrote; otherwise the byte read |
| Recorder.StoredAsWritten | GeneralsMD/Code/GameEngine/Source/Common/Recorder.cpp:1312-1330 | the reader as written stores between 1 and 1025 bytes |
| Recorder.ReadAsciiStringAsWritten | GeneralsMD/Code/GameEngine/Source/Common/Recorder.cpp:1312-1335 | the string the reader as written returns has at most 1023 characters |
| Recorder.AsWrittenStoresPastBuffer | GeneralsMD/Code/GameEngine/Source/Common/Recorder.cpp:1322-1330 | with 1024 non-terminating bytes ahead the loop stores a 1025th byte, `str[1024]` |
| Recorder.AsWrittenEofGivesFF | GeneralsMD/Code/GameEngine/Source/Common/Recorder.cpp:1316-1320 | at end of file the reader as written returns the one-character string `"\xFF"`, not an empty one |
| Recorder.ScanString | GeneralsMD/Code/GameEngine/Source/Common/Recorder.cpp:1322-1330 | the corrected scan reads up to the first NUL or EOF, at most 1023 bytes |
| Recorder.ReadAsciiString | GeneralsMD/Code/GameEngine/Source/Common/Recorder.cpp:1312-1335 | the bytes up to the first NUL or EOF, cut to 1023 characters, taken from the front of the input |
| Recorder.ReadWriteRoundTrip | Generals/Code/GameEngine/Source/Common/Recorder.cpp:654-657 | a written string of at most 1023 characters is read back unchanged, whatever follows it |
| Recorder.AsWrittenAgreesOnShortStrings | GeneralsMD/Code/GameEngine/Source/Common/Recorder.cpp:1312-1335 | on such a string the reader as written returns the same as the corrected one |
| Recorder.Digits | Generals/Code/GameEngine/Source/Common/Recorder.cpp:656 | `%d` writes at least one decimal digit |
| Recorder.DigitsValueOfDigits | Generals/Code/GameEngine/Source/Common/Recorder.cpp:656 | the digits written have the number's value |
| Recorder.DecimalText | Generals/Code/GameEngine/Source/Common/Recorder.cpp:656 | the `%d` text of an integer is never empty |
| Recorder.Atoi | GeneralsMD/Code/GameEngine/Source/Common/Recorder.cpp:911-912 | `atoi` gives 0 for text that does not start with space, a sign or a digit |
| Recorder.AtoiDecimalText | Generals/Code/GameEngine/Source/Common/Recorder.cpp:656 | `atoi` of the `%d` text gives the number back |
| Recorder.CheckReplayHeader | GeneralsMD/Code/GameEngine/Source/Common/Recorder.cpp:845-921 | the header is accepted exactly when the file opens, starts with `GENREP`, the game info parses and the local index is in [-1, MAX_SLOTS); the failure reason names the first check that fails |
| Recorder.LocalIndexRoundTrip | Generals/Code/GameEngine/Source/Common/Recorder.cpp:654-657 | the local index the recorder writes is the one the header check accepts and returns |
| Recorder.MatchesGameVersion | GeneralsMD/Code/GameEngine/Source/Common/Recorder.cpp:1134-1148 | true exactly when the version string, build time, version number, exe CRC and ini CRC all match |
| Recorder.MatchesIsEquality | GeneralsMD/Code/GameEngine/Source/Common/Recorder.cpp:1134-1148 | matching is equality of the five recorded fields |
| Recorder.Filter | GeneralsMD/Code/GameEngine/Source/Common/Recorder.cpp:1574-1589 | the network messages other than MSG_LOGIC_CRC are deleted, everything else is kept |
| Recorder.CullBadCommands | GeneralsMD/Code/GameEngine/Source/Common/Recorder.cpp:1565-1591 | nothing happens in analysis mode; otherwise the list is filtered and the result reports whether a kept MSG_CLEAR_GAME_DATA is present |
| Recorder.FilterIdempotent | Generals/Code/GameEngine/Source/Common/Recorder.cpp:1537-1563 | culling twice is culling once |
| Recorder.FilterAppend | Generals/Code/GameEngine/Source/Common/Recorder.cpp:1537-1563 | culling decides each message on its own, so it distributes over concatenation |
| SpecialPower.NewTimer | GeneralsMD/Code/GameEngine/Source/GameLogic/Object/SpecialPower/SpecialPowerModule.cpp:99-106 | a new module is unpaused, with no pause frame, and available on the configured frame |
| SpecialPower.PauseCountdown | GeneralsMD/Code/GameEngine/Source/GameLogic/Object/SpecialPower/SpecialPowerModule.cpp:766-790 | a pause counts up and records the frame only on the first pause; an unpause when not paused changes nothing; the last unpause moves the ready frame later by the frames spent paused |
| SpecialPower.PausedCountStaysNonNegative | GeneralsMD/Code/GameEngine/Source/GameLogic/Object/SpecialPower/SpecialPowerModule.cpp:780 | the pause counter never goes negative, however many unpauses arrive |
| SpecialPower.InnerEventsOnlyCount | GeneralsMD/Code/GameEngine/Source/GameLogic/Object/SpecialPower/SpecialPowerModule.cpp:766-790 | while some pause is still held, pauses and unpauses change only the counter |
| SpecialPower.NestedPauseDelay | GeneralsMD/Code/GameEngine/Source/GameLogic/Object/SpecialPower/SpecialPowerModule.cpp:772-788 | for nested pauses the delay credited is the time from the first pause to the last unpause, not the time between them |
| SpecialPower.RunAppend | GeneralsMD/Code/GameEngine/Source/GameLogic/Object/SpecialPower/SpecialPowerModule.cpp:766-790 | running two event sequences in turn is running them joined |
| SpecialPower.IsReady | GeneralsMD/Code/GameEngine/Source/GameLogic/Object/SpecialPower/SpecialPowerModule.cpp:288-311 | a shared power is ready once its player-wide frame is reached; otherwise the module must be unpaused and at or past its available frame |
| SpecialPower.StartPowerRecharge | GeneralsMD/Code/GameEngine/Source/GameLogic/Object/SpecialPower/SpecialPowerModule.cpp:388-425 | without a player, or for a shared power, the module is unchanged; otherwise it is available the reload time from now |
| SpecialPower.SetReadyFrame | GeneralsMD/Code/GameEngine/Source/GameLogic/Object/SpecialPower/SpecialPowerModule.cpp:168-175 | the ready frame is set and the pause frame becomes now, with the counter kept |
| SpecialPower.GetReadyFrame | GeneralsMD/Code/GameEngine/Source/GameLogic/Object/SpecialPower/SpecialPowerModule.cpp:794-816 | the shared frame for a shared power; a paused or disabled module reports its available frame plus the frames paused so far; otherwise the available frame |
| SpecialPower.DoesSpecialPower | GeneralsMD/Code/GameEngine/Source/GameLogic/Object/SpecialPower/SpecialPowerModule.cpp:672-677 | the power goes ahead only when the module is unpaused and enabled |
| SpecialPower.ReadyFrameAnticipatesUnpause | GeneralsMD/Code/GameEngine/Source/GameLogic/Object/SpecialPower/SpecialPowerModule.cpp:784-788 | under a single pause the ready frame reported is the available frame the unpause would set |
| SpecialPower.ReadyFromReadyFrame | GeneralsMD/Code/GameEngine/Source/GameLogic/Object/SpecialPower/SpecialPowerModule.cpp:288-311 | an unpaused module is ready exactly when the frame has reached its ready frame |
| SpecialPower.PausedPowerInert | GeneralsMD/Code/GameEngine/Source/GameLogic/Object/SpecialPower/SpecialPowerModule.cpp:288-311 | a paused module is not ready and does not fire |
| SpecialPower.RechargeReadyAfterReload | GeneralsMD/Code/GameEngine/Source/GameLogic/Object/SpecialPower/SpecialPowerModule.cpp:388-425 | after a recharge the module is ready exactly from the reload time on |
| SpecialPower.SetReadyFrameWhilePaused | GeneralsMD/Code/GameEngine/Source/GameLogic/Object/SpecialPower/SpecialPowerModule.cpp:168-175 | a ready frame set by a script is reported as set even while disabled |
| Stealth.EffectiveRelationship | Generals/Code/GameEngine/Source/GameLogic/Object/Update/StealthUpdate.cpp:285-291 | an inactive (observing) player counts as an ally; with no team the relationship is neutral; otherwise the team's |
| Stealth.CalcStealthedStatus | Generals/Code/GameEngine/Source/GameLogic/Object/Update/StealthUpdate.cpp:280-336 | dead or unstealthed objects look normal; a disguising unit looks disguised exactly to non-allies while disguised and normal otherwise; a detected unit looks detected, with the friendly variant for allies; an undetected one is visible to allies and invisible to the rest |
| Stealth.InvisibleExactly | Generals/Code/GameEngine/Source/GameLogic/Object/Update/StealthUpdate.cpp:280-336 | an object is invisible exactly when alive, stealthed, not a disguiser, undetected, and viewed by an active player who is not an ally |
| Stealth.ObserverSeesThrough | Generals/Code/GameEngine/Source/GameLogic/Object/Update/StealthUpdate.cpp:287-291 | an observer never sees an object as invisible, detected-to-enemies or disguised |
| Stealth.DisguiseIgnoresDetection | Generals/Code/GameEngine/Source/GameLogic/Object/Update/StealthUpdate.cpp:295-301 | for a disguising unit detection makes no difference to its look |
| Stealth.MarkAsDetected | Generals/Code/GameEngine/Source/GameLogic/Object/Update/StealthUpdate.cpp:597-618 | a disguise is removed first, so the object is never disguised after a mark; zero frames means detected for the stealth delay from now; otherwise the expiry moves to the later of the old one and now plus the frames |
| Stealth.DetectedAt | Generals/Code/GameEngine/Source/GameLogic/Object/Update/StealthUpdate.cpp:505 | an object is detected while the frame is before the expiry |
| Stealth.MarkedStaysDetected | Generals/Code/GameEngine/Source/GameLogic/Object/Update/StealthUpdate.cpp:609-618 | a mark for some frames keeps the object detected through them, and never ends a detection sooner |
| Stealth.DefaultMarkDetectsForDelay | Generals/Code/GameEngine/Source/GameLogic/Object/Update/StealthUpdate.cpp:609-614 | the default mark detects from now for exactly the stealth delay |
| Stealth.MarkIdempotent | Generals/Code/GameEngine/Source/GameLogic/Object/Update/StealthUpdate.cpp:615-618 | marking twice for the same frames at the same time is marking once |
| Stealth.MarkEndsDisguise | Generals/Code/GameEngine/Source/GameLogic/Object/Update/StealthUpdate.cpp:603-606 | after a mark no player sees the object disguised, although detection alone leaves a disguiser's look unchanged |
| Stealth.CalcSleepTime | Generals/Code/GameEngine/Source/GameLogic/Object/Update/StealthUpdate.cpp:339-342 | an enabled module updates every frame and a disabled one sleeps for ever |
| IpEnumeration.WalkFrom | Generals/Code/GameEngine/Source/GameNetwork/IPEnumeration.cpp:155-159 | the walk stops at the last node from which the next one is missing or holds an address not smaller than the new one, passing only smaller addresses |
| IpEnumeration.InsertPos | Generals/Code/GameEngine/Source/GameNetwork/IPEnumeration.cpp:141-163 | the new address goes first into an empty list or before a larger head; otherwise after the run of smaller addresses that follows the head |
| IpEnumeration.AddNewIp | Generals/Code/GameEngine/Source/GameNetwork/IPEnumeration.cpp:126-164 | the list grows by exactly the new entry, linked in at the insertion point with the other entries in their order |
| IpEnumeration.AddKeepsSorted | Generals/Code/GameEngine/Source/GameNetwork/IPEnumeration.cpp:137-163 | adding to a list in ascending order keeps it ascending |
| IpEnumeration.EqualToHeadGoesAfter | Generals/Code/GameEngine/Source/GameNetwork/IPEnumeration.cpp:148-163 | an address equal to the head is linked in after it |
| IpEnumeration.AddAll | Generals/Code/GameEngine/Source/GameNetwork/IPEnumeration.cpp:112-121 | adding the host's addresses in turn keeps exactly the old entries and the new ones |
| IpEnumeration.AddAllSorted | Generals/Code/GameEngine/Source/GameNetwork/IPEnumeration.cpp:112-121 | the list built one address at a time is ascending |
| IpEnumeration.LoopbackQuad | Generals/Code/GameEngine/Source/GameNetwork/IPEnumeration.cpp:101-109 | the multi-instance address is 127 followed by bits 16-23, 8-15 and 0-7 of the instance id |
| IpEnumeration.LoopbackIsLowBytes | Generals/Code/GameEngine/Source/GameNetwork/IPEnumeration.cpp:103-108 | its last three bytes are the low three bytes of the id, most significant first |
| IpEnumeration.LoopbackDistinct | Generals/Code/GameEngine/Source/GameNetwork/IPEnumeration.cpp:101-109 | instances with different ids below 2^24 get different addresses |
| IpEnumeration.GetAddresses | Generals/Code/GameEngine/Source/GameNetwork/IPEnumeration.cpp:54-123 | a built list is returned as it is; a failed host lookup gives NULL; otherwise the list holds the loopback address of this instance when running several, 127 followed by the instance id in three big-endian bytes, and the host's addresses |
| IpEnumeration.GetAddressesSorted | Generals/Code/GameEngine/Source/GameNetwork/IPEnumeration.cpp:54-123 | the list returned is in ascending order |
| MemoryInit.RoundUpMemBound | Generals/Code/GameEngine/Source/Common/System/MemoryInit.cpp:94-102 | counts below 4 become 4, others round up to the next multiple of 4 |
| MemoryInit.RoundUpIsLeast | Generals/Code/GameEngine/Source/Common/System/MemoryInit.cpp:94-102 | the result is the least multiple of 4, at least 4, not below the count |
| MemoryInit.RoundUpIdempotent | Generals/Code/GameEngine/Source/Common/System/MemoryInit.cpp:94-102 | rounding a rounded count changes nothing |
| MemoryInit.FirstNamed | Generals/Code/GameEngine/Source/Common/System/MemoryInit.cpp:80-82 | the index is that of the first row whose name matches, or the table length when none does |
| MemoryInit.AdjustPoolSize | Generals/Code/GameEngine/Source/Common/System/MemoryInit.cpp:75-91 | counts already set are kept; otherwise the first row named exactly as the pool supplies both counts, and nothing changes when no row has the name |
| MemoryInit.ApplyLine | Generals/Code/GameEngine/Source/Common/System/MemoryInit.cpp:133-148 | a comment or an unparsable line changes nothing; otherwise the first row whose name matches ignoring case gets both counts rounded up, and no other row changes |
| MemoryInit.ApplyFileAligns | Generals/Code/GameEngine/Source/Common/System/MemoryInit.cpp:129-151 | reading the file never renames or reorders rows, and every row it changes has aligned counts |
| MemoryInit.AlignedTableStaysAligned | Generals/Code/GameEngine/Source/Common/System/MemoryInit.cpp:129-151 | a table whose counts are aligned stays aligned |
| MemoryInit.LastSetUnset | Generals/Code/GameEngine/Source/Common/System/MemoryInit.cpp:129-151 | in the reference for a row after the file, a row that no line names (first case-blind match) keeps its counts |
| MemoryInit.LastSetIsLast | Generals/Code/GameEngine/Source/Common/System/MemoryInit.cpp:129-151 | in that reference, a row takes the rounded counts of the last line whose first case-blind match is that row |
| MemoryInit.ApplyFileIsLastSet | Generals/Code/GameEngine/Source/Common/System/MemoryInit.cpp:129-151 | the loop over the file leaves every row exactly as the reference says: later lines override earlier ones, and rows no line names keep their compiled-in counts |
| EndianCompat.Bswap16 | Dependencies/Utility/Utility/endian_compat.h:84 | the two bytes trade places |
| EndianCompat.Bswap32 | Dependencies/Utility/Utility/endian_compat.h:85-88 | byte i of the result is byte 3-i of the argument |
| EndianCompat.Bswap64 | Dependencies/Utility/Utility/endian_compat.h:89-96 | byte i of the result is byte 7-i of the argument |
| EndianCompat.Bswap16Involution | Dependencies/Utility/Utility/endian_compat.h:84 | swapping twice gives the value back |
| EndianCompat.Bswap32Involution | Dependencies/Utility/Utility/endian_compat.h:85-88 | swapping twice gives the value back |
| EndianCompat.Bswap64Involution | Dependencies/Utility/Utility/endian_compat.h:89-96 | swapping twice gives the value back |
| EndianCompat.Le16toh | Dependencies/Utility/Utility/endian_compat.h:30-111 | the Windows macro passes its argument through at full width; the library functions narrow it to 16 bits first |
| EndianCompat.Le32 | Dependencies/Utility/Utility/endian_compat.h:30-111 | identity on a little-endian host, a byte swap on a big-endian one |
| EndianCompat.Be32 | Dependencies/Utility/Utility/endian_compat.h:30-111 | a byte swap on a little-endian host, identity on a big-endian one |
| EndianCompat.Le64 | Dependencies/Utility/Utility/endian_compat.h:30-111 | identity on a little-endian host, a byte swap on a big-endian one |
| EndianCompat.Be64 | Dependencies/Utility/Utility/endian_compat.h:30-111 | a byte swap on a little-endian host, identity on a big-endian one |
| EndianCompat.Le16 | Dependencies/Utility/Utility/endian_compat.h:30-111 | identity on a little-endian host, a byte swap on a big-endian one |
| EndianCompat.Be16 | Dependencies/Utility/Utility/endian_compat.h:30-111 | a byte swap on a little-endian host, identity on a big-endian one |
| EndianCompat.BigEndianRoundTrip32 | Dependencies/Utility/Utility/endian_compat.h:30-111 | converting a 32-bit value twice gives it back |
| EndianCompat.BigEndianRoundTrip64 | Dependencies/Utility/Utility/endian_compat.h:30-111 | converting a 64-bit value twice gives it back |
| EndianCompat.Letoh | Dependencies/Utility/Utility/endian_compat.h:198-211 | the corrected `letoh` keeps the width and is the identity on a little-endian host |
| EndianCompat.Betoh | Dependencies/Utility/Utility/endian_compat.h:198-211 | `betoh` keeps the width, is the identity on a big-endian host and swaps a 4-byte value on a little-endian one |
| EndianCompat.TemplateRoundTrips | Dependencies/Utility/Utility/endian_compat.h:192-228 | for every width and platform, converting twice gives the value back |
| EndianCompat.LetohAsWritten | Dependencies/Utility/Utility/endian_compat.h:199-211 | the 2-byte case is right as written |
| EndianCompat.AsWrittenHarmlessOnWindows | Dependencies/Utility/Utility/endian_compat.h:66-82 | with the Windows macros the slip changes nothing |
| EndianCompat.AsWrittenTruncates | Dependencies/Utility/Utility/endian_compat.h:204-212 | on a little-endian library host, `letoh` of the 4- and 8-byte value 0x10000 gives 0 where the right answer is 0x10000 |
| EndianCompat.AsWrittenAgreesOnLittleEndianLibraryIff | Dependencies/Utility/Utility/endian_compat.h:206 | the 4-byte `letoh` as written is right exactly for values below 0x10000 |
| StlUtils.FirstIndex | Generals/GameEngine/Include/Common/STLUtils.h:31-39 | the index of the first element equal to the value, or the length when there is none |
| StlUtils.EraseFirst | Generals/GameEngine/Include/Common/STLUtils.h:28-41 | nothing changes without a match; otherwise one element fewer |
| StlUtils.EraseUnordered | Generals/GameEngine/Include/Common/STLUtils.h:45-59 | nothing changes without a match; otherwise the last element takes the place of the first match and the rest stay put |
| StlUtils.EraseFirstMultiset | Generals/GameEngine/Include/Common/STLUtils.h:28-41 | erasing removes exactly one copy of the value |
| StlUtils.EraseUnorderedMultiset | Generals/GameEngine/Include/Common/STLUtils.h:45-59 | the unordered erase removes exactly one copy of the value too |
| StlUtils.EraseSameElement | Generals/GameEngine/Include/Common/STLUtils.h:28-59 | both erases leave the same elements |
| StlUtils.FindAndErase | Generals/GameEngine/Include/Common/STLUtils.h:28-41 | reports true exactly when the value was present, and the container is the ordered erase |
| StlUtils.FindAndEraseUnordered | Generals/GameEngine/Include/Common/STLUtils.h:45-59 | reports true exactly when the value was present, and the container is the unordered erase |
| SparseMatchFinder.ConditionsOf | GeneralsMD/Code/GameEngine/Include/Common/SparseMatchFinder.h:142-151 | an entry's conditions are visited last to first, each with its matched and extraneous counts |
| SparseMatchFinder.Candidates | GeneralsMD/Code/GameEngine/Include/Common/SparseMatchFinder.h:140-151 | every candidate visited is a condition of an entry, scored against the bits |
| SparseMatchFinder.CandidatesComplete | GeneralsMD/Code/GameEngine/Include/Common/SparseMatchFinder.h:140-143 | every condition of every entry is visited |
| SparseMatchFinder.SearchKeepsInvariant | GeneralsMD/Code/GameEngine/Include/Common/SparseMatchFinder.h:132-170 | after each candidate the best so far has the largest match count, then the fewest extraneous bits, and is the first such |
| SparseMatchFinder.FindBestInfoSlow | GeneralsMD/Code/GameEngine/Include/Common/SparseMatchFinder.h:129-191 | an answer is one of the entries |
| SparseMatchFinder.NoneIffNothingBeatsStart | GeneralsMD/Code/GameEngine/Include/Common/SparseMatchFinder.h:132-170 | there is no answer exactly when every condition matches no bits and has at least 999 extraneous ones |
| SparseMatchFinder.BestIsOptimal | GeneralsMD/Code/GameEngine/Include/Common/SparseMatchFinder.h:129-191 | the answer's condition matches most, then has the fewest extraneous bits, and no earlier candidate ties it |
| SparseMatchFinder.FindBestInfo | GeneralsMD/Code/GameEngine/Include/Common/SparseMatchFinder.h:224-245 | a cached answer is returned as it is; otherwise the slow search, whose answer is cached only when there is one |
| SparseMatchFinder.CachedAgreesWithSlow | GeneralsMD/Code/GameEngine/Include/Common/SparseMatchFinder.h:224-245 | with a sound cache the cached search answers as the slow one, and the cache stays sound |
| SparseMatchFinder.Clear | GeneralsMD/Code/GameEngine/Include/Common/SparseMatchFinder.h:218-221 | clearing empties the cache |
| SparseMatchFinder.Assign | GeneralsMD/Code/GameEngine/Include/Common/SparseMatchFinder.h:205-215 | with the no-copy flag the cache is kept; otherwise it becomes the other's |
| Version.VersionNumber | GeneralsMD/Code/GameEngine/Source/Common/version.cpp:73-76 | with both numbers below 65536 the major comes back from the high half and the minor from the low half |
| Version.HighHalf | GeneralsMD/Code/GameEngine/Source/Common/version.cpp:75 | the high half holds the low 16 bits of the major when the minor fits in 16 bits |
| Version.LowHalf | GeneralsMD/Code/GameEngine/Source/Common/version.cpp:75 | the low half is the minor when it fits in 16 bits |
| Version.LargeMinorCollides | GeneralsMD/Code/GameEngine/Source/Common/version.cpp:75 | a minor of 65536 is not kept apart from the major: version 0.65536 and 1.0 get the same number |
| Version.BuildUserOrAuthor | GeneralsMD/Code/GameEngine/Source/Common/version.cpp:282-292 | the build user when there is one, otherwise the commit author |
| Version.PaddedUser | GeneralsMD/Code/GameEngine/Source/Common/version.cpp:90-93 | a user name shorter than two characters gets `xx` appended, so two initials always exist |
| Version.AsciiVersion | GeneralsMD/Code/GameEngine/Source/Common/version.cpp:78-108 | `major.minor` in short form; `major.minor.build` in full form without a local build; with one, also `.local` and the user's two initials; ` Debug` at the end of a debug build |
| Version.ShortVersionRoundTrip | GeneralsMD/Code/GameEngine/Source/Common/version.cpp:99-102 | the short form splits at its one dot back into the major and minor numbers |
| Version.GitCommitCount | GeneralsMD/Code/GameEngine/Source/Common/version.cpp:373-380 | the revision number, after a `~` when there are uncommitted changes |
| Version.CommitCountMarksChanges | GeneralsMD/Code/GameEngine/Source/Common/version.cpp:373-380 | the text starts with `~` exactly when there are uncommitted changes |
| Version.GitTagOrHash | GeneralsMD/Code/GameEngine/Source/Common/version.cpp:391-398 | the tag, or the short hash when there is no tag, after a `~` when there are uncommitted changes |
| Version.UntaggedMarksChanges | GeneralsMD/Code/GameEngine/Source/Common/version.cpp:391-398 | without a tag, the text starts with `~` exactly when there are uncommitted changes |
| Version.GitVersion | GeneralsMD/Code/GameEngine/Source/Common/version.cpp:248-262 | the commit count and, in full form, a space and the tag or hash |
| NetworkUtil.RequiresCommandId | Generals/Code/GameEngine/Source/GameNetwork/NetworkUtil.cpp:119-142 | acknowledgements, keep-alives and unlisted values are never given a command id |
| NetworkUtil.RequiresAck | Generals/Code/GameEngine/Source/GameNetwork/NetworkUtil.cpp:119-171 | the commands that need an acknowledgement are exactly those given a command id |
| NetworkUtil.IsSynchronized | Generals/Code/GameEngine/Source/GameNetwork/NetworkUtil.cpp:119-204 | every synchronised command is given a command id and none is sent directly |
| NetworkUtil.RequiresDirectSend | Generals/Code/GameEngine/Source/GameNetwork/NetworkUtil.cpp:147-204 | every command sent directly needs an acknowledgement |
| NetworkUtil.NextCommandId | Generals/Code/GameEngine/Source/GameNetwork/NetworkUtil.cpp:110-114 | the 16-bit counter goes up by one and wraps from 65535 to 0, and the new value is returned |
| NetworkUtil.IdsCountUp | Generals/Code/GameEngine/Source/GameNetwork/NetworkUtil.cpp:110-114 | the k-th id handed out is the start plus k plus one, modulo 65536 |
| NetworkUtil.FirstIdIs64001 | Generals/Code/GameEngine/Source/GameNetwork/NetworkUtil.cpp:111-113 | the first id handed out is 64001 |
| NetworkUtil.TypeSuffix | Generals/Code/GameEngine/Source/GameNetwork/NetworkUtil.cpp:206-271 | every listed type has a non-empty name |
| NetworkUtil.TypeName | Generals/Code/GameEngine/Source/GameNetwork/NetworkUtil.cpp:206-271 | an unlisted type is `UNKNOWN` and only it; every listed one is `NETCOMMANDTYPE_` followed by its name |
| NetworkUtil.DumpRows | Generals/Code/GameEngine/Source/GameNetwork/NetworkUtil.cpp:42-46 | the number of rows is the length divided by 8, rounded up |
| NetworkUtil.RowSpan | Generals/Code/GameEngine/Source/GameNetwork/NetworkUtil.cpp:49-51 | row r covers bytes 8r up to the smaller of 8r+8 and the length, never empty |
| NetworkUtil.RowsCoverBuffer | Generals/Code/GameEngine/Source/GameNetwork/NetworkUtil.cpp:42-51 | every byte is shown in exactly one row, row i/8 |
| NetworkUtil.TextColumn | Generals/Code/GameEngine/Source/GameNetwork/NetworkUtil.cpp:63-67 | printable characters are shown as themselves and every other byte as a dot |
| DebugUtil.IgnoringAsserts | Generals/Code/GameEngine/Source/Common/System/Debug.cpp:149-161 | asserts are ignored full-screen, when headless, and with the ignore-asserts option in a debug-crashing build |
| DebugUtil.ShownOnlyWhenNoReason | Generals/Code/GameEngine/Source/Common/System/Debug.cpp:149-161 | the assert box is shown exactly when windowed, not headless, and not told to ignore asserts |
| DebugUtil.NoGlobalDataOnlyFullScreen | Generals/Code/GameEngine/Source/Common/System/Debug.cpp:149-161 | before the global data exists only full-screen mode ignores asserts |
| DebugUtil.IsFunny | Generals/Code/GameEngine/Source/Common/System/Debug.cpp:337-338 | only control codes are replaced; line feed, carriage return and the space put in their place are not |
| DebugUtil.WhackFunnyCharacters | Generals/Code/GameEngine/Source/Common/System/Debug.cpp:332-340 | control codes other than line feed and carriage return become spaces, every other character is kept, and the length is unchanged |
| DebugUtil.WhackedIsClean | Generals/Code/GameEngine/Source/Common/System/Debug.cpp:332-340 | the result holds no such control code, and characters that were not ones are untouched |
| DebugUtil.WhackedStaysString | Generals/Code/GameEngine/Source/Common/System/Debug.cpp:332-340 | a NUL-free signed-char buffer stays NUL-free signed chars, so the terminator does not move |
| DebugUtil.WhackIdempotent | Generals/Code/GameEngine/Source/Common/System/Debug.cpp:332-340 | cleaning twice is cleaning once |
| DebugUtil.WhackInPlace | Generals/Code/GameEngine/Source/Common/System/Debug.cpp:332-340 | the backwards loop over the buffer leaves exactly the cleaned buffer |
| CrcDebug.Initial | Generals/Code/GameEngine/Source/Common/CRCDebug.cpp:44-49 | at start nothing is stored and the next slot is 0 |
| CrcDebug.StartNewGame | Generals/Code/GameEngine/Source/Common/CRCDebug.cpp:121-143 | the counters, the last frame and the last index go back to 0; the stored text is left in place |
| CrcDebug.NextIsCountUntilFull | Generals/Code/GameEngine/Source/Common/CRCDebug.cpp:225-228 | until the ring is full the next slot is the number of lines stored |
| CrcDebug.Dump | Generals/Code/GameEngine/Source/Common/CRCDebug.cpp:96-115 | as many lines as were stored, but at most 64000 |
| CrcDebug.Store | Generals/Code/GameEngine/Source/Common/CRCDebug.cpp:208-228 | the line goes into the next slot, the count grows by one, the next slot wraps at 64000, and no other slot changes |
| CrcDebug.ResetHoldsNothing | Generals/Code/GameEngine/Source/Common/CRCDebug.cpp:121-143 | after a reset the log holds no history |
| CrcDebug.StoreExtends | Generals/Code/GameEngine/Source/Common/CRCDebug.cpp:208-228 | storing a line appends it to the history the ring holds |
| CrcDebug.SlotsDiffer | Generals/Code/GameEngine/Source/Common/CRCDebug.cpp:225-228 | lines fewer than 64000 apart sit in different slots |
| CrcDebug.DumpIsRecent | Generals/Code/GameEngine/Source/Common/CRCDebug.cpp:96-115 | the dump is the last 64000 lines stored (all of them if fewer), oldest first |
| CrcDebug.SameSlot | Generals/Code/GameEngine/Source/Common/CRCDebug.cpp:103-109 | the dump's slot index `(i + 64000) % 64000` is the slot of the matching history line |
| CrcDebug.Pad5 | Generals/Code/GameEngine/Source/Common/CRCDebug.cpp:205 | `%05d`: at least five digits, zero-padded on the left, the number itself when it is longer |
| CrcDebug.Clean | Generals/Code/GameEngine/Source/Common/CRCDebug.cpp:210-221 | the text is cut to 1023 characters and every CR and LF becomes a space |
| CrcDebug.FrameOkToLog | Generals/Code/GameEngine/Source/Common/CRCDebug.cpp:54-56 | only frames from 0 on are ever logged, and a window whose unsigned last frame comes before its first logs nothing |
| CrcDebug.UntilFrame | Generals/Code/GameEngine/Source/Common/CommandLine.cpp:224-233 | the signed `atoi` value lands in the unsigned last frame modulo 2^32 |
| CrcDebug.UntilMinusOneLogsAll | Generals/Code/GameEngine/Source/Common/CommandLine.cpp:53 | a last frame of -1 wraps to the default 0xffffffff, so every 32-bit frame from the first one on is logged |
| CrcDebug.AddLine | Generals/Code/GameEngine/Source/Common/CRCDebug.cpp:192-229 | outside a loggable frame nothing changes; otherwise the line is stored and the frame recorded |
| CrcDebug.LineFor | Generals/Code/GameEngine/Source/Common/CRCDebug.cpp:204-221 | a stored line is shorter than 1024 characters and has no line break in it |
| CrcDebug.LineNumbering | Generals/Code/GameEngine/Source/Common/CRCDebug.cpp:197-211 | a counted line gets the frame and the per-frame index, which then goes up by one; the index restarts at a new frame; an uncounted line is the cleaned text alone |
| CrcDebug.AddExtendsHistory | Generals/Code/GameEngine/Source/Common/CRCDebug.cpp:192-229 | within a frame (or when per-frame files are off) a line extends the history and nothing is written out |
| CrcDebug.AddFlushesOnNewFrame | Generals/Code/GameEngine/Source/Common/CRCDebug.cpp:192-229 | with per-frame files, the first line of a new frame writes out the recent history and starts a new one with that line |
| LocalFile.FopenMode | Core/GameEngine/Source/Common/System/LocalFile.cpp:162-191 | the buffered build's mode starts with r, w or a and ends in b exactly when BINARY is set |
| LocalFile.ModeMeaning | Core/GameEngine/Source/Common/System/LocalFile.cpp:162-191 | the mode reads unless the file is write-only, writes exactly when WRITE is set, appends exactly for a writable file asking APPEND (which wins over TRUNCATE and CREATE), and truncates a read-write file only when TRUNCATE or CREATE is asked |
| LocalFile.OpenFlags | Core/GameEngine/Source/Common/System/LocalFile.cpp:224-248 | TRUNCATE, APPEND, TEXT and BINARY map one-to-one onto the corresponding open flags |
| LocalFile.OneAccessMode | Core/GameEngine/Source/Common/System/LocalFile.cpp:224-257 | read-write gives O_RDWR, write-only gives O_WRONLY together with O_CREAT, anything else O_RDONLY; O_CREAT is present exactly when CREATE is asked or the file is write-only |
| LocalFile.BuildsAgree | Core/GameEngine/Source/Common/System/LocalFile.cpp:162-257 | the buffered and unbuffered builds agree on whether the file may be read and whether it may be written |
| LocalFile.BufferingFor | Core/GameEngine/Source/Common/System/LocalFile.cpp:201-215 | a buffer size of 0 means no buffering; otherwise LINEBUF gives line buffering and full buffering is the default |
| LocalFile.ReadAt | Core/GameEngine/Source/Common/System/LocalFile.cpp:336-360 | a read stores the bytes left at the position, at most as many as asked; fewer only where the data ends, and none past its end |
| LocalFile.ReadChar | Core/GameEngine/Source/Common/System/LocalFile.cpp:367-377 | with no byte left the result is EOF; otherwise one byte is consumed and returned as a signed char |
| LocalFile.ReadCharEof | Core/GameEngine/Source/Common/System/LocalFile.cpp:367-377 | the caller sees EOF exactly at end of file or when the byte read is 0xFF, which sign-extends to the same value |
| LocalFile.ReadWideChar | Core/GameEngine/Source/Common/System/LocalFile.cpp:383-393 | with fewer than two bytes left the result is WEOF; otherwise two bytes are consumed and returned little-endian |
| LocalFile.ReadWideCharEof | Core/GameEngine/Source/Common/System/LocalFile.cpp:383-393 | the caller sees WEOF exactly when fewer than two bytes remain or both are 0xFF |
| LocalFile.NumberStart | Core/GameEngine/Source/Common/System/LocalFile.cpp:532-539 | the skip stops at the first digit or minus sign, and every character before it is neither |
| LocalFile.DigitsEnd | Core/GameEngine/Source/Common/System/LocalFile.cpp:545-552 | the digit run ends at the first non-digit or at end of file |
| LocalFile.ScanInt | Core/GameEngine/Source/Common/System/LocalFile.cpp:524-565 | the scan fails exactly when no digit or minus sign is left, with 0 and nothing left; otherwise the input resumes right after the digits following the first number character |
| LocalFile.ScanFailsIffNoNumber | Core/GameEngine/Source/Common/System/LocalFile.cpp:532-543 | the scan fails exactly when every remaining character is neither a digit nor a minus sign |
| LocalFile.ScanReadsIntText | Core/GameEngine/Source/Common/System/LocalFile.cpp:524-565 | an integer written in decimal after non-numeric text, followed by a non-digit or end of file, is scanned back as that integer with the following text left unread |
| LocalFile.LineEnd | Core/GameEngine/Source/Common/System/LocalFile.cpp:672-688 | the line runs up to and including the first newline, or to end of file when there is none |
| LocalFile.NextLine | Core/GameEngine/Source/Common/System/LocalFile.cpp:665-697 | the stream resumes after the line; the buffer keeps its size, holds the line's first characters up to one slot short, then the terminator, and nothing else changes; nothing is written past the buffer |
| LocalFile.LineLoopAsWritten | Core/GameEngine/Source/Common/System/LocalFile.cpp:672-688 | the read loop as written consumes exactly one line and never changes the buffer's size |
| LocalFile.NextLineAsWritten | Core/GameEngine/Source/Common/System/LocalFile.cpp:665-697 | the routine as written resumes the stream after the line |
| LocalFile.LoopStores | Core/GameEngine/Source/Common/System/LocalFile.cpp:672-688 | while the line fits, each character is stored at its attempt's index, and reaching end of file costs one extra attempt |
| LocalFile.LoopCount | Core/GameEngine/Source/Common/System/LocalFile.cpp:672-688 | the loop makes one attempt per character of the line, plus one when the line ends at end of file |
| LocalFile.StrayIffAttemptsFill | Core/GameEngine/Source/Common/System/LocalFile.cpp:690-695 | the write past the buffer happens exactly when the attempts reach the buffer's size |
| LocalFile.AsWrittenShortTerminated | Core/GameEngine/Source/Common/System/LocalFile.cpp:665-697 | a newline-terminated line shorter than the buffer is stored, newline included, followed by the terminator |
| LocalFile.AgreeOnShortTerminatedLine | Core/GameEngine/Source/Common/System/LocalFile.cpp:665-697 | on a newline-terminated line that fits, the code as written and the corrected routine give the same result |
| LocalFile.AsWrittenEofOneLate | Core/GameEngine/Source/Common/System/LocalFile.cpp:690-695 | at end of file the terminator lands one slot late, leaving a stale character after the text |
| LocalFile.AsWrittenEofKeepsStaleChar | Core/GameEngine/Source/Common/System/LocalFile.cpp:690-695 | "ab" read into "xxxx" gives "abx" and a terminator as written, "ab", a terminator and "x" when corrected |
| LocalFile.AsWrittenLongLineWritesPastEnd | Core/GameEngine/Source/Common/System/LocalFile.cpp:690-695 | a line longer than the buffer writes one slot past its end as written, and is cut short and terminated when corrected |
| FileSystem.OpenFile | Core/GameEngine/Source/Common/System/FileSystem.cpp:174-198 | the archive is asked only when the local file system is absent or returns nothing; a local file wins, and with neither asked nor found the result is nothing |
| FileSystem.OpenFindsEither | Core/GameEngine/Source/Common/System/FileSystem.cpp:174-198 | with both file systems present a file opens exactly when either has it, and the local one takes precedence |
| FileSystem.DoesFileExist | Core/GameEngine/Source/Common/System/FileSystem.cpp:204-234 | the file exists exactly when the local or the archive file system reports it |
| FileSystem.ExistsIffOpens | Core/GameEngine/Source/Common/System/FileSystem.cpp:174-234 | the existence test agrees with whether opening the file finds it |
| FileSystem.GetFileInfo | Core/GameEngine/Source/Common/System/FileSystem.cpp:249-266 | a missing record gives false; otherwise the record is filled from the local file system first, then the archive, and stays zeroed when neither has the file |
| FileSystem.InfoIffExists | Core/GameEngine/Source/Common/System/FileSystem.cpp:204-266 | getting the file's information succeeds exactly when the file exists |
| FileSystem.WithTrailingSep | Core/GameEngine/Source/Common/System/FileSystem.cpp:385-393 | the base path ends with the platform separator afterwards, and gains one only when it lacked it |
| FileSystem.IsPathInDirectory | Core/GameEngine/Source/Common/System/FileSystem.cpp:371-405 | a path is in the directory exactly when neither normalised path is empty and the path starts with the base plus separator, case-insensitively on Windows |
| FileSystem.ChildIsInDirectory | Core/GameEngine/Source/Common/System/FileSystem.cpp:385-405 | a name under the base is in the directory, and the base itself is not |
| FileSystem.SiblingNotInDirectory | Core/GameEngine/Source/Common/System/FileSystem.cpp:385-405 | a longer path that does not continue the base with a separator (such as a sibling sharing its prefix) is not in the directory |
| FileSystem.TrailingSepIrrelevant | Core/GameEngine/Source/Common/System/FileSystem.cpp:389-392 | writing the base with or without its trailing separator gives the same answer |
| BigFileSystem.NulFrom | Core/GameEngineDevice/Source/StdDevice/Common/StdBIGFileSystem.cpp:147-151 | the name runs up to the first NUL byte, and every byte before it is non-zero |
| BigFileSystem.ReadEntry | Core/GameEngineDevice/Source/StdDevice/Common/StdBIGFileSystem.cpp:133-151 | the layout of an entry lying whole in the data: two big-endian 32-bit words and a name ending in a NUL; the next entry starts after that NUL |
| BigFileSystem.ReadEntries | Core/GameEngineDevice/Source/StdDevice/Common/StdBIGFileSystem.cpp:131-171 | the layout of a directory lying whole in the data: exactly as many entries as the header announces |
| BigFileSystem.Split | Core/GameEngineDevice/Source/StdDevice/Common/StdBIGFileSystem.cpp:153-166 | the name splits at its last backslash or slash: the path keeps the separator, the file name has none and is lower-cased, and offset and size are kept |
| BigFileSystem.SplitJoins | Core/GameEngineDevice/Source/StdDevice/Common/StdBIGFileSystem.cpp:153-166 | path followed by file name is the entry's name with the part after the path lower-cased |
| BigFileSystem.SplitAll | Core/GameEngineDevice/Source/StdDevice/Common/StdBIGFileSystem.cpp:131-171 | every entry is split in order |
| BigFileSystem.Word | Core/GameEngineDevice/Source/StdDevice/Common/StdBIGFileSystem.cpp:133-141 | a word read where the data ends keeps the 0 it was set to in every byte not read |
| BigFileSystem.CompareFrom | Core/GameEngineDevice/Source/StdDevice/Common/StdBIGFileSystem.cpp:100-107 | `strcmp` with BIGF after `buffer[4] = 0` is equal exactly when the four bytes read are BIGF; a short read that matches as far as it goes leads to a byte that was never written |
| BigFileSystem.HeaderBuffer | Core/GameEngineDevice/Source/StdDevice/Common/StdBIGFileSystem.cpp:99-101 | the name buffer holds the identifier bytes read, a NUL at index 4, and nothing written anywhere else |
| BigFileSystem.NameLoop | Core/GameEngineDevice/Source/StdDevice/Common/StdBIGFileSystem.cpp:146-151 | when the loop stops it stopped at a NUL inside the 260-byte buffer, every byte before it stored and non-NUL, with the read position never moved back |
| BigFileSystem.CutPath | Core/GameEngineDevice/Source/StdDevice/Common/StdBIGFileSystem.cpp:160 | the NUL goes just after the name's last separator and nothing else in the buffer changes |
| BigFileSystem.EntryAsRead | Core/GameEngineDevice/Source/StdDevice/Common/StdBIGFileSystem.cpp:133-166 | one pass of the directory loop: both words below 2^32, a name shorter than 260 bytes and free of NUL, and a read position that never moves back |
| BigFileSystem.EntriesAsRead | Core/GameEngineDevice/Source/StdDevice/Common/StdBIGFileSystem.cpp:131-171 | the loop yields exactly `numLittleFiles` entries, each with a name shorter than 260 bytes |
| BigFileSystem.OpenArchive | Core/GameEngineDevice/Source/StdDevice/Common/StdBIGFileSystem.cpp:81-181 | no file gives NULL; an archive starts with BIGF and is named after the file, lower-cased; another identifier is refused; fewer than 4 bytes that match BIGF as far as they go lead to a byte never written; every path is shorter than 260 bytes |
| BigFileSystem.OpenHeader | Core/GameEngineDevice/Source/StdDevice/Common/StdBIGFileSystem.cpp:98-130 | with the whole header present, opening comes down to the directory loop from 0x10 over the announced count, with the identifier still in the buffer |
| BigFileSystem.NameLoopReadsName | Core/GameEngineDevice/Source/StdDevice/Common/StdBIGFileSystem.cpp:146-151 | with a NUL less than 260 bytes ahead, the loop stores the name's bytes, stops at that NUL and resumes right after it |
| BigFileSystem.NameLoopStale | Core/GameEngineDevice/Source/StdDevice/Common/StdBIGFileSystem.cpp:146-151 | where the data has ended, the loop walks the bytes already in the buffer and stops at the first NUL |
| BigFileSystem.NameLoopOverflows | Core/GameEngineDevice/Source/StdDevice/Common/StdBIGFileSystem.cpp:146-151 | 260 bytes without a NUL use up the buffer |
| BigFileSystem.EntryAgrees | Core/GameEngineDevice/Source/StdDevice/Common/StdBIGFileSystem.cpp:133-166 | an entry lying whole in the data, with a name shorter than 260 bytes, is read as laid out whatever the buffer held |
| BigFileSystem.EntriesAgree | Core/GameEngineDevice/Source/StdDevice/Common/StdBIGFileSystem.cpp:131-171 | a directory lying whole in the data, with every name shorter than 260 bytes, is read as laid out |
| BigFileSystem.OpenArchiveOf | Core/GameEngineDevice/Source/StdDevice/Common/StdBIGFileSystem.cpp:81-181 | a file that starts with BIGF, then the size word read unconverted, the big-endian file count, and that many entries from offset 0x10 with names shorter than 260 bytes, opens as exactly those entries, split |
| BigFileSystem.ReadEncodedEntry | Core/GameEngineDevice/Source/StdDevice/Common/StdBIGFileSystem.cpp:133-151 | an entry written as big-endian offset, big-endian size and NUL-terminated name is laid out as itself, and the next entry starts right after it |
| BigFileSystem.ReadEncodedEntries | Core/GameEngineDevice/Source/StdDevice/Common/StdBIGFileSystem.cpp:131-171 | a directory written entry by entry is laid out as the same entries |
| BigFileSystem.EncodeArchive | Core/GameEngineDevice/Source/StdDevice/Common/StdBIGFileSystem.cpp:98-130 | a written image starts with BIGF, is at least 16 bytes long and holds the written directory from 0x10 on |
| BigFileSystem.EncodedHeader | Core/GameEngineDevice/Source/StdDevice/Common/StdBIGFileSystem.cpp:98-124 | the written header starts with BIGF, holds the size word as stored and the entry count big-endian, and is at least 16 bytes long |
| BigFileSystem.DecodeEncoded | Core/GameEngineDevice/Source/StdDevice/Common/StdBIGFileSystem.cpp:81-181 | opening a written archive whose names are shorter than 260 bytes gives back its lower-cased name, its size word and every entry, split, in order |
| BigFileSystem.IdentifierAloneOpensEmpty | Core/GameEngineDevice/Source/StdDevice/Common/StdBIGFileSystem.cpp:86-130 | a file holding only BIGF opens as an empty archive: the size and count words are never read into and stay 0 |
| BigFileSystem.EntryPastEnd | Core/GameEngineDevice/Source/StdDevice/Common/StdBIGFileSystem.cpp:133-151 | past the end of the data a pass still yields an entry: offset 0, size 0, and the name the buffer still holds |
| BigFileSystem.IdentifierEntry | Core/GameEngineDevice/Source/StdDevice/Common/StdBIGFileSystem.cpp:101-151 | past the end of the data, one pass reads the identifier left in the buffer as its name |
| BigFileSystem.MissingDirectoryReadsIdentifier | Core/GameEngineDevice/Source/StdDevice/Common/StdBIGFileSystem.cpp:81-181 | a header announcing one entry, with no directory after it, opens as one file `bigf` at offset 0 with size 0 |
| BigFileSystem.AsWrittenLongNameOverflows | Core/GameEngineDevice/Source/StdDevice/Common/StdBIGFileSystem.cpp:99-151 | a well-formed entry whose name is 260 bytes or longer uses up the buffer before its NUL, so the program as written stores past its end, while the entry as laid out holds the whole name |
| BigFileSystem.LongFirstNameRefused | Core/GameEngineDevice/Source/StdDevice/Common/StdBIGFileSystem.cpp:146-151 | an archive whose first name is 260 bytes or longer is refused instead of overrunning the buffer |
| ReplaySimulation.SplitWildcard | Core/GameEngine/Source/Common/ReplaySimulation.cpp:215-231 | the directory part followed by the pattern is the name; the directory is empty or ends in a slash or backslash, and the pattern has neither |
| ReplaySimulation.StripDir | Core/GameEngine/Source/Common/ReplaySimulation.cpp:237-238 | a listed name that starts with the replay directory loses exactly that prefix: putting it back gives the listed name |
| ReplaySimulation.ResolveOne | Core/GameEngine/Source/Common/ReplaySimulation.cpp:213-243 | a name with no `*` or `?` resolves to itself |
| ReplaySimulation.Resolve | Core/GameEngine/Source/Common/ReplaySimulation.cpp:211-245 | a list with no wildcards resolves to itself, unchanged and in order |
| ReplaySimulation.ResolvedLoseReplayDir | Core/GameEngine/Source/Common/ReplaySimulation.cpp:233-240 | a wildcard resolves to the listed files with the replay-directory prefix removed, in the listing's order |
| ReplaySimulation.ResolveAppend | Core/GameEngine/Source/Common/ReplaySimulation.cpp:211-245 | resolving two lists one after the other is resolving their concatenation |
| ReplaySimulation.ResolveStep | Core/GameEngine/Source/Common/ReplaySimulation.cpp:211-245 | the names are resolved one at a time, front to back |
| ReplaySimulation.ExitCode | Core/GameEngine/Source/Common/ReplaySimulation.cpp:248-255 | the exit code is 1 exactly when an error occurred, 0 otherwise |
| ReplaySimulation.CountErrors | Core/GameEngine/Source/Common/ReplaySimulation.cpp:78-119 | headless, the error count is at most the number of files and is zero exactly when every replay played through cleanly |
| ReplaySimulation.SimulateHeadless | Core/GameEngine/Source/Common/ReplaySimulation.cpp:78-129 | headless, the exit code is 1 exactly when some replay failed to open or showed a CRC mismatch |
| ReplaySimulation.WindowedCount | Core/GameEngine/Source/Common/ReplaySimulation.cpp:61-70 | in a window, the replays played are a prefix that stops right after the first one that ends the run |
| ReplaySimulation.WindowedErrorsArePlayed | Core/GameEngine/Source/Common/ReplaySimulation.cpp:61-74 | in a window, the errors are the CRC mismatches among the replays actually played |
| ReplaySimulation.Dispatched | Core/GameEngine/Source/Common/ReplaySimulation.cpp:248-255 | the replays run in this process exactly when the process count is the sequential marker, and otherwise in that many workers |
| ReplaySimulation.CountRunning | Core/GameEngine/Source/Common/ReplaySimulation.cpp:37-47 | the number running is at most the number of workers, and equals it exactly when every worker runs; a done worker and one whose start failed do not run |
| ReplaySimulation.CountRunningAppend | Core/GameEngine/Source/Common/ReplaySimulation.cpp:37-47 | counting over two lists of workers adds up |
| ReplaySimulation.CountProcessesRunning | Core/GameEngine/Source/Common/ReplaySimulation.cpp:37-47 | the loop over the workers counts exactly the running ones |
| ReplaySimulation.ReportDone | Core/GameEngine/Source/Common/ReplaySimulation.cpp:151-164 | finished workers are dropped from the front only, stopping at the first one not done (still running, or failed to start), and each one dropped counts as done |
| ReplaySimulation.ReportDoneKeeps | Core/GameEngine/Source/Common/ReplaySimulation.cpp:151-164 | reporting keeps the loop's invariant: results come in start order and the error count is the number of non-zero exit codes |
| ReplaySimulation.StartWorkers | Core/GameEngine/Source/Common/ReplaySimulation.cpp:166-185 | new workers are started while fewer than the maximum run and files remain; reports and errors are untouched; each start counts toward the maximum for the round, whether or not it succeeds |
| ReplaySimulation.FailedFrontBlocks | Core/GameEngine/Source/Common/ReplaySimulation.cpp:151-188 | a worker whose start failed (Core/GameEngine/Source/Common/WorkerProcess.cpp 86-106 and 180-181) is never done, so at the front it stops the reporting, and the loop goes on with it still at the front: the source never leaves the loop |
| ReplaySimulation.Iterate | Core/GameEngine/Source/Common/ReplaySimulation.cpp:144-192 | a round never lowers the files started or done, and with at least one process allowed it ends the loop only once every file has been started |
| ReplaySimulation.IterateKeeps | Core/GameEngine/Source/Common/ReplaySimulation.cpp:144-192 | one round keeps the invariant, never pushes the running count above the maximum unless it already was, and when the loop ends every file was started and reported, in order |
| ReplaySimulation.PoolExitCode | Core/GameEngine/Source/Common/ReplaySimulation.cpp:144-203 | the worker loop's exit code is 1 exactly when some worker reported a non-zero exit code |
| ReplaySimulation.NonZeroPositive | Core/GameEngine/Source/Common/ReplaySimulation.cpp:161 | the error count is positive exactly when some report is non-zero |
| ReplaySimulation.NonZeroAppend | Core/GameEngine/Source/Common/ReplaySimulation.cpp:161 | each report adds one to the error count exactly when its exit code is non-zero |
| ReplaySimulation.WindowedErrors | Core/GameEngine/Source/Common/ReplaySimulation.cpp:61-70 | in a window, there are at most as many errors as replays |
| LayersList.FindLayer | GeneralsMD/Code/Tools/WorldBuilder/src/LayersList.cpp:509-527 | an empty name finds nothing; otherwise the result is the first layer whose name matches ignoring case, and nothing exactly when no layer matches |
| LayersList.FindSameForEqualNames | GeneralsMD/Code/Tools/WorldBuilder/src/LayersList.cpp:509-527 | names equal up to case find the same layer |
| LayersList.FindAt | GeneralsMD/Code/Tools/WorldBuilder/src/LayersList.cpp:509-527 | a matching layer with no match before it is the one found |
| LayersList.FindObject | GeneralsMD/Code/Tools/WorldBuilder/src/LayersList.cpp:456-480 | the object is found at its first occurrence, scanning the layers in order, and not found exactly when no layer lists it |
| LayersList.FindObjectIn | GeneralsMD/Code/Tools/WorldBuilder/src/LayersList.cpp:456-480 | when every object is listed once, the object is found in the one place that lists it |
| LayersList.ResetLayers | GeneralsMD/Code/Tools/WorldBuilder/src/LayersList.cpp:185-196 | the default name goes back to "Default Object Layer"; the active layer is untouched |
| LayersList.ResetFindsDefaults | GeneralsMD/Code/Tools/WorldBuilder/src/LayersList.cpp:185-196 | after a reset there are exactly two shown, empty layers: the default object layer first, then the default trigger layer |
| LayersList.TwoDistinctLayers | GeneralsMD/Code/Tools/WorldBuilder/src/LayersList.cpp:185-196 | two shown, empty layers with different names are each found at their own place and list nothing |
| LayersList.AddLayerNamed | GeneralsMD/Code/Tools/WorldBuilder/src/LayersList.cpp:303-318 | a shown, empty layer is appended only when the name is non-empty and not present; otherwise nothing changes |
| LayersList.AddLayerFinds | GeneralsMD/Code/Tools/WorldBuilder/src/LayersList.cpp:303-318 | afterwards a non-empty name is found, and a new one is the last layer and is shown |
| LayersList.AddLayerIdempotent | GeneralsMD/Code/Tools/WorldBuilder/src/LayersList.cpp:303-318 | adding the same layer twice is adding it once |
| LayersList.IsLayerHidden | GeneralsMD/Code/Tools/WorldBuilder/src/LayersList.cpp:407-417 | a layer is hidden exactly when it is found and not shown; an unknown layer is never hidden |
| LayersList.AddObjectToLayer | GeneralsMD/Code/Tools/WorldBuilder/src/LayersList.cpp:529-563 | the object goes to the end of the target layer, no other layer changes, and its layer property is empty for the default layer and the layer's name otherwise |
| LayersList.Target | GeneralsMD/Code/Tools/WorldBuilder/src/LayersList.cpp:210-223 | the requested layer is added if missing before the target is chosen, and the target is a layer of the result |
| LayersList.AddMapObjectToLayersList | GeneralsMD/Code/Tools/WorldBuilder/src/LayersList.cpp:203-226 | nothing changes for a missing or already-listed object, no layer is lost, and the default and active names are kept |
| LayersList.AddObjectPlacesIt | GeneralsMD/Code/Tools/WorldBuilder/src/LayersList.cpp:203-226 | a new object with a non-empty layer name goes to the end of that layer, created if needed |
| LayersList.AddObjectFallsBack | GeneralsMD/Code/Tools/WorldBuilder/src/LayersList.cpp:203-226 | with no layer named, the object goes to the active layer, else to the default layer, else nowhere |
| LayersList.AddKeepsUnique | GeneralsMD/Code/Tools/WorldBuilder/src/LayersList.cpp:203-226 | adding keeps every object listed at most once |
| LayersList.AddKeepsNames | GeneralsMD/Code/Tools/WorldBuilder/src/LayersList.cpp:203-226 | adding keeps every layer's name, and at most the requested layer is appended |
| LayersList.RemoveMapObjectFromLayersList | GeneralsMD/Code/Tools/WorldBuilder/src/LayersList.cpp:254-264 | no layer is added, dropped or renamed; a missing or unlisted object changes nothing and gives the empty name |
| LayersList.RemoveUnlists | GeneralsMD/Code/Tools/WorldBuilder/src/LayersList.cpp:254-264 | a listed object is erased from its one place, no other layer changes, and the name of its layer is returned |
| LayersList.RemoveUndoesAdd | GeneralsMD/Code/Tools/WorldBuilder/src/LayersList.cpp:203-264 | removing an object just added to an existing layer restores the layers and names that layer |
| LayersList.ChangeMapObjectLayer | GeneralsMD/Code/Tools/WorldBuilder/src/LayersList.cpp:281-290 | moving an object loses no layer and keeps the default and active names |
| LayersList.ChangeMovesObject | GeneralsMD/Code/Tools/WorldBuilder/src/LayersList.cpp:281-290 | the first object of a layer moves to the end of the named layer, created if needed, and objects stay listed once |
| LayersList.ChangeLength | GeneralsMD/Code/Tools/WorldBuilder/src/LayersList.cpp:281-290 | a move adds at most the named layer |
| LayersList.SameNamesSameFind | GeneralsMD/Code/Tools/WorldBuilder/src/LayersList.cpp:509-527 | layer lists with the same names find the same layer |
| LayersList.FindAfterUpdates | GeneralsMD/Code/Tools/WorldBuilder/src/LayersList.cpp:509-527 | changing layers' contents but not their names keeps the lookup |
| LayersList.WithLayerUpdate | GeneralsMD/Code/Tools/WorldBuilder/src/LayersList.cpp:303-318 | adding a layer commutes with changing another layer's contents |
| LayersList.WithLayerSameNames | GeneralsMD/Code/Tools/WorldBuilder/src/LayersList.cpp:303-318 | adding a layer to lists with the same names gives lists of the same length |
| LayersList.RemoveFirst | GeneralsMD/Code/Tools/WorldBuilder/src/LayersList.cpp:254-264 | removing a layer's first object drops just that object and keeps objects listed once |
| LayersList.AddToNamedLayer | GeneralsMD/Code/Tools/WorldBuilder/src/LayersList.cpp:203-226 | a new object goes to the end of the named layer, created first if missing |
| LayersList.MoveOut | GeneralsMD/Code/Tools/WorldBuilder/src/LayersList.cpp:340-343 | the transfer loop ends with the layer emptied, the default and active names kept |
| LayersList.MoveOutUnfolds | GeneralsMD/Code/Tools/WorldBuilder/src/LayersList.cpp:340-343 | each pass of the transfer loop moves the layer's first object to the default layer and goes on |
| LayersList.MoveStepReady | GeneralsMD/Code/Tools/WorldBuilder/src/LayersList.cpp:340-343 | with the default layer present, one pass moves the first object to the end of the default layer |
| LayersList.MoveOutReady | GeneralsMD/Code/Tools/WorldBuilder/src/LayersList.cpp:340-343 | with the default layer present, the loop moves every object, in order, to the end of the default layer |
| LayersList.MoveOutMovesAll | GeneralsMD/Code/Tools/WorldBuilder/src/LayersList.cpp:340-343 | from any state the loop creates the default layer if needed and then moves every object there, in order |
| LayersList.MoveOutLength | GeneralsMD/Code/Tools/WorldBuilder/src/LayersList.cpp:340-343 | the transfer adds at most the default layer |
| LayersList.EraseLayer | GeneralsMD/Code/Tools/WorldBuilder/src/LayersList.cpp:346 | erasing a layer shifts the later ones down by one |
| LayersList.EraseKeepsUnique | GeneralsMD/Code/Tools/WorldBuilder/src/LayersList.cpp:346 | erasing a layer keeps objects listed once |
| LayersList.EraseKeepsFind | GeneralsMD/Code/Tools/WorldBuilder/src/LayersList.cpp:346 | erasing another layer keeps the lookup of a name, shifted when it came after |
| LayersList.EraseKeepsListed | GeneralsMD/Code/Tools/WorldBuilder/src/LayersList.cpp:346 | erasing a layer that does not list an object keeps it listed |
| LayersList.RemoveLayerNamed | GeneralsMD/Code/Tools/WorldBuilder/src/LayersList.cpp:320-338 | the default layer, the trigger layer and an unknown layer are never removed |
| LayersList.RemoveLayerAt | GeneralsMD/Code/Tools/WorldBuilder/src/LayersList.cpp:338-346 | removing a found layer succeeds when the transfer does, and drops one layer |
| LayersList.RemoveShrinks | GeneralsMD/Code/Tools/WorldBuilder/src/LayersList.cpp:320-347 | a removal leaves fewer layers than the list with the default layer in place |
| LayersList.RemoveLayerMovesObjects | GeneralsMD/Code/Tools/WorldBuilder/src/LayersList.cpp:320-347 | removing another layer keeps every object listed, once, and its objects end up in the default layer |
| LayersList.RemoveEmptyLayer | GeneralsMD/Code/Tools/WorldBuilder/src/LayersList.cpp:338-346 | an empty layer is simply erased |
| LayersList.RemoveFullLayer | GeneralsMD/Code/Tools/WorldBuilder/src/LayersList.cpp:338-346 | a non-empty layer's objects all reach the default layer before it is erased |
| LayersList.MoveKeepsListed | GeneralsMD/Code/Tools/WorldBuilder/src/LayersList.cpp:340-343 | moving a layer's objects to the default layer keeps every object listed and empties that layer |
| LayersList.WithLayerKeepsListed | GeneralsMD/Code/Tools/WorldBuilder/src/LayersList.cpp:303-318 | adding a layer keeps every object listed |
| LayersList.ChangeLayerName | GeneralsMD/Code/Tools/WorldBuilder/src/LayersList.cpp:349-362 | a rename of an unknown layer changes nothing; otherwise the first layer found under the old name (ignoring case) takes the new name and every other layer is unchanged, and the active name and the object properties are kept |
| LayersList.RenameKeepsDefault | GeneralsMD/Code/Tools/WorldBuilder/src/LayersList.cpp:349-362 | renaming, as intended, keeps the default name naming a layer |
| LayersList.ChangeLayerNameAsWritten | GeneralsMD/Code/Tools/WorldBuilder/src/LayersList.cpp:349-362 | as written, the first layer found under the old name takes the new name, every other layer is unchanged, and the default name takes the new name exactly when the old name is not the default; an unknown name changes nothing |
| LayersList.AsWrittenRenameDropsDefault | GeneralsMD/Code/Tools/WorldBuilder/src/LayersList.cpp:358-361 | renaming the default layer as written leaves the default name pointing at no layer; the corrected rename keeps it |
| LayersList.AsWrittenRenameTakesDefault | GeneralsMD/Code/Tools/WorldBuilder/src/LayersList.cpp:358-361 | renaming any other layer as written makes it the default, which then can no longer be removed; the corrected rename keeps the default |
| LayersList.AsWrittenRenameLosesDefault | GeneralsMD/Code/Tools/WorldBuilder/src/LayersList.cpp:349-362 | after a reset, renaming "Default Object Layer" to "X" as written loses the default layer; the corrected rename does not |
| LayersList.RenameFirstOfTwo | GeneralsMD/Code/Tools/WorldBuilder/src/LayersList.cpp:358-361 | with two layers, renaming the default one as written loses the default layer, and the corrected rename does not |
| BaseType.Sqr | GeneralsMD/Code/Libraries/Include/Lib/BaseType.h:42-46 | the square is never negative, is zero exactly for zero, and is at least the magnitude of any non-zero value |
| BaseType.SqrEven | GeneralsMD/Code/Libraries/Include/Lib/BaseType.h:42-46 | a value and its negation have the same square |
| BaseType.Clamp | GeneralsMD/Code/Libraries/Include/Lib/BaseType.h:48-54 | below lo gives lo, above hi gives hi, otherwise the value itself; with lo <= hi the result lies between them |
| BaseType.ClampIdempotent | GeneralsMD/Code/Libraries/Include/Lib/BaseType.h:48-54 | clamping a clamped value changes nothing |
| BaseType.ClampMonotone | GeneralsMD/Code/Libraries/Include/Lib/BaseType.h:48-54 | clamping keeps the order of values |
| BaseType.Sign | GeneralsMD/Code/Libraries/Include/Lib/BaseType.h:56-62 | 1, -1 or 0 exactly when the value is positive, negative or zero |
| BaseType.SignMagnitude | GeneralsMD/Code/Libraries/Include/Lib/BaseType.h:56-62 | sign times value is the magnitude, and negating the value negates its sign |
| BaseType.BitIsSet | GeneralsMD/Code/Libraries/Include/Lib/BaseType.h:72 | a mask tests set exactly when clearing it would change the value |
| BaseType.BitSet | GeneralsMD/Code/Libraries/Include/Lib/BaseType.h:73 | the mask's bits become set and every other bit is kept |
| BaseType.BitClear | GeneralsMD/Code/Libraries/Include/Lib/BaseType.h:74 | the mask's bits become clear and every other bit is kept |
| BaseType.BitToggle | GeneralsMD/Code/Libraries/Include/Lib/BaseType.h:75 | the mask's bits are flipped and every other bit is kept |
| BaseType.SetThenTest | GeneralsMD/Code/Libraries/Include/Lib/BaseType.h:72-74 | after setting a non-zero mask it tests set, and after clearing it tests clear |
| BaseType.ToggleTwice | GeneralsMD/Code/Libraries/Include/Lib/BaseType.h:75 | toggling twice restores the value |
| BaseType.SetThenClear | GeneralsMD/Code/Libraries/Include/Lib/BaseType.h:73-74 | setting and then clearing a mask is clearing it |
| BaseType.Width | GeneralsMD/Code/Libraries/Include/Lib/BaseType.h:240 | the low corner's x plus the width is the high corner's x |
| BaseType.Height | GeneralsMD/Code/Libraries/Include/Lib/BaseType.h:241 | the low corner's y plus the height is the high corner's y |
| BaseType.ExtentsOfMoved | GeneralsMD/Code/Libraries/Include/Lib/BaseType.h:236-242 | swapping the corners negates the extents, and moving the region keeps them |
| Bytes.LittleEndianRoundTrip | Core/GameEngineDevice/Source/StdDevice/Common/StdBIGFileSystem.cpp:110 | a value below 256^n written as n little-endian bytes reads back as itself |
| Bytes.ReadLittleEndianRoundTrip | Core/GameEngineDevice/Source/StdDevice/Common/StdBIGFileSystem.cpp:110 | any bytes read little-endian and written back are the same bytes |
| Bytes.BigEndianRoundTrip | Core/GameEngineDevice/Source/StdDevice/Common/StdBIGFileSystem.cpp:116-138 | a value below 256^n written as n big-endian bytes reads back as itself |
| Bytes.BigEndianIsReversed | Core/GameEngineDevice/Source/StdDevice/Common/StdBIGFileSystem.cpp:116-138 | the big-endian bytes are the little-endian ones reversed |
| Bytes.SignedUnsigned32 | Core/GameEngineDevice/Source/StdDevice/Common/StdBIGFileSystem.cpp:86-113 | a 32-bit signed value survives the trip through its unsigned bit pattern |
| Decimal.NatText | Core/GameEngine/Source/Common/System/LocalFile.cpp:562 | the decimal text is non-empty, all digits, and has no leading zero |
| Decimal.IntText | Core/GameEngine/Source/Common/System/LocalFile.cpp:562 | a negative value is written as a minus sign followed by its magnitude |
| Decimal.NatTextRoundTrip | Core/GameEngine/Source/Common/System/LocalFile.cpp:562 | the digits' value is the number written |
| Decimal.IntTextRoundTrip | Core/GameEngine/Source/Common/System/LocalFile.cpp:562 | an integer's decimal text is well-formed and parses back to the integer |

## Left out

- Script plumbing: the `glob` enumeration of source trees, opening files in the cp1252 encoding, skipping a file that does not decode, and the `shutil`/`os` calls. A file is its list of lines; `unify_move_files.py`'s file operations are returned as a plan of actions.
- Python's universal-newline translation on reading: a line's terminator is `\n` only.
- `strtrim`, which `parseCommandLine` applies to each token, and the individual option handlers. A handler is a parameter that reports how many arguments it consumed.
- Floating point: the special power's `getPercentReady`, and the `float` and `double` byte-swap helpers of `endian_compat.h`. The helpers at lines 216 and 221 repeat the `le16toh` slip on the integer bit pattern.
- Fixed-width overflow in `BaseType.h`: `sqr`, `width` and `height` compute in unbounded integers here. The source's `Int` can overflow for large values.
- Frame counters are unbounded integers. The source's `UnsignedInt` frame numbers wrap after 2^32 frames, which the special power and stealth models do not follow.
- `roundUpMemBound` is modelled on unbounded integers, so the overflow just below `INT_MAX` is not represented.
- The WorldBuilder tree view, the render flag `FLAG_DONT_RENDER`, the document invalidation, and `mergeLayerInto` and the dialog handlers of `LayersList`. Polygon triggers are carried in the layer datatype but their add/remove/change functions are not modelled; they mirror the map-object ones with the trigger layer as last fallback.
- LayersList.MoveOut: a transfer pass can fail to shorten the layer. This happens with an empty default name, when the object falls back into the same layer, or when the object is also listed in an earlier layer, a state the editor never produces. The source then loops forever; the model returns `None` instead of diverging.
- LayersList.RemoveLayerMovesObjects: stated for lists in which every object is listed once and for a non-empty default name. These are the states the editor maintains; other states are covered only by the refusal and size lemmas.
- `normalizePath` of the file system: `isPathInDirectory` is modelled on paths already normalised (an empty result stands for a failed normalisation).
- The local and archive file systems behind `FileSystem` are not modelled; their answers for the file in question are parameters. The existence cache that `ENABLE_FILESYSTEM_EXISTENCE_CACHE` compiles in is left out too: `FileSystem.DoesFileExist` answers as the function reads without it. With the cache, an answer stored by an earlier call (keyed by a hash of the lower-case name) is returned instead, and it can be stale.
- Real worker processes, playback and timing in `ReplaySimulation`: each replay's outcome and each worker's state per round are parameters. The progress and summary `printf` output is left out.
- Winsock and the host-name lookup of `IPEnumeration`: the addresses the host reports are a parameter. The dotted-text formatting of an address is left out.
- The debug-only cheat branches (`#if` on debug builds) in the special-power module.
- The wide-character versions of the version strings (`getUnicodeVersion` and friends), which format the same fields.
- The localised `iswspace` of `UnicodeString::trimEnd`, which is a parameter.
- The message-type numbering used by `cullBadCommands`, which lives in a header that is not part of this model; the bounds are parameters.
- LocalFile.ScanInt: the number is an unbounded integer. The source stores `atoi`'s result in a 32-bit `Int`; a digit run outside that range is undefined behaviour in C, and the model does not follow any platform's saturation or truncation.
- AsciiStrings.TrimSpace: its contract states only that the result has no leading or trailing blank and is no longer than the input. The full statement, that the result is the slice between the blank runs, is proved for the shared definition in EngineStrings.Trim.
- The debug log's file output and timestamps in `CRCDebug.cpp`: a flush is recorded as the list of lines written.
- BigFileSystem.OpenArchive: a byte of the name buffer that was never written has an indeterminate value in C++, so a test of it gives `Undefined` and no archive. This happens with 0 to 3 bytes that match BIGF as far as they go, or a name loop that runs into such a byte at the end of the data.
- BigFileSystem.OpenArchive: a name of 260 or more bytes refuses the archive. The program as written stores past its buffer instead (see Findings).
- BigFileSystem.ReadEntries: it describes a directory lying whole in the data. A directory cut short by the end of the file is read by `EntriesAsRead`, which keeps the zeroed words and the bytes left in the name buffer.

## Findings

| source | as written | input that shows it | evidently intended | confidence | as-written member | corrected member |
|---|---|---|---|---|---|---|
| Generals/Code/GameEngine/Source/Common/CommandLine.cpp:89-96 | The loop runs while the token does not end in `.map` and is non-empty. `nextToken` on an exhausted path leaves the token as it was. | `-file Maps/Foo`: the token stays `Foo` and the loop never ends | the loop stops at the end of the path and the name is reported invalid | not executed | CommandLine.MapPathWithoutExtensionHangs, CommandLine.AsWrittenNeverStops | CommandLine.ConvertMapPath, CommandLine.ConvertMapPathClosedForm |
| GeneralsMD/Code/GameEngine/Source/Common/Recorder.cpp:1322-1330 | The loop guard `index < 1024` lets `index` reach 1024 before the store. | a string of 1024 or more non-NUL bytes: a byte is stored at `str[1024]` | read at most 1023 characters into the 1024-byte buffer | not executed | Recorder.AsWrittenStoresPastBuffer | Recorder.ReadAsciiString, Recorder.ReadWriteRoundTrip |
| GeneralsMD/Code/GameEngine/Source/Common/Recorder.cpp:1316-1320 | The terminator stored at end of file is then overwritten with `EOF`. | an empty file: the result is the one-character string `"\xFF"` | the empty string | not executed | Recorder.AsWrittenEofGivesFF | Recorder.ReadAsciiString |
| Dependencies/Utility/Utility/endian_compat.h:204-212 | The 4- and 8-byte `letoh` helpers call the 16-bit `le16toh`. | on a host where `le16toh` is a library function, `letoh` of 0x10000 gives 0 | `le32toh` and `le64toh` | not executed | EndianCompat.AsWrittenTruncates, EndianCompat.LetohAsWritten | EndianCompat.Letoh, EndianCompat.TemplateRoundTrips |
| Core/GameEngine/Source/Common/System/LocalFile.cpp:690-695 | At end of file the loop has made one extra attempt, so the terminator goes one slot late. | `"ab"` into the buffer `"xxxx"`: the buffer holds `"abx"` and then the terminator | `"ab"`, the terminator, then the untouched rest | not executed | LocalFile.AsWrittenEofKeepsStaleChar, LocalFile.AsWrittenEofOneLate | LocalFile.NextLine |
| Core/GameEngine/Source/Common/System/LocalFile.cpp:690-695 | When the line fills the buffer, the terminator is written at `buf[bufSize]`. | `"abcdef\n"` into a 4-character buffer | cut the line at `bufSize - 1` characters and terminate it in the last slot | not executed | LocalFile.AsWrittenLongLineWritesPastEnd | LocalFile.NextLine, LocalFile.AgreeOnShortTerminatedLine |
| Core/GameEngineDevice/Source/StdDevice/Common/StdBIGFileSystem.cpp:146-151 | An entry's name is read byte by byte into a `_MAX_PATH` buffer until a NUL, with no bound. | a directory entry whose name has 260 or more bytes | stop at the buffer's size and refuse the archive | not executed | BigFileSystem.AsWrittenLongNameOverflows | BigFileSystem.LongFirstNameRefused, BigFileSystem.NameLoopOverflows, BigFileSystem.EntryAgrees |
| GeneralsMD/Code/Tools/WorldBuilder/src/LayersList.cpp:349-362 | `changeLayerName` moves the default name when the old name is *not* the default. The label editor at line 809 does it when the old name *is* the default. | reset, then rename `Default Object Layer` to `X`: the default name no longer finds a layer | the default name follows the default layer | not executed | LayersList.ChangeLayerNameAsWritten, LayersList.AsWrittenRenameLosesDefault, LayersList.AsWrittenRenameDropsDefault, LayersList.AsWrittenRenameTakesDefault | LayersList.ChangeLayerName, LayersList.RenameKeepsDefault |
