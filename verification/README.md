# aifed: a verified model

aifed edits text files on behalf of agents. A command line tool parses batches of operations, applies them to files and
renders the result; a daemon keeps, for every file, the diffs that undo and redo need, and runs language servers. This
project models the parts of both in which a mistake would damage a file or wedge a server, and proves what they promise.

The modules, from the bottom up:

- `LineDiffs`, `EditRows`, `EditPlans`, `Rename`: an edit as a walk over the old and the new file at once (a script).
  The rows a command shows, the diffs the daemon stores (removals numbered in the old file, insertions in the new one),
  their inverse and their two-pass in-place replay are all read off the script, and replay is proved to lead from the
  old file to the new one and back.
- `Scanners`, `Escapes`, `DisplayEscapes`, `Locators`, `BatchLanguage`, `BatchPrinting`, `BatchContents`, `BatchErrors`,
  `Clipboard`: the batch language, character by character. The scanner and the parser are classes and loops proved equal
  to a recursive definition over token streams; both printers are proved to be undone by the parser, unquoted contents
  to mean what they say, and what is refused to be refused with its own error.
- `Indents`, `BatchEdits`, `BatchMeaning`: classification of a file's indentation, the `@N` directives, the validation
  and execution of a batch, and what a batch means told without its plan.
- `TextEdits`, `EqualStarts`: the character-range edits of a rename, on UTF-8 offsets.
- `History`, `Workspaces`, `Timelines`, `UndoLimits`: the daemon's stacks and the commands that read, edit, rename,
  undo and redo, run in any order on any number of files. An ideal editor that keeps every version of a file whole is
  the specification; the stored diffs are proved to refine it, eviction included.
- `Outlines`: the heading tree of a Markdown file, its stack algorithm against a declarative definition.
- `LspServers`, `Framing`: starting and stopping language servers under every interleaving, split at the lock
  acquisitions, and the Content-Length framing of their messages.
- `Prelude`, `StableSort`, `FileText`, `Decimals`, `Whitespace`: shared vocabulary.

Line and file hashes, the test for text content, the settings of a path, UTF-8 decoding of header lines and the validity
of a workspace path as a URL are parameters (`Env` values). Nothing is assumed of the hashes, not even that they tell
two texts apart.

`dafny verify dfyconfig.toml` checks the whole project.

## Where the code does not do what one would expect

Each of these is proved, as an exact condition where the table says so.

- Undo after an edit. An edit that deletes every line is written as an empty file, which is read back as one empty
  line; undoing it leaves the file with one newline too many (`UndoLimits.EmptyingBatch`). An edit made after another
  program wrote the file is written but not recorded. The next undo then fails and leaves the file edited, or, if the
  edit happened to give the text the daemon knows, brings back the version before that; the entry of the last recorded
  edit moves either way (`UndoLimits.UndoAfterOutsideWrite`, `UndoLimits.UnrecordedEdit`).
  `UndoLimits.UndoRestoresExactly` says for both kinds exactly when the undo right after an edit restores the file: a
  recorded edit must leave a line and write text; an unrecorded one must have changed nothing, or lead from the version
  before the daemon's to the daemon's.
- A dry run of an undo or redo does not look at the file and promises success exactly where the client would then refuse
  (`Workspaces.DryRunsForetell`).
- The daemon moves an entry between its stacks before the client has checked the file. An undo or redo that fails
  leaves the history alone exactly when there was no file or no entry (`Workspaces.UndoRefusedExactly`,
  `Workspaces.RedoRefusedExactly`, `Workspaces.FailureChangesNothing`); otherwise the stacks no longer match the file
  once it is back as it was (`UndoLimits.RefusedUndoMovesEntry`, `UndoLimits.RefusedRedoMovesEntry`).
- Reading a file that another program wrote makes the daemon accept it. An undo then replays the inverse of the last
  edit on the foreign text. That gives the lines from before the edit exactly when the two texts agree once the lines
  numbered by the edit's insertions are dropped from both (`UndoLimits.StaleUndo`); otherwise it succeeds with other
  lines (`UndoLimits.StaleUndoMisplaces`).
- Of edits that start at one place, the text of the last listed comes first, where the TextEdit[] section of the
  Language Server Protocol 3.17 asks for the listed order: insertions come out reversed, and a replacement listed after
  insertions takes away inserted text instead of the text it names (`EqualStarts.EqualStartsReverse`,
  `EqualStarts.GroupTextExactly`, `EqualStarts.InsertThenReplaceLoses`).
- Edits that each pass validation can make the replacement panic when they overlap; `TextEdits.PanicsExactly` gives the
  condition in line numbers, `TextEdits.OverlapPanics` an instance. Edits that do not overlap never do.
- A rename that lists a file twice writes the text of the last listing and loses the others, while the daemon takes the
  file for the text of the first (`Workspaces.RenameLeaves`, `Workspaces.TwiceRenamed`).
- Directives keep the indentation style of a file, unless configuration forces spaces of a width that properly divides
  the file's own (`BatchEdits.DirectivesKeepStyle`, `Indents.FinerWidthInstance`).
- The comment on `escape_for_display` promises that what is shown is accepted by the edit decoder. That holds exactly
  for text without backslashes (`DisplayEscapes.DisplayRoundTripsExactly`).
- `@0` copies the indentation of its anchor even when the anchor is a blank line in another style
  (`Indents.CopiedIndentExactly`, `Indents.BlankAnchorMixes`).
- An insertion or replacement whose locator is a range is parsed when the range is quoted
  (`BatchPrinting.ParserImage`), but its printed form is rejected (`BatchPrinting.PrintParseOps`).
- A start of a language server that finds no configuration, or whose workspace path is no URL, leaves its placeholder
  behind; until the key is stopped, later starts report success and do nothing (`LspServers.AbandonedStartBlocks`).
- A stop does not end a start under way and lets a second one in. At most one start of a server is past the gate exactly
  in the runs that never stop it while a start of it is under way (`LspServers.AtMostOneStarter`). If it is configured
  and its path is valid, both starts can succeed, and the first client is then lost (`LspServers.LaterClientReplaces`).
- A header line of a server's message that is no UTF-8 ends the headers: the headers after it are taken for the body
  (`Framing.UnreadableLine`).
- A message stream cut one byte short still delivers its last message if that message is empty
  (`Framing.TruncatedStream`).
- `docs/reference/history.md` gives 100 as the number of undo entries kept; the code keeps 50, and so does the model.

## Model

| member | source | states |
|---|---|---|
| `StableSort.SortStable` | crates/aifed/src/diff.rs:41-42 | sorting keeps the order of elements of equal key |
| `StableSort.SortUnique` | crates/aifed/src/diff.rs:41-64 | a permutation with strictly increasing keys is the only result of sorting |
| `LineDiffs.LineVec.ApplyDiffs` | crates/aifed/src/diff.rs:39-76 | the two loops over the line vector leave exactly what the specification `Replay` gives for the old lines |
| `LineDiffs.ReplayOrder` | crates/aifed/src/diff.rs:40-66 | on the diffs of any script, the two sorts run removals from last to first and insertions from first to last |
| `LineDiffs.ReplayForward` | crates/aifed/src/diff.rs:39-76 | replaying a script's diffs on its old file gives its new file, with any text after the part the script covers |
| `LineDiffs.InverseIsFlip` | crates/aifed-daemon/src/history/manager.rs:132-155 | the inverse diffs are the stored form of the opposite script: deletions and insertions swap coordinate systems |
| `LineDiffs.ReplayBackward` | crates/aifed-daemon/src/history/manager.rs:132-155 | replaying the inverse diffs on the new file gives the old one |
| `LineDiffs.ScriptCarries` | crates/aifed-daemon/src/history/manager.rs:132-155 | stored diffs lead from the old file to the new one and their inverse leads back |
| `LineDiffs.ReplayAgrees` | crates/aifed/src/diff.rs:39-76 | a script's diffs lead any file to the script's new file if and only if the removals leave of it what they leave of the old file |
| `LineDiffs.RemovePassDrops` | crates/aifed/src/diff.rs:43-57 | on any file, deletions in descending order drop exactly the lines they number, as far as the file has them |
| `LineDiffs.InverseAgrees` | crates/aifed-daemon/src/history/manager.rs:132-155 | the inverse of a batch edit, replayed on any file, gives the old file if and only if that file and the edited one agree once the lines numbered by the insertions are dropped from both |
| `LineDiffs.OneDiff` | crates/aifed/src/diff.rs:39-76 | what one diff does to any file: removed and replaced lines must exist, number 0 and the number after the last line are places to insert, anything else is ignored |
| `LineDiffs.EmptyDiffBlanks` | crates/aifed-daemon/src/history/manager.rs:132-155 | a diff with neither content changes nothing, and its inverse blanks its line |
| `EditRows.RowsProject` | crates/aifed/src/output.rs:186-204 | rows project to the new file, to the old file and to the stored diffs of the same script |
| `EditRows.CountedRowExact` | crates/aifed/src/edit_view/mod.rs:20-30 | a row whose number counts the lines passed so far indexes its own content in the right file |
| `EditPlans.EditPlan.constructor` | crates/aifed/src/batch.rs:211-213 | a new plan is empty |
| `EditPlans.EditPlan.Extend` | crates/aifed/src/batch.rs:223-236 | contents are put behind what is already inserted after the line, and no other line's insertions change |
| `EditPlans.EditPlan.Add` | crates/aifed/src/batch.rs:216-239 | the plan after one more validated operation: which line is deleted, and what is put behind what the line already had inserted |
| `EditPlans.EditPlan.Apply` | crates/aifed/src/batch.rs:245-276 | the one-pass walk with its running line number yields the rows of the plan's script |
| `EditPlans.PlanCarries` | crates/aifed/src/batch.rs:245-276 | for every plan, the recorded changes replay the original into the new lines and their inverse replays the new lines into the original |
| `EditPlans.PlanRowsExact` | crates/aifed/src/batch.rs:245-276 | equal and delete rows are the original, and every row's number indexes its own content in the right file |
| `EditPlans.ApplyRefinesSimpleEditor` | crates/aifed/src/batch.rs:197-276 | the new lines are those of an editor that edits anchor by anchor, from the last line up to line 0, one insertion at a time |
| `EditPlans.NewLength` | crates/aifed/src/batch.rs:245-276 | new length = old length - distinct deletions + inserted lines |
| `Rename.ComputeRenameDiffs` | crates/aifed/src/commands/lsp.rs:111-155 | the index loop yields the diffs of the positional pairing |
| `Rename.RenameCarries` | crates/aifed/src/commands/lsp.rs:111-155 | for any two line lists the diffs lead from the first to the second and, inverted, back |
| `Rename.DiffsWhereDifferent` | crates/aifed/src/commands/lsp.rs:111-155 | there is a diff at exactly the lines where the two files differ, with both files' lines in it |
| `Rename.ChangedRowsFromDiffs` | crates/aifed/src/edit_view/mod.rs:35-49 | the loop expands every diff to its one or two rows, in order |
| `Rename.RowsFromOldAndNew` | crates/aifed/src/edit_view/mod.rs:55-75 | the loop yields the rows of the positional pairing |
| `Rename.RenameViewsAgree` | crates/aifed/src/edit_view/mod.rs:35-75 | expanding the recorded diffs gives exactly the changed rows of the positional view, whose rows project to both files |
| `FileText.JoinSplit` | crates/aifed/src/file.rs:110-120 | writing what was split restores the text |
| `FileText.SplitJoin` | crates/aifed/src/file.rs:110-120 | a non-empty list of lines without newlines is read back as it was written |
| `FileText.SplitNewlineFree` | crates/aifed/src/file.rs:105-112 | splitting yields at least one line, and no line with a newline |
| `FileText.SplitOfNothing` | crates/aifed/src/file.rs:110-120 | no lines are written as an empty text, which is read back as one empty line |
| `TextEdits.PositionToByteOffset` | crates/aifed/src/text_edit.rs:17-41 | the loop over preceding lines computes the byte offset of a position, past the end too |
| `TextEdits.WidthOfBytes` | crates/aifed/src/text_edit.rs:17-41 | a character is as wide as its bytes under section 3 of RFC 3629 |
| `TextEdits.OffsetAt` | crates/aifed/src/text_edit.rs:17-41 | the offset of the position of an index is the number of bytes before that index |
| `TextEdits.PositionsMonotone` | crates/aifed/src/text_edit.rs:17-41 | positions are ordered as the indices they name |
| `TextEdits.ValidationExact` | crates/aifed/src/text_edit.rs:80-136 | validation succeeds if and only if both ends name a character of an existing line and start is not after end; then the slice is the text between them |
| `TextEdits.RefusedRange` | crates/aifed/src/text_edit.rs:80-136 | with which error a range is refused, by the lines, columns and resolved indexes of its ends |
| `TextEdits.ApplyEdits` | crates/aifed/src/text_edit.rs:52-77 | validation loop, sort and replacement loop compute `EditedText`, first error included |
| `TextEdits.EditsAreSimultaneous` | crates/aifed/src/text_edit.rs:52-77 | for valid ranges that do not overlap, with different starts, listed in any order, the result is the simultaneous splice of the original text |
| `TextEdits.EffectiveSplice` | crates/aifed/src/text_edit.rs:52-77 | whenever the edits do not overlap in the reverse of the sorted order, equal starts included, the result is the splice in that reverse order |
| `EqualStarts.CodeOrderFlips` | crates/aifed/src/text_edit.rs:61-66 | for any edits, the order of their texts in the result is the listed order by start with every group of equal starts reversed |
| `TextEdits.PairInListedOrder` | crates/aifed/src/text_edit.rs:61-74 | two edits of one range are applied in the order listed |
| `TextEdits.PanicsExactly` | crates/aifed/src/text_edit.rs:52-77 | edits that pass validation are applied, or panic if and only if an edit's end is beyond the last line at its turn, counted from the lines each edit takes away and brings |
| `TextEdits.OverlapPanics` | crates/aifed/src/text_edit.rs:70-74 | two valid overlapping deletions on `ab`, `cd` that panic |
| `EqualStarts.EqualStartsReverse` | crates/aifed/src/text_edit.rs:61-74 | for all valid edits that do not overlap in the listed order, any number of insertions and then a replacement at one start included, the result is the splice of the groups' texts; it is the listed one if every group leaves its texts as listed, and only then where no insertion before a replacement holds a newline |
| `EqualStarts.GroupTextExactly` | crates/aifed/src/text_edit.rs:61-74 | what a group of insertions, or of insertions without a newline and a replacement, leaves: its last text, then insertions and range less as many characters as the range is long, or nothing of them if the range spans lines |
| `EqualStarts.GroupsMakeUp` | crates/aifed/src/text_edit.rs:61-74 | four edits with a newline inserted whose two groups both leave other texts than listed, and the listed text as result |
| `EqualStarts.TwoInsertions` | crates/aifed/src/text_edit.rs:61-74 | of two insertions at one place the first listed ends up second; the listed order comes out if and only if the texts commute |
| `EqualStarts.InsertThenReplace` | crates/aifed/src/text_edit.rs:61-74 | an insertion and then a replacement at the same start: the replacement ends where its end resolves in the text that already holds the insertion, for any texts |
| `EqualStarts.InsertThenReplaceExactly` | crates/aifed/src/text_edit.rs:61-74 | with no newline inserted, the replacement takes the insertion's text first, all of it when the range spans lines, and what remains is as listed if and only if replacement and remainder equal insertion and replacement |
| `EqualStarts.InsertThenReplaceLoses` | crates/aifed/src/text_edit.rs:61-74 | on `ab`, inserting `X` and replacing `a` by `Y` gives `Yab` |
| `Escapes.NormalizeHexEscapes` | crates/aifed/src/escape.rs:49-111 | the buffer-building loop and its fast path compute `Normalized` |
| `Escapes.FastPath` | crates/aifed/src/escape.rs:50-52 | without `\x` the slow path changes nothing |
| `Escapes.NormalizePreservesMeaning` | crates/aifed/src/escape.rs:49-111 | decoding the output with the escapes of section 7 of RFC 8259 equals decoding the input with `\xNN` added, errors, escaped backslashes and malformed `\x` included |
| `Escapes.NormalizeIdempotent` | crates/aifed/src/escape.rs:49-111 | normalising twice is normalising once |
| `Escapes.EscapeContentIsEscaped` | crates/aifed/src/batch.rs:818-824 | four replacements in a row escape each character once |
| `Escapes.DecodeEscaped` | crates/aifed/src/batch.rs:554-564 | what either printer escapes decodes to itself |
| `Escapes.NumberDecodes` | crates/aifed/src/batch.rs:554-564 | every character can be written by number, as one unit or as a surrogate pair |
| `Escapes.LoneSurrogate` | crates/aifed/src/batch.rs:554-564 | half a surrogate pair is an error |
| `Escapes.ShortEscapes` | crates/aifed/src/batch.rs:554-564 | the eight short escapes of section 7 of RFC 8259, and no others |
| `Escapes.EscapedIsPlain` | crates/aifed/src/batch.rs:818-824 | what is printed holds no raw tab or carriage return, and what is pasted no other control character |
| `Escapes.PasteEscapeContent` | crates/aifed/src/commands/paste.rs:96-114 | the character loop computes `Escaped` with control characters in hex |
| `DisplayEscapes.EscapeForDisplay` | crates/aifed/src/escape.rs:138-162 | the loop and its fast path compute `Displayed` |
| `DisplayEscapes.DisplayRoundTripsExactly` | crates/aifed/src/escape.rs:112-162 | the edit decoder gives back a shown text if and only if the text has no backslash |
| `DisplayEscapes.DisplayedIsPlain` | crates/aifed/src/escape.rs:112-162 | what is shown holds no control character but tabs and newlines |
| `Decimals.ParsePrinted` | crates/aifed/src/locator.rs:82-85 | a printed number parses back exactly when it fits 64 bits |
| `Decimals.ParseSigned` | crates/aifed/src/locator.rs:82-85 | one plus sign in front of a number changes nothing |
| `Decimals.NoLeadingZero` | crates/aifed/src/locator.rs:131-142 | numbers are printed without leading zeros |
| `Whitespace.BlankExactly` | crates/aifed/src/indent.rs:130-134 | a line is blank if and only if all its characters are white space |
| `Whitespace.WhiteSpaceExactly` | crates/aifed/src/indent.rs:130-134 | the 25 white space characters that trimming removes, by number |
| `Scanners.Scanner.constructor` | crates/aifed/src/scanner.rs:43-45 | all tokens of the input are pending |
| `Scanners.Scanner.NextToken` | crates/aifed/src/scanner.rs:48-50 | delivers the first pending token, end or error, and leaves the rest pending |
| `Scanners.Scanner.PeekToken` | crates/aifed/src/scanner.rs:56-64 | reports what comes next and leaves what is pending as it was |
| `Scanners.Scanner.ScanToken` | crates/aifed/src/scanner.rs:79-116 | computes the next token of `Lexed`, ends on every input, and consumes at least one character for each token |
| `Scanners.Scanner.SkipWhitespace` | crates/aifed/src/scanner.rs:130-138 | stops after the longest run of ASCII white space |
| `Scanners.Scanner.SkipToEol` | crates/aifed/src/scanner.rs:141-151 | stops at the next newline or the end |
| `Scanners.Scanner.ScanQuoted` | crates/aifed/src/scanner.rs:157-192 | finds the closing quote past escaped characters, or the right error at the right place |
| `Scanners.Scanner.ScanUnquoted` | crates/aifed/src/scanner.rs:196-219 | takes the longest non-empty run of word characters; the empty token of the retry never arises |
| `Scanners.Scanner.ScanIndent` | crates/aifed/src/scanner.rs:223-264 | reads sign and digits of `@N`, with missing digits and magnitudes over the 32-bit limit as errors |
| `Scanners.SpansTile` | crates/aifed/src/scanner.rs:79-264 | the tokens of error-free text are non-empty, in order and disjoint, with only white space and comments between, before and after them |
| `Locators.ParseWellFormed` | crates/aifed/src/locator.rs:24-108 | whatever is parsed has ordered bounds, 64-bit numbers and upper-case hashes |
| `Locators.PrintParse` | crates/aifed/src/locator.rs:131-142 | every locator that parsing can yield is printed so that it parses back to itself |
| `Locators.ParseIgnoresCase` | crates/aifed/src/locator.rs:24-108 | texts that differ in upper and lower case parse alike, errors included |
| `Locators.ParseIgnoresBlanks` | crates/aifed/src/locator.rs:24-32 | white space around a locator changes nothing |
| `Locators.ParsePair` | crates/aifed/src/locator.rs:33-79 | what a bracketed pair of boundaries parses to, with blanks around each, and the error for reversed, mixed and zero bounds |
| `Locators.ParseBadHash` | crates/aifed/src/locator.rs:81-99 | a hash is accepted if and only if it consists of base32hex characters |
| `Locators.ParseMalformed` | crates/aifed/src/locator.rs:24-108 | the errors for a missing comma, a missing number before a hash, and text that is no number |
| `BatchLanguage.ExpectLocatorStr` | crates/aifed/src/batch.rs:429-444 | takes one quoted or unquoted token off the scanner, with the error for every other case |
| `BatchLanguage.ExpectToken` | crates/aifed/src/batch.rs:446-478 | takes exactly the expected token, with the error for every other case |
| `BatchLanguage.ParseDeleteLocator` | crates/aifed/src/batch.rs:408-425 | scanner and result move as the definition over token streams says |
| `BatchLanguage.CollectContentTokens` | crates/aifed/src/batch.rs:481-500 | takes the longest run of content tokens, or the error that ends it |
| `BatchLanguage.ParseBody` | crates/aifed/src/batch.rs:343-399 | directive, second directive, contents and their counts are accepted and rejected as the definition over token streams says |
| `BatchLanguage.ParseBatchOperations` | crates/aifed/src/batch.rs:294-403 | the loop over the scanner computes `ParseOps` of the tokens of the whole input, errors included |
| `BatchPrinting.ParsedOpsParsable` | crates/aifed/src/batch.rs:294-403 | for every input, the operations parsed have a hashed locator, legal contents without newlines and a directive within 32 bits |
| `BatchPrinting.ParseTextOfAll` | crates/aifed/src/batch.rs:294-403 | written with a quoted locator, every list of parsable operations parses to itself, ranges included |
| `BatchPrinting.ParserImage` | crates/aifed/src/batch.rs:294-403 | a list of operations is the parse of some input if and only if all of them are parsable |
| `BatchPrinting.LexedOp` | crates/aifed/src/batch.rs:805-816 | the printed text of an operation scans to its operator, locator, directive and one quoted token a line |
| `BatchPrinting.PrintParseOps` | crates/aifed/src/batch.rs:805-824 | printed operations, joined by newlines, parse back to the same list if and only if no insertion or replacement is anchored at a range; otherwise parsing fails at its locator |
| `BatchContents.MixedContent` | crates/aifed/src/batch.rs:519-551 | bare words, or bare words and quoted texts mixed, are one line of their decoded texts with single spaces between them, and parsing goes on behind it |
| `BatchContents.UnquotedLine` | crates/aifed/src/batch.rs:519-551 | an insertion followed by an unquoted line of words inserts exactly that line |
| `BatchContents.SeparatorsExactly` | crates/aifed/src/scanner.rs:196-219 | a character between two words separates them without a trace if and only if it is space, tab, newline, form feed or carriage return |
| `BatchErrors.WordEndsExactly` | crates/aifed/src/scanner.rs:196-219 | a character ends a word if and only if it is one of those five, a bracket, a comma or a quote |
| `BatchErrors.DirectiveExactly` | crates/aifed/src/scanner.rs:223-264 | a directive with or without sign is its number, or an error if that exceeds 2147483647 |
| `BatchErrors.DirectiveWithout` | crates/aifed/src/scanner.rs:223-264 | a directive without digits is an error |
| `BatchErrors.OpenQuote` | crates/aifed/src/scanner.rs:157-192 | a quote that is not closed, or not on its line, is an error, each its own |
| `BatchErrors.ContentDecodes` | crates/aifed/src/batch.rs:554-575 | a content is its decoded escapes, or the error for a bad escape or for a newline in it |
| `BatchErrors.PrintedExactly` | crates/aifed/src/batch.rs:343-399 | the text of any operation at one line parses to it unless it lacks a hash, deletes with a directive, writes nothing, or replaces by several lines; each of these has its own error |
| `BatchErrors.SecondDirective` | crates/aifed/src/batch.rs:343-365 | a second directive is an error |
| `BatchErrors.NoOperation` | crates/aifed/src/batch.rs:294-341 | text that begins with no operator, an operator without a locator, and one with a bad locator are errors |
| `Indents.Analyze` | crates/aifed/src/indent.rs:121-163 | the nested loops compute `AnalysisOf` |
| `Indents.ScanMixedExact` | crates/aifed/src/indent.rs:146-156 | the scan that remembers a space finds exactly the runs with a space before a tab |
| `Indents.AnalysisDescribes` | crates/aifed/src/indent.rs:121-163 | every field of the analysis is what the indented lines of the file make it |
| `Indents.ClassifyTab` | crates/aifed/src/indent.rs:165-198 | a file classifies as tabs if and only if it has indented lines and all start with a tab and have no space before a tab |
| `Indents.ClassifySpace` | crates/aifed/src/indent.rs:165-198 | a file classifies as `w` spaces if and only if all indented lines are multiples of `w` spaces, one is `w` and another is not |
| `Indents.ClassifyMixed` | crates/aifed/src/indent.rs:165-198 | a file is mixed if and only if an indented line has a space before a tab, or one starts with a tab and another with a space |
| `Indents.OneLineFits` | crates/aifed/src/indent.rs:196-198 | one more line keeps the class of a file if and only if it fits the style |
| `Indents.DirectiveIndents` | crates/aifed/src/indent.rs:241-277 | `@N` puts the content, less the blanks it begins with, exactly N levels deeper than its anchor, in tabs or in multiples of the width, or at the margin; `@0` copies the anchor's indentation |
| `Indents.DirectiveFits` | crates/aifed/src/indent.rs:241-277 | a line made by `@N` fits the style of the file it is made for, unless `@0` copies a blank line |
| `Indents.CopiedIndentExactly` | crates/aifed/src/indent.rs:249-254 | `@0` keeps the style if and only if the content is blank or the copied run is in style |
| `Indents.BlankAnchorMixes` | crates/aifed/src/indent.rs:249-254 | a tab file that stops being one when `@0` is anchored at a blank line of spaces |
| `Indents.ConfiguredStyle` | crates/aifed/src/indent.rs:205-239 | the style a configuration resolves to is the file's own or in conflict with it, unless a finer width of spaces is forced |
| `Indents.ResolvedExactly` | crates/aifed/src/indent.rs:205-239 | a forced style conflicts with the file if and only if some indented line is not in that style |
| `Indents.FinerWidthInstance` | crates/aifed/src/indent.rs:205-277 | with width 2 forced on a file of four spaces a level, `@1` makes six spaces and the file loses its class |
| `BatchEdits.ValidateOperation` | crates/aifed/src/batch.rs:38-126 | a validated operation keeps its kind and names an existing line; only an insertion can name line 0 |
| `BatchEdits.ValidateRange` | crates/aifed/src/batch.rs:652-702 | every line an accepted range deletes exists |
| `BatchEdits.DeleteRange` | crates/aifed/src/batch.rs:704-707 | the loop adds the lines from start to end to the deletions and nothing else |
| `BatchEdits.AddOne` | crates/aifed/src/batch.rs:650-728 | one operation is validated and added, or its error is reported and the plan is as the specification says |
| `BatchEdits.ExecuteAtomic` | crates/aifed/src/batch.rs:637-733 | the two phases compute the new lines and changes of the whole batch, or its first error |
| `BatchEdits.ErrorStays` | crates/aifed/src/batch.rs:650-728 | the first failing operation decides the outcome, with its own index and error |
| `BatchEdits.PlanValid` | crates/aifed/src/batch.rs:648-728 | the plan of an accepted batch names only lines of the file |
| `BatchEdits.ResultLines` | crates/aifed/src/batch.rs:730-733 | every line of the result is an original or an inserted line, and without deletions no original line is lost |
| `BatchEdits.ResultNewlineFree` | crates/aifed/src/batch.rs:566-575 | no accepted batch puts a newline inside a line |
| `BatchEdits.EmptiesExactly` | crates/aifed/src/batch.rs:245-276 | an accepted batch leaves no line if and only if all its operations are deletions and they cover every line |
| `BatchEdits.ReplaceIsDeleteInsert` | crates/aifed/src/batch.rs:216-239 | a replacement plans what a deletion followed by an insertion at the same line plans |
| `BatchEdits.DifferentLinesCommute` | crates/aifed/src/batch.rs:216-239 | operations at different lines, and deletions anywhere, can be listed in either order |
| `BatchMeaning.AcceptedExactly` | crates/aifed/src/batch.rs:38-186 | a batch is accepted if and only if every operation names existing lines with the right hashes, has what it needs to write, and has a directive that can be followed, each condition written out |
| `BatchMeaning.RefusedExactly` | crates/aifed/src/batch.rs:648-728 | a batch is refused with the number and the error of its first operation that cannot be made, the condition of every error written out |
| `BatchMeaning.BatchLeaves` | crates/aifed/src/batch.rs:197-276 | an accepted batch leaves every line that no operation deletes or replaces, and after each line what the insertions and replacements there write, in the order of the batch |
| `BatchMeaning.WrittenInOrder` | crates/aifed/src/batch.rs:216-239 | of two operations at one line the earlier one's lines come first |
| `BatchEdits.DirectivesKeepStyle` | crates/aifed/src/batch.rs:132-186 | every batch of insertions with directives, no `@0` at a blank line, leaves a file of known style in that style, if and only if directives are disabled or no finer width of spaces is forced |
| `BatchEdits.FinerWidthBreaks` | crates/aifed/src/batch.rs:132-186 | for every file with a finer width forced, one accepted insertion with a directive ends its style |
| `Clipboard.BuildPasteInput` | crates/aifed/src/commands/paste.rs:72-77 | the loop builds the operation text of the clipboard's lines |
| `Clipboard.PasteParses` | crates/aifed/src/commands/paste.rs:72-79 | for any clipboard text and hashline, the generated text parses to one insertion of the newline-split clipboard |
| `Clipboard.PasteInserts` | crates/aifed/src/commands/paste.rs:50-88 | pasting succeeds if and only if the anchor is the virtual line or an existing line with the right hash, and yields prefix, clipboard lines, suffix |
| `Clipboard.CopyPaste` | crates/aifed/src/commands/copy.rs:89-90 | lines copied from one file appear unchanged and in order after the anchor in another |
| `History.HistoryManager.constructor` | crates/aifed-daemon/src/history/manager.rs:70-72 | no files, first id 1 |
| `History.HistoryManager.RecordAccess` | crates/aifed-daemon/src/history/manager.rs:76-85 | only the file's last known hash changes |
| `History.HistoryManager.RecordEdit` | crates/aifed-daemon/src/history/manager.rs:89-129 | accepted if and only if the hash is unknown or the expected one; then one entry with the next id is pushed, the redo stack cleared and the oldest entry past fifty dropped |
| `History.HistoryManager.Undo` | crates/aifed-daemon/src/history/manager.rs:160-190 | answers the inverse of the last undo entry and, unless dry, moves the entry to the redo stack |
| `History.HistoryManager.Redo` | crates/aifed-daemon/src/history/manager.rs:195-222 | answers the last redo entry and, unless dry, moves it back |
| `History.HistoryManager.GetHistory` | crates/aifed-daemon/src/history/manager.rs:226-242 | the undo entries, most recent first, at most `count` |
| `History.UndoRedoKeepEntries` | crates/aifed-daemon/src/history/manager.rs:160-222 | undo and redo move the boundary between the stacks and keep the sequence of all entries |
| `History.CallBounded` | crates/aifed-daemon/src/history/manager.rs:89-222 | every operation keeps the bound of fifty, increasing ids and ids distinct across files |
| `History.HistoryBounded` | crates/aifed-daemon/src/history/manager.rs:89-222 | for any number of files and any sequence of fewer than 2^64 - 1 operations, at most 50 entries a file, ids increasing and distinct across files |
| `Workspaces.Workspace.Edit` | crates/aifed/src/batch.rs:580-765 | file, history and outcome after an edit, dry runs and every error included |
| `Workspaces.Workspace.RenameSymbol` | crates/aifed/src/commands/lsp.rs:376-406 | files, histories and outcome after a rename over any number of files, dry runs included: all files are prepared before one is written |
| `Workspaces.Workspace.PrepareFile` | crates/aifed/src/commands/lsp.rs:178-200 | the text a rename will write to one file, or its error |
| `Workspaces.RenameIsARun` | crates/aifed/src/commands/lsp.rs:376-406 | a rename over any list of files writes nothing if and only if one of them cannot be edited; else it is the run of the renames of the single files, if no file is listed again after a listing that changes it |
| `Workspaces.RenameLeaves` | crates/aifed/src/commands/lsp.rs:391-405 | for each file, however often it is listed: the text of its last listing is on disk, and the daemon will record the next edit if and only if that text has the hash of the first listing's |
| `Workspaces.TwiceRenamed` | crates/aifed/src/commands/lsp.rs:391-405 | a file listed twice is renamed as by two renames if and only if the first changes nothing, or both give one text and the second fails after the first |
| `Workspaces.Workspace.Read` | crates/aifed/src/commands/read.rs:18-35 | a read changes nothing but the daemon's hash of the file |
| `Workspaces.Workspace.Undo` | crates/aifed/src/commands/undo.rs:17-51 | file, history and outcome after an undo |
| `Workspaces.Workspace.Redo` | crates/aifed/src/commands/redo.rs:17-52 | file, history and outcome after a redo |
| `Workspaces.Workspace.Apply` | crates/aifed/src/commands/undo.rs:27-51 | the client's half: text check, hash check, in-place replay, write and new hash, in that order |
| `Workspaces.FailureChangesNothing` | crates/aifed/src/batch.rs:577-660 | a failing command writes no file, and leaves the world alone if and only if it is not an undo or redo of an existing file with an entry; dry runs change nothing |
| `Workspaces.EditRefusedExactly` | crates/aifed/src/batch.rs:580-660 | when an edit fails, and with which error |
| `Workspaces.DryRunsForetell` | crates/aifed/src/batch.rs:730-764 | dry runs of edits and renames answer what the real run would; those of undo and redo differ if and only if the client would refuse |
| `Workspaces.UndoRefusedExactly` | crates/aifed/src/commands/undo.rs:17-51 | an undo fails if and only if there is no file, no entry, or a non-empty entry with a file that is no text or has another hash, each with its own error; only the last kind moves the entry |
| `Workspaces.RedoRefusedExactly` | crates/aifed/src/commands/redo.rs:17-52 | the same of redo |
| `Timelines.EditCarries` | crates/aifed/src/batch.rs:730-764 | what an accepted edit writes is what the simple editor gives, with diffs that lead there and back |
| `Timelines.UndoWorld` | crates/aifed/src/commands/undo.rs:22-51 | an undo that finds an entry writes the version before |
| `Timelines.RedoWorld` | crates/aifed/src/commands/redo.rs:22-52 | a redo that finds an entry writes the version after |
| `Timelines.Elsewhere` | crates/aifed-daemon/src/history/manager.rs:76-222 | a command on one file leaves every other file and its history alone |
| `Timelines.StepRefines` | crates/aifed-daemon/src/history/manager.rs:89-222 | one command keeps the file, the stacks and the hash in step with an editor that stores whole versions |
| `Timelines.RunRefines` | crates/aifed-daemon/src/history/manager.rs:89-222 | so does every run of commands on any number of files, for each file no other program writes meanwhile, evictions included |
| `Timelines.RunFromStart` | crates/aifed-daemon/src/history/manager.rs:70-222 | from a file without history, after any such run: the file is the current version, undo entry i leads from version i to i + 1, the redo stack holds the rest in reverse |
| `Timelines.UndoRedoWorld` | crates/aifed/src/commands/redo.rs:22-52 | a redo right after an undo restores files, both stacks and hashes exactly |
| `Timelines.UndosThenRedos` | crates/aifed/src/commands/undo.rs:22-51 | `k` undos bring back the version `k` steps ago and `k` redos after them restore the whole world |
| `Timelines.EditsThenUndos` | crates/aifed-daemon/src/history/manager.rs:114-123 | any number of accepted edits from any point of a history, followed by as many undos, leave the file as it was before the last fifty of them |
| `UndoLimits.UndoRestoresExactly` | crates/aifed/src/file.rs:110-124 | with or without an outside write before it, the undo right after an accepted batch restores the file if and only if: recorded, the batch left a line and wrote text; unrecorded, it changed nothing, or it gave the daemon's version from the one before |
| `UndoLimits.UndoAfterRecorded` | crates/aifed/src/file.rs:110-124 | the undo of a recorded edit gives the file back, with one newline more if the edit left no line |
| `UndoLimits.UndoAfterOutsideWrite` | crates/aifed-daemon/src/history/manager.rs:89-110 | after an outside write and an unrecorded edit, the undo brings back the version before the daemon's if the edit gave the daemon's, leaves the edited text if its hash is another, and moves the entry of the last recorded edit |
| `UndoLimits.UnrecordedEdit` | crates/aifed-daemon/src/history/manager.rs:101-107 | edit, outside write, edit, undo from a file the daemon has not seen: the undo is refused, the file stays edited, the first edit's entry has moved |
| `UndoLimits.EmptyingBatch` | crates/aifed/src/file.rs:110-124 | on any file of one line, deleting that line empties the file and the undo leaves a newline too many |
| `UndoLimits.RefusedUndoMovesEntry` | crates/aifed-daemon/src/history/manager.rs:180-187 | after any outside write, when the undo fails; it then leaves the file, yet the entry has moved and the history no longer matches the restored file |
| `UndoLimits.RefusedRedoMovesEntry` | crates/aifed-daemon/src/history/manager.rs:211-219 | the same of redo |
| `UndoLimits.StaleUndo` | crates/aifed-daemon/src/history/manager.rs:76-85 | after an edit, an outside write and a read, the undo succeeds, and gives the lines from before the edit if and only if the text found and the edited one agree once the lines numbered by the edit's insertions are dropped from both |
| `UndoLimits.StaleUndoMisplaces` | crates/aifed-daemon/src/history/manager.rs:76-85 | the undo of an insertion below `a`, after a line was put on top, succeeds, removes `a` and keeps the inserted line |
| `Outlines.ShallowerBefore` | crates/aifed/src/outline/markdown.rs:89-97 | the nearest earlier shallower heading, or none if all earlier ones are as deep |
| `Outlines.Closer` | crates/aifed/src/outline/markdown.rs:76-79 | the next heading as shallow or shallower, or none if all later ones are deeper |
| `Outlines.ParentOnTop` | crates/aifed/src/outline/markdown.rs:89-97 | after popping, the top of the stack is the nearest earlier shallower heading |
| `Outlines.PushStack` | crates/aifed/src/outline/markdown.rs:89-110 | the stack always holds exactly the open sections |
| `Outlines.AddHeading` | crates/aifed/src/outline/markdown.rs:88-111 | one turn of the main loop keeps nodes, parents and stack what they are to be for one heading more |
| `Outlines.TrimEnd` | crates/aifed/src/outline/markdown.rs:115-120 | the loop that removes trailing blank lines computes `TrimBlank` |
| `Outlines.LinkChildren` | crates/aifed/src/outline/markdown.rs:123-128 | every heading gets exactly the headings whose parent it is, in order |
| `Outlines.Build` | crates/aifed/src/outline/markdown.rs:130-136 | the recursion assembles the tree of a heading |
| `Outlines.BuildTree` | crates/aifed/src/outline/markdown.rs:80-144 | for any heading list and file, the stack algorithm computes the declarative outline |
| `Outlines.OutlinePreOrder` | crates/aifed/src/outline/markdown.rs:130-143 | walking the outline in pre-order meets every heading once, in document order |
| `Outlines.OutlineChildren` | crates/aifed/src/outline/markdown.rs:80-144 | in the tree, an item's children are exactly the items whose nearest earlier shallower heading is its own, in order, and the roots those with none |
| `Outlines.OutlineEnds` | crates/aifed/src/outline/markdown.rs:88-121 | in the tree, every item ends at the last non-blank line before the next heading as shallow or shallower, or before the end of the file |
| `Outlines.OutlineNests` | crates/aifed/src/outline/markdown.rs:80-144 | in the tree, children lie inside their parent below its heading, and siblings, the roots included, do not overlap |
| `Outlines.SectionExact` | crates/aifed/src/outline/markdown.rs:94-121 | a section ends at the last non-blank line before the next heading as shallow or shallower, or before the end of the file |
| `Outlines.ChildrenNest` | crates/aifed/src/outline/markdown.rs:89-121 | a child's section lies inside its parent's |
| `Outlines.SiblingsDisjoint` | crates/aifed/src/outline/markdown.rs:89-121 | sections with the same parent do not overlap |
| `LspServers.LanguageServerManager.constructor` | crates/aifed-daemon/src/lsp/manager.rs:70-72 | no servers, no configurations |
| `LspServers.LanguageServerManager.RegisterConfig` | crates/aifed-daemon/src/lsp/manager.rs:75-78 | one more configured language, no server touched |
| `LspServers.LanguageServerManager.MarkFailed` | crates/aifed-daemon/src/lsp/manager.rs:128-131 | an existing entry fails and keeps its client; a missing one stays missing |
| `LspServers.LanguageServerManager.Start` | crates/aifed-daemon/src/lsp/manager.rs:81-189 | the servers and the result of a start nobody interferes with, for every way its exchanges can go |
| `LspServers.LanguageServerManager.Stop` | crates/aifed-daemon/src/lsp/manager.rs:196-220 | the servers and the result of a stop, shut down well or badly |
| `LspServers.LanguageServerManager.EnsureRunning` | crates/aifed-daemon/src/lsp/manager.rs:363-376 | a usable server is left alone, any other is started |
| `LspServers.LanguageServerManager.GetEntry` | crates/aifed-daemon/src/lsp/manager.rs:379-390 | hands out the client if and only if the server runs and has one |
| `LspServers.AloneIsARun` | crates/aifed-daemon/src/lsp/manager.rs:81-189 | when only one start acts, the interleaved system does what `Start` does |
| `LspServers.StartOutcome` | crates/aifed-daemon/src/lsp/manager.rs:81-189 | result, entry and everything else after the steps of an undisturbed start, for every way it can end |
| `LspServers.StopOutcome` | crates/aifed-daemon/src/lsp/manager.rs:196-220 | a stop whose shutdown fails keeps the client in a failed server; any other stop of a known server leaves it stopped without a client |
| `LspServers.ClientStays` | crates/aifed-daemon/src/lsp/manager.rs:81-220 | in every reachable state, a client is lost only to a successful stop, a restart of a failed server or another start's client |
| `LspServers.RunningHasClient` | crates/aifed-daemon/src/lsp/manager.rs:81-220 | in any interleaving, a running server has a client and a client exists only while running or failed |
| `LspServers.RunSound` | crates/aifed-daemon/src/lsp/manager.rs:81-220 | in any interleaving, every client was made by a start of the same key that returned success |
| `LspServers.AtMostOneStarter` | crates/aifed-daemon/src/lsp/manager.rs:85-107 | at most one start of a key is ever past the gate, whoever starts next, if and only if no stop of the key comes while a start of it is under way |
| `LspServers.StartingExactly` | crates/aifed-daemon/src/lsp/manager.rs:85-134 | in such a run, restarts included, the entry says starting if and only if a start begun since the last stop is under way or was abandoned |
| `LspServers.RunKeepsRunning` | crates/aifed-daemon/src/lsp/manager.rs:85-107 | a running server, restarted or not, has the same client after any further steps if and only if none of them stops it |
| `LspServers.AbandonedStartBlocks` | crates/aifed-daemon/src/lsp/manager.rs:109-143 | after an abandoned start the key stays blocked if and only if it is never stopped; the entry then stays starting and every later start returns success at once |
| `LspServers.StopReopensGate` | crates/aifed-daemon/src/lsp/manager.rs:196-220 | in every reachable state with a start under way, a stop and another start leave two under way |
| `LspServers.LaterClientReplaces` | crates/aifed-daemon/src/lsp/manager.rs:172-186 | from every reachable state with a start under way, a stop and another start lead to two successful starts of which the first one's client is in no entry |
| `LspServers.EnsuredExactly` | crates/aifed-daemon/src/lsp/manager.rs:363-376 | in every reachable state, a start during which nothing else acts leaves a usable server if and only if the server already ran, or no other start holds the key, it is configured and every exchange goes well |
| `Framing.MessageLoop` | crates/aifed-daemon/src/lsp/client.rs:146-194 | the two nested loops over the input compute `ReadMessages` |
| `Framing.LengthLineDeclares` | crates/aifed-daemon/src/lsp/protocol.rs:96-106 | the header written for a length is a legal field and declares that length |
| `Framing.LengthSpellings` | crates/aifed-daemon/src/lsp/protocol.rs:100-106 | both spellings of the length header declare their number after any white space, other headers declare nothing |
| `Framing.ReadFields` | crates/aifed-daemon/src/lsp/client.rs:154-178 | a block of header fields in any order and spelling is read to its end, and the last declared length counts |
| `Framing.SkippedBlock` | crates/aifed-daemon/src/lsp/client.rs:180-183 | a block of headers without a length is skipped |
| `Framing.UnreadableLine` | crates/aifed-daemon/src/lsp/client.rs:156-173 | a header line that is no UTF-8 ends the headers as an empty line does |
| `Framing.ReadFrame` | crates/aifed-daemon/src/lsp/client.rs:150-189 | a message with any header fields gives its body and leaves the rest of the input |
| `Framing.ReadStream` | crates/aifed-daemon/src/lsp/client.rs:150-189 | a stream of such messages gives their bodies in order |
| `Framing.FramingRoundTrip` | crates/aifed-daemon/src/lsp/protocol.rs:95-106 | reading concatenated encodings yields the bodies in order, whatever bytes they contain |
| `Framing.TruncatedStream` | crates/aifed-daemon/src/lsp/client.rs:156-189 | a stream that breaks off inside a message delivers the messages before it and nothing else, except an empty last message whose final byte is missing |

## Left out

- HTTP routing, tokens, lock files, process spawning, timeouts, idle timer, logging: behaviour of the operating system.
- JSON and terminal rendering, change summaries, timestamps, clipboard storage, configuration merging, the symbol locator.
- Tree-sitter parsing: the heading list is given. `ItemKind`, `has_body` and `detail` of an outline item are constant there.
- xxHash and the text check of `read_text_file`: uninterpreted functions of the content.
- `json_escape`: its decoder is specified by section 7 of RFC 8259; a lone surrogate escape counts as an error.
- The `old_hash` field of a diff, which no command sets or reads, and diffs with neither old nor new content as edits (their inversion is modelled).
- Scanners.Scanner.ScanToken: positions count characters instead of bytes, and line and column, used in messages only, are not modelled; nor is the retry on an empty unquoted token, which `ScanUnquoted` shows to be unreachable.
- BatchLanguage.ParseBatchOperations: errors are kinds without their messages and line numbers.
- TextEdits.PositionToByteOffset: positions count characters, as the code does, where the protocol counts UTF-16 units.
- EqualStarts.EqualStartsReverse: where an insertion before a replacement holds a newline, agreement of every group is shown sufficient for the listed result; `GroupsMakeUp` shows that it is not necessary.
- UndoLimits.UndoRestoresExactly: silent on an unrecorded edit whose text differs from the one the daemon knows but has its hash; the undo then replays the last recorded edit's inverse on that text (`UndoAfterUnrecorded`).
- Indents.Analyze: the number of spaces of a line is unbounded, where the code truncates it to 32 bits. Levels wrap around at 32 bits as in a release build; a debug build panics instead.
- History.HistoryBounded: for fewer than 2^64 - 1 operations, after which the id counter wraps around (the model wraps it too).
- Workspaces.Workspace.RenameSymbol: the rename records its diffs in the background, in no fixed order; the model records them as it writes the files.
- Workspaces.Workspace.Edit: an edit without a daemon is, for the history, a write by another program (`OutsideWrite`). Paths are canonical, and I/O errors other than a missing file are not modelled.
- Timelines.RunRefines: for runs in which no other program writes the file, every edit leaves a line, and what is written still counts as text.
- LspServers.LanguageServerManager.Start: a failed exchange and the lock acquisition that records it are one step, since nothing can be observed between them; a client is a name, and dropping one has no effect in the model.
- Framing.MessageLoop: ends where the input ends; errors of the pipe other than its end, allocation failure for a huge declared length, and what is done with a body are not modelled.
