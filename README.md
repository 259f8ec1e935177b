# review-for-agent in Dafny

review-for-agent shows the uncommitted changes of a git work tree as a diff
in the browser and lets a reviewer attach comments to single lines, to line
ranges or to whole files. The comments are then sent to a small Go server,
which writes them to `rfa/comments_<hash>.json` and to a Markdown report
`rfa/comments_<hash>.md`, and hands back a clipboard text that points an
agent at the report.

This project models the core of that system and proves its properties:

- **The browser session** (`session.dfy`, module `ReviewApp`). The page's
  state is a class `Session` with these fields:
  - the saved comments and the id counter;
  - the range anchor and the open line draft;
  - the open file-level editor;
  - the submitted flag and the status text.

  There is one method per event handler of the page. Every handler keeps
  the session invariant `Consistent`:
  - ids come from the counter in increasing order;
  - every comment is well shaped;
  - at most one editor is open;
  - an anchor exists only together with the single-line draft opened at it.

  Beside the class are the pure helpers the page renders with: the line
  label, the file name, the file statistics and the per-file comment index.
- **The records** (`types.dfy`, module `ReviewTypes`) and **the bridge to
  the diff renderer** (`diff_adapter.dfy`, module `DiffAdapter`). The bridge
  covers:
  - converting between the renderer's sides and the comments' sides;
  - the highlighted range;
  - the per-line overlays;
  - flattening the parsed patch.
- **The server's diff scanner** (`diff_scan.dfy`, module `DiffScan`,
  `parseDiffLines`). A loop over the diff's lines is proved equal to a left
  fold `Scan` of a one-line step function `Step`. The properties are stated
  against `Scan`: file headers, skipped metadata, hunk headers that set the
  two counters, and consecutive numbering of body lines. A trace property
  says every entry comes from the input under a file that a header named.
- **The server's report** (`markdown.dfy`, module `ReviewMarkdown`,
  `formatMarkdown`). The grouping loop, the quoting loop and the per-file
  loops are proved to build the report that the function `Markdown`
  specifies. Lemmas state that:
  - files come in first-seen order;
  - every comment lands in exactly one group of its file;
  - headings tell ranges apart;
  - the global note only adds its paragraph after the preamble.
- **The server's git arguments** (`git_args.dfy`, module `GitArgs`). The
  ignore settings are a class `IgnoreSettings`. Its methods are
  `configureRFAIgnore` with its three outcomes, `buildPathspecExcludes`,
  and the argument vectors of `git diff HEAD` and `git ls-files`.
- `strings.dfy` (module `Strings`) gives the Go `strings`/`strconv` and
  JavaScript `trim` helpers the code calls their meaning, with their own
  lemmas. Examples: `SplitJoin` and `Atoi(Itoa(i)) == i`.
  `wrappers.dfy` holds `Option`.

In these places the model follows the code as written:
- A successful submission does not clear the draft or the anchor.
- After submission, line clicks do nothing, the file-level form is no
  longer shown (App.tsx:285), and the note and the Submit button take no
  input (App.tsx:696, 716). So `FileCommentFormSave`, `FileCommentKeyDown`,
  `HandleSubmit` and `GlobalNoteKeyDown` require a session that is not
  submitted. Toggling a file-level editor, the line draft's Save and the
  Delete buttons are not blocked.
- Removing a comment filters out every comment with that id and returns
  nothing.
- The handlers do no validation. The empty-body guard lives in the two
  editors' Save buttons (`LineDraftFormSave`, `FileCommentFormSave`).

The scanner follows `parseDiffLines` as written:
- Only `+++ b/` starts a file. A `+++ /dev/null` line is therefore recorded
  as an added line of the current file (`DeletedFileHeaderRecorded`).
- Body lines before the first file header are dropped.
- Hunk numbers are read with `strconv.Atoi`, and its error is discarded. A
  non-digit after digits that fit in 64 bits makes the number 0
  (`AtoiStopsAtNonDigit`). A digit run that already exceeds 2^64 - 1
  saturates, whatever follows it (`AtoiOverflowSaturates`).

## Model

| member | source | states |
|---|---|---|
| ReviewTypes.SideName | frontend/src/types.ts:1 | a side is spelled `left` exactly when it is the pre-image side, otherwise `right` |
| ReviewTypes.ParseSide | frontend/src/types.ts:1 | only the two names `left` and `right` are sides |
| ReviewTypes.SideNameRoundTrip | frontend/src/types.ts:1 | spelling and parsing a side are inverse, both ways |
| ReviewTypes.WithoutIdRoundTrip | frontend/src/types.ts:12 | a submitted comment is a saved comment without its id: dropping and restoring the id is the identity in both orders |
| DiffAdapter.ToCommentSide | frontend/src/diffAdapter.ts:27-29 | deletions map to `left`, everything else to `right` |
| DiffAdapter.ToAnnotationSide | frontend/src/diffAdapter.ts:31-33 | `left` maps to deletions, `right` to additions |
| DiffAdapter.SideConversionRoundTrip | frontend/src/diffAdapter.ts:27-33 | the two side conversions are inverse bijections |
| DiffAdapter.CreateSelectedRange | frontend/src/diffAdapter.ts:35-47 | no highlight without a draft; otherwise the draft's bounds, starting and ending on the draft's column |
| DiffAdapter.LineScoped | frontend/src/diffAdapter.ts:52-56 | the comments that get an overlay are exactly those with a start line |
| DiffAdapter.LineScopedAppend | frontend/src/diffAdapter.ts:52-56 | filtering commutes with concatenation, so overlays keep the comment order |
| DiffAdapter.OverlaysPerComment | frontend/src/diffAdapter.ts:52-65 | one overlay per line-scoped comment, in order, each on the comment's start line and column |
| DiffAdapter.CreateLineAnnotations | frontend/src/diffAdapter.ts:49-79 | the overlays are, in order, one per line-scoped comment at its start line and column, then one for the draft, if any, at the draft's start line |
| DiffAdapter.FlattenMembers | frontend/src/diffAdapter.ts:18-22 | flattening keeps every file of every group and adds none |
| DiffAdapter.FlattenAppend | frontend/src/diffAdapter.ts:18-22 | flattening keeps the group order |
| DiffAdapter.ParsePatchToFileDiffs | frontend/src/diffAdapter.ts:10-25 | a blank patch gives no files; otherwise every group's files, group after group |
| ReviewApp.FormatLineRef | frontend/src/App.tsx:27-37 | the label is `(file-level)` exactly when there is no start line |
| ReviewApp.FormatLineRefInjective | frontend/src/App.tsx:27-37 | equal labels of non-negative 64-bit line numbers denote the same range, with an absent or equal end meaning one line |
| ReviewApp.LineRefShape | frontend/src/App.tsx:32-36 | the label's fifth character is `s` exactly for a real range |
| ReviewApp.RangeLabel | frontend/src/App.tsx:32-33 | a range label is `Lines ` followed by start, dash and end |
| ReviewApp.SingleLabel | frontend/src/App.tsx:36 | a single-line label is `Line ` followed by the start |
| ReviewApp.DashSplit | frontend/src/App.tsx:33 | two digit strings joined by a dash split back uniquely |
| ReviewApp.GetFileName | frontend/src/App.tsx:39-41 | the shown name is the name, else the previous name, else `(unknown file)`; never empty |
| ReviewApp.TotalsAppend | frontend/src/App.tsx:43-53 | the addition and deletion totals add up over consecutive runs of hunks |
| ReviewApp.GetFileStats | frontend/src/App.tsx:43-53 | the badge counts are the sums of the hunks' added and removed lines |
| ReviewApp.Bucket | frontend/src/App.tsx:465-469 | a bucket holds exactly the comments of its file and kind |
| ReviewApp.CommentsByFile | frontend/src/App.tsx:457-472 | the index has one entry per commented file, holding that file's line-scoped and file-level comments in store order |
| ReviewApp.IndexStep | frontend/src/App.tsx:459-470 | adding one comment to the index of a store gives the index of the extended store |
| ReviewApp.CommentsForFileAreBuckets | frontend/src/App.tsx:55-57 | looking a file up gives its two buckets, empty ones for a file without comments |
| ReviewApp.RemoveId | frontend/src/App.tsx:513 | the survivors are exactly the comments with a different id |
| ReviewApp.RemoveIdKeepsOrder | frontend/src/App.tsx:512-514 | removal keeps the survivors in order, so increasing ids stay increasing |
| ReviewApp.RemoveAbsentId | frontend/src/App.tsx:512-514 | removing an id nobody carries changes nothing |
| ReviewApp.RemoveIdDropsAtMostOne | frontend/src/App.tsx:512-514 | with increasing ids, removal drops at most one comment |
| ReviewApp.BuildSubmitRequest | frontend/src/App.tsx:565-584 | no request exactly when there are no comments and the note is blank; otherwise the diff, the trimmed note and the comments in order without their ids |
| ReviewApp.Session.constructor | frontend/src/App.tsx:392-401 | the initial session: nothing saved, nothing open, ids from 1, not submitted |
| ReviewApp.Session.OnLineClick | frontend/src/App.tsx:516-544 | a shift-click with an anchor in the same file opens the range between the two lines and drops the anchor; any other click anchors and opens a one-line draft; the file editor closes; the invariant holds |
| ReviewApp.Session.LineNumberClick | frontend/src/App.tsx:258-266 | after submission a click changes nothing; before, it is `onLineClick` with the converted side and the current anchor |
| ReviewApp.Session.OnToggleFileDraft | frontend/src/App.tsx:546-550 | closes draft and anchor and opens the file's editor unless it was the open one |
| ReviewApp.Session.SaveLineDraft | frontend/src/App.tsx:474-491 | without a draft nothing changes; otherwise one comment with the draft's range and the next id is appended and draft and anchor close |
| ReviewApp.Session.CancelLineDraft | frontend/src/App.tsx:493-496 | closes draft and anchor, nothing else |
| ReviewApp.Session.SaveFileComment | frontend/src/App.tsx:498-510 | appends a right-side file-level comment with the next id and closes the file editor |
| ReviewApp.Session.RemoveComment | frontend/src/App.tsx:512-514 | the store loses the comments with that id, keeps the rest in order, and the counter is untouched |
| ReviewApp.Session.LineDraftFormSave | frontend/src/App.tsx:71-77 | a blank body saves nothing; otherwise the trimmed body is saved as the draft's comment |
| ReviewApp.Session.FileCommentFormSave | frontend/src/App.tsx:131-137 | before submission, when the form is shown, a blank body saves nothing; otherwise the trimmed body is saved as a file-level comment |
| ReviewApp.Session.HandleSubmit | frontend/src/App.tsx:564-601 | before submission, while the note and the button take input: nothing to submit alerts and changes nothing; a rejected request alerts with its message and changes nothing; a delivered one marks the session submitted with its status text; comments and editors never change |
| ReviewApp.Session.LineDraftKeyDown | frontend/src/App.tsx:95-101 | Enter with Meta or Ctrl is consumed and saves as the Save button does; any other key changes nothing |
| ReviewApp.Session.FileCommentKeyDown | frontend/src/App.tsx:154-160 | Enter with Meta or Ctrl is consumed and saves the file-level comment as the Save button does; any other key changes nothing |
| ReviewApp.Session.GlobalNoteKeyDown | frontend/src/App.tsx:703-709 | Enter with Meta or Ctrl in the note is consumed and submits as the Submit button does; any other key makes no request and changes nothing |
| ReviewApp.DraftHotkeyScenario | frontend/src/App.tsx:95-101 | in a line draft a plain Enter saves nothing and Meta+Enter saves the draft's comment |
| ReviewApp.NoteHotkeyScenario | frontend/src/App.tsx:703-709 | in the note a plain Enter submits nothing and Ctrl+Enter submits the trimmed note and marks the session submitted |
| ReviewApp.RangeSelectionScenario | frontend/src/App.tsx:516-544 | clicking 5 then shift-clicking 2 selects 2 to 5; clicking and shift-clicking 5 selects 5 alone and uses up the anchor |
| ReviewApp.EndToEndScenario | frontend/src/App.tsx:474-584 | saving a line comment and a file comment in a fresh session submits exactly those two, in order, with their trimmed bodies |
| DiffScan.ParseDiffLines | comments.go:173-240 | the loop yields the entries of the fold `Scan` over the diff's lines |
| DiffScan.ReadHunkHeader | comments.go:194-210 | a hunk header updates the counters as its ranges say, left to right |
| DiffScan.ReadRanges | comments.go:199-207 | a `-` word sets the old counter, a `+` word the new one, others are passed over |
| DiffScan.FileHeaderSelectsFile | comments.go:181-184 | a `+++ b/X` line makes `X` the current file and changes nothing else |
| DiffScan.MetadataIgnored | comments.go:185-193 | `--- `, `diff --git`, `index `, `new file` and `deleted file` lines change nothing |
| DiffScan.ScanTraced | comments.go:173-240 | every key was named by a `+++ b/` line, and every entry is an input line whose numbers fit its marker |
| DiffScan.StepTraced | comments.go:180-237 | one line keeps the trace |
| DiffScan.TracedKeep | comments.go:181-213 | a line that records nothing keeps the trace |
| DiffScan.TracedRecord | comments.go:214-236 | a recorded line keeps the trace |
| DiffScan.NoFileHeaderNoEntries | comments.go:211-213 | a diff without a `+++ b/` line yields no entries and no current file |
| DiffScan.ScanAppend | comments.go:180 | reading lines then more lines is reading their concatenation |
| DiffScan.BodyNumbering | comments.go:211-236 | once a file is selected, a run of body lines is appended to it numbered consecutively on each side, the counters advance by the old-side and new-side counts, and no other file changes |
| DiffScan.ResumeNumbering | comments.go:211-236 | the same numbering from any scanner state with a current file |
| DiffScan.RunStep | comments.go:214-236 | one more body line extends the numbered run |
| DiffScan.BodyStep | comments.go:214-236 | a body line records its entry and bumps the counters its marker calls for |
| DiffScan.DeletedFileHeaderRecorded | comments.go:181-227 | `+++ /dev/null` is no file header: it is recorded as an added line of the current file |
| DiffScan.HunkHeaderSetsCounters | comments.go:194-210 | `@@ -a,b +c,d @@…`, with either count present or left out, sets the counters to a and c and records nothing |
| DiffScan.NewOneLineFileHeader | comments.go:194-210 | git's header for a new one-line file, `@@ -0,0 +1 @@`, sets the counters to 0 and 1 |
| DiffScan.StepHeaderLine | comments.go:194-210 | a line starting `@@ ` only updates the counters |
| DiffScan.TwoRanges | comments.go:199-207 | the ranges `-a[,b]` and `+c[,d]` set the counters to a and c |
| DiffScan.HunkRanges | comments.go:195-198 | the words between the `@@` of a hunk header are its two ranges |
| DiffScan.SplitHeader | comments.go:195 | splitting a header at `@@` gives the empty prefix, the ranges text and the section heading |
| DiffScan.TrimPadded | comments.go:197 | trimming removes the single spaces around the ranges text |
| DiffScan.RangeStartOf | comments.go:201-202 | the number read from a range is its start, with or without a count |
| DiffScan.OtherLineIgnored | comments.go:180-236 | a line opening with none of the characters a header or body line opens with changes nothing |
| DiffScan.NoNewlineMarkerIgnored | comments.go:180-236 | git's `\ No newline at end of file` marker leaves the scan unchanged |
| ReviewMarkdown.FilesInOrder | comments.go:99-108 | the listed files are exactly the commented ones, each once |
| ReviewMarkdown.FirstSeenOrder | comments.go:99-108 | files are listed in the order of their first comment |
| ReviewMarkdown.LinedOf | comments.go:109-113 | a file's line group holds exactly its comments with a start line |
| ReviewMarkdown.FileLevelOf | comments.go:109-113 | a file's file-level group holds exactly its comments without one |
| ReviewMarkdown.GroupsAppend | comments.go:102-114 | grouping keeps the arrival order within each group |
| ReviewMarkdown.NoGroups | comments.go:103-108 | an uncommented file has empty groups |
| ReviewMarkdown.GroupsSnoc | comments.go:102-114 | one comment goes to its file's group of its kind, and a new file is listed last |
| ReviewMarkdown.AddToGroups | comments.go:102-114 | one turn of the grouping loop files one more comment |
| ReviewMarkdown.GroupComments | comments.go:99-114 | the loop gives the files in first-seen order and each file's two groups |
| ReviewMarkdown.EveryCommentPlaced | comments.go:99-114 | every comment's file is listed, and the comment is in exactly the group its start line picks |
| ReviewMarkdown.ContextMembers | comments.go:149-157 | the quoted lines are exactly those whose number on the comment's side lies in the range |
| ReviewMarkdown.ContextAppend | comments.go:149-157 | quoting keeps the diff order |
| ReviewMarkdown.ContextStep | comments.go:150-156 | one diff line is quoted exactly when its side's number is in range |
| ReviewMarkdown.WriteContext | comments.go:149-157 | the quoting loop writes the quote of the in-range lines |
| ReviewMarkdown.QuoteIfCovered | comments.go:150-156 | one turn of the quoting loop |
| ReviewMarkdown.Heading | comments.go:143-147 | the heading is `### Line n` for one line and `### Lines s–e` otherwise |
| ReviewMarkdown.HeadingInjective | comments.go:143-147 | equal headings of 64-bit ranges mean equal ranges |
| ReviewMarkdown.NoEnDash | comments.go:146 | a printed number holds no en dash |
| ReviewMarkdown.WriteHeading | comments.go:143-147 | writes the heading |
| ReviewMarkdown.WriteLined | comments.go:136-159 | writes each line comment's heading, quote and body, in order |
| ReviewMarkdown.WriteBodies | comments.go:164-166 | writes each file-level body on its own line, in order |
| ReviewMarkdown.WriteFileSection | comments.go:133-167 | writes a file's line section and then its file-level section, each only when not empty |
| ReviewMarkdown.WriteSections | comments.go:130-168 | writes the sections of the listed files, in order |
| ReviewMarkdown.FormatMarkdown | comments.go:91-171 | the report is the preamble, the note's paragraph and the sections that `Markdown` specifies, quoting the scanned diff |
| ReviewMarkdown.GlobalCommentPlacement | comments.go:116-128 | the note adds only its paragraph right after the preamble, and the rest does not depend on it |
| ReviewMarkdown.EmptyReview | comments.go:116-128 | without comments the report is the preamble and the note |
| ReviewMarkdown.ClipboardText | comments.go:81 | the clipboard text is the fixed request followed by the report path, and the path can be read back |
| GitArgs.CleanStrips | diff.go:56-58 | cleaning removes at most `./` and then `/` from the trimmed pattern |
| GitArgs.ExcludeOfShape | diff.go:62-65 | an exclusion is the magic plus the pattern, with `**` appended exactly for a directory pattern, and never ends in `/` |
| GitArgs.Translated | diff.go:54-66 | at most one exclusion per cleaned pattern |
| GitArgs.Excludes | diff.go:53-68 | at most one exclusion per pattern |
| GitArgs.ExcludesShape | diff.go:53-68 | every exclusion carries the magic, a pattern after it and no trailing `/` |
| GitArgs.ExcludesAppend | diff.go:53-68 | translation keeps the pattern order |
| GitArgs.ExcludesMembers | diff.go:53-68 | an exclusion is produced exactly for each pattern that does not clean to nothing |
| GitArgs.BuildPathspecExcludes | diff.go:53-68 | the loop yields the translation `Excludes` of the patterns |
| GitArgs.CleanPlain | diff.go:56-58 | a plain pattern cleans to itself |
| GitArgs.PlainExcludes | diff.go:53-68 | plain patterns translate one to one into magic plus pattern |
| GitArgs.AlwaysIgnoredPlain | diff.go:14-17 | the two always-ignored patterns are plain, so each gives its own exclusion |
| GitArgs.Kept | diff.go:35-38 | kept lines are neither empty nor `#` comments |
| GitArgs.KeptMembers | diff.go:33-39 | a trimmed line is kept exactly when it is neither empty nor a comment |
| GitArgs.IgnoreFilePatterns | diff.go:31-39 | the file's patterns are non-empty, not comments, and no more than its lines |
| GitArgs.IgnoreFileMembers | diff.go:31-39 | a pattern is taken exactly when some line trims to it and it is neither empty nor a comment |
| GitArgs.ReadPatterns | diff.go:31-39 | the line loop yields the file's patterns |
| GitArgs.ExcludeFlagsPairs | diff.go:85-87 | the flags are `--exclude` and pattern pairs, in order |
| GitArgs.IgnoreSettings.constructor | diff.go:11-17 | start-up: the always-ignored patterns, no exclusions, no ignore file |
| GitArgs.IgnoreSettings.Configure | diff.go:19-51 | a missing file clears the ignore settings and counts 0; an open or read failure returns its message and changes nothing; otherwise the patterns are counted and translated, and the file is kept only when it gave a pattern |
| GitArgs.IgnoreSettings.Load | diff.go:44-50 | stores the translation and the file path when there were patterns |
| GitArgs.IgnoreSettings.TrackedDiffArgs | diff.go:70-81 | `diff HEAD` alone without exclusions, otherwise followed by `-- .` and the always-ignored and then the file's exclusions, all of them exclusions |
| GitArgs.IgnoreSettings.UntrackedListArgs | diff.go:83-92 | `ls-files --others --exclude-standard`, an `--exclude` pair per always-ignored pattern in order, then `--exclude-from` and the file when one is set |
| Strings.Trim | diff.go:34 | the result has no space at either end, is no longer than the input, and is empty exactly when the input is all whitespace |
| Strings.TrimSlice | diff.go:34 | the result is a contiguous slice of the input with only whitespace before it and only whitespace after it; with `Trim`, this is exactly `strings.TrimSpace` |
| Strings.TrimParts | diff.go:34 | trimming drops a whitespace prefix and keeps the rest, then drops a whitespace suffix of that rest |
| Strings.SliceWithin | diff.go:34 | a whitespace-cut prefix of a whitespace-cut suffix is a slice of the input between two whitespace runs |
| Strings.TrimIdempotent | diff.go:34 | trimming twice is trimming once |
| Strings.TrimPrefix | comments.go:182 | one leading occurrence is removed, or the string is unchanged |
| Strings.Split | comments.go:175 | pieces are never empty as a list, hold no separator, and join back to the input |
| Strings.SplitJoin | comments.go:175 | splitting joined separator-free parts gives them back |
| Strings.Find | comments.go:195 | the first occurrence of the separator, or none |
| Strings.SplitN | comments.go:195 | between one and n pieces that, joined with the separator, give back the input |
| Strings.SplitNPieces | comments.go:195 | every piece but the last ends where the first separator of the remaining text begins, and with fewer than n pieces the last piece holds no separator; with `SplitN`'s join equation this fixes the pieces as `strings.SplitN` cuts them |
| Strings.SplitNPiecesStep | comments.go:195 | a cut at the first separator keeps the pieces cut at first occurrences |
| Strings.SplitNPiecesOne | comments.go:195 | with one piece allowed nothing is cut |
| Strings.SplitNPiecesUncut | comments.go:195 | with no separator present nothing is cut |
| Strings.CutAtFirstCons | comments.go:195 | a first piece followed by its first separator, put in front of pieces cut at first occurrences, keeps that property |
| Strings.FindFirstPiece | comments.go:195 | the text before the first separator, followed by the separator, has its first separator at that position |
| Strings.SameOccurrences | comments.go:195 | the text up to and including its first separator still has the separator at that position and nowhere before it |
| Strings.FindIs | comments.go:195 | an occurrence with none before it is the one `Find` returns |
| Strings.Word | comments.go:198 | the longest whitespace-free prefix |
| Strings.FieldsAreWords | comments.go:198 | every field is a non-empty run without whitespace |
| Strings.FieldsCons | comments.go:198 | a word followed by a space is the first field |
| Strings.NatToString | comments.go:144 | a non-empty string of digits |
| Strings.IntToString | comments.go:144 | non-empty, and all digits exactly for a non-negative number |
| Strings.ClampInt64 | comments.go:202 | saturation onto the 64-bit range, the identity inside it |
| Strings.Atoi | comments.go:202 | the value lies in the 64-bit range |
| Strings.DigitRun | comments.go:202 | the longest all-digit prefix |
| Strings.ParseUnsigned | comments.go:202 | the unsigned parse reads a value only from non-empty text, and that value is the leading digit run's |
| Strings.AtoiOfDigitStart | comments.go:202 | on text opening with a digit, with or without `-`, `Atoi` is the unsigned parse signed and saturated, or 0 on a syntax error |
| Strings.AtoiOverflowSaturates | comments.go:202 | a digit run above 2^64 - 1 reads as the 64-bit maximum, or minimum after `-`, whatever follows it |
| Strings.AtoiStopsAtNonDigit | comments.go:202 | a non-digit after a digit run that fits in 64 bits reads as 0, with or without `-` |
| Strings.DigitRunAppend | comments.go:202 | the digit run of digits followed by text is those digits followed by the text's run |
| Strings.DecimalValueGrows | comments.go:202 | appending digits never lowers the value |
| Strings.AtoiOfIntToString | comments.go:202 | reading back a printed 64-bit number gives the number |
| Strings.IntToStringInjective | comments.go:144 | different 64-bit numbers print differently |

## Left out

- I/O and side effects are not modelled. This covers:
  - HTTP transport (`fetchDiff`, `submitComments`, `handleComments`' request decoding and responses, in comments.go:34-89);
  - file writes and the `rfa` directory;
  - `window.alert`, which the model returns as a value;
  - the clipboard, whose availability and success are one parameter;
  - React rendering, effects, memoisation, scrolling and focus.
- The submission's hash, built from the clock, the two file paths named by it and the files written there (comments.go:44-79) are not modelled. `ClipboardText` takes the report path as given. JSON marshalling is not modelled.
- `parsePatchFiles` is an external library. Its result is the parameter `parsed` of `ParsePatchToFileDiffs`.
- `getGitDiff` (diff.go:94-124) runs git processes and concatenates their output, so it is not modelled. Its argument vectors are.
- `configureRFAIgnore` reads a file through `bufio.Scanner`. `ReadOutcome` stands for that read: a missing file, an open error, a read error, or the lines. So line splitting, CR stripping, the scanner's token limit and closing the file are outside the model.
- `main.go`, `server.go`, `frontend/src/api.ts`, `web/review.js` and `frontend/vite.config.ts` are not part of this model.
- The render-time file summaries (App.tsx:441-455) are not modelled. `GetFileName` and `GetFileStats` are, but the list keys built from them are not.
- Strings.IsSpace: only the six ASCII whitespace characters count as whitespace. Go's `TrimSpace`/`Fields` and JavaScript's `trim` also strip Unicode spaces, and those are not modelled.
- ReviewApp.Session.SaveLineDraft: ids are unbounded integers. JavaScript numbers lose precision beyond 2^53, and that is not modelled.
- ReviewApp.Session.SaveFileComment: the same unbounded id counter as `SaveLineDraft`.
- ReviewApp.FormatLineRef: line numbers are integers. JavaScript's formatting of non-integer numbers is not modelled.
- DiffScan.ParseDiffLines: the counters are unbounded integers. Go's 64-bit `int` wrap-around after `oldLine++`/`newLine++` at the maximum is not modelled.
- ReviewMarkdown.Comment: the server keeps `side` as the client sent it. Only `"left"` is told apart, as in the code. JSON decoding of other types is not modelled.
- GitArgs.IgnoreSettings: the two package variables and `alwaysIgnoredPatterns` are fields of one object. This is aliasing-free by construction, and concurrent access is not modelled.
- Parts of `formatMarkdown` and `configureRFAIgnore` are separate methods: one turn of the grouping loop (AddToGroups), one turn of the quoting loop (QuoteIfCovered), one file's section (WriteFileSection), the per-file loop (WriteSections), and the success tail of `configureRFAIgnore` that stores the translation (Load, diff.go:44-50). They compute what the inline code computes.
- ReviewApp.Session.HandleSubmit: the request is awaited, but the model takes its outcome in the same step. A second submission started before the first answer arrives is not modelled; the Submit button is disabled only once `submitted` is set.
