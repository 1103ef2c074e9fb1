# Iterator: the revision pipeline, modelled in Dafny

Iterator is a two-model code generator. A planner/reviewer model and a coder model take
turns in a LangGraph workflow: instruct, generate, review, and then revise and review again
until the reviewer accepts the code or three revisions have been made. The model text
passes through a handful of text utilities on its way into files. The chat page then
interleaves the two models' transcripts and shows each message with a highlighting
language.

This project models that core as pure Dafny functions and proves what it does:

- `Text` (text.dfy): the JavaScript string operations the core relies on.
  - `split("\n")` and `join("\n")`.
  - `trim`, `includes`, `indexOf` and the first-occurrence `replace`.
  - ASCII `toLowerCase`.
  - `replace(/```/g, "")`.
- `Blocks` (blocks.dfy): the shape shared by the two "`FILE:` marker, then body" parsers. A
  map from the name on each marker line to a value built from the lines up to the next
  marker, a later block overriding an earlier one.
- `CodeFiles` (code_files.dfy): `cleanCode` and `parseCodeFiles` of `backend/utils.js`.
- `DiffText` (diff_text.dfy): `parseDiffResponse` and `extractNewFileContent` of
  `backend/utils.js`.
- `Patch` (patch.dfy): `applyDiff` of `backend/utils.js`. This includes the `@@` header
  regex, `parseInt`, `Array.prototype.splice` with its clamping of the start index, and a
  corrected variant.
- `Change` (change.dfy): the `switch` of `getChange` in `backend/diff.js`.
- `Channels` and `Agents` (agents.dfy): the graph state of `backend/workflow.js` and the
  four agents of `backend/agents.js`. Each model call's reply is a parameter.
- `Workflow` (workflow.dfy): the graph of `backend/workflow.js`, its `MAXITERATIONS` routing,
  and runs of it.
- `Transcript` (transcript.dfy): the interleaving loop and the message rendering of
  `src/app/page.tsx`.

Where the code departs from what it evidently intends, the model follows the code:

- `getChange` supports `replace`, `append`, `prepend` and `delete`, and throws on any other
  action. A `replace` or `delete` whose target is missing gives `null`.
- The iteration count is not initialised by the caller. Without it the loop does not
  stop after three revisions (second finding below).
- `applyDiff` reads every hunk's start against the already edited lines (first finding
  below).

## Model

| member | source | states |
|---|---|---|
| Text.JoinLines | backend/utils.js:57-106 | joining the pieces of `split("\n")` with newlines gives the text back |
| Text.LinesJoin | backend/utils.js:11 | splitting a join of newline-free lines gives the lines back |
| Text.TrimSpec | src/app/page.tsx:133 | `trim` returns a slice of its input with no white space at either end; everything it drops is white space |
| Text.TrimFixedPoint | src/app/page.tsx:141 | trimming changes a text exactly when it starts or ends in white space |
| Text.IndexOf | backend/diff.js:71 | a position is found exactly when the target occurs, and it is the first occurrence |
| Text.ReplaceFirst | backend/diff.js:72 | a string pattern replaces only its first occurrence; a text without one is returned unchanged |
| Text.ToLowerSpec | backend/agents.js:68 | lower-casing gives lower-case text, and two texts lower-case to the same text exactly when they are equal up to letter case |
| Text.ContainsLowerSpec | backend/agents.js:68 | for a lower-case phrase, the lower-cased text contains it exactly when some slice of the text equals it ignoring case |
| Text.DropFencesKeepsText | src/app/page.tsx:137 | text in which no fence starts comes through `/```/g` unchanged, in front of whatever the rest becomes |
| Text.DropFencesAroundText | src/app/page.tsx:137 | a fence-free text between two fences comes out alone, even when it ends in backticks |
| Text.DropFencesNoFence | src/app/page.tsx:137 | what `/```/g` leaves behind holds no fence |
| CodeFiles.CleanCodeKeepsText | backend/utils.js:1-2 | text in which no fence starts comes through `cleanCode` unchanged, in front of whatever the rest becomes |
| CodeFiles.CleanCodeDropsFence | backend/utils.js:1-2 | a fence goes together with the language tag right after it, and nothing more |
| CodeFiles.CleanCodeOfFenced | backend/utils.js:1-2 | a fenced block with a language tag comes out as its code between the two newlines of its fence lines |
| CodeFiles.StripFenceTagsNoFence | backend/utils.js:2 | the first `replace` of `cleanCode` already removes every fence |
| CodeFiles.CleanCodeIsFirstPass | backend/utils.js:1-2 | so the second `replace` never changes anything |
| CodeFiles.FileMarkerIsRegex | backend/utils.js:17 | the marker test matches exactly when `FILE:`, optional white space and at least one character follow, and captures after the longest white-space run that leaves one |
| CodeFiles.BlankMarker | backend/utils.js:17-27 | `FILE:` followed only by spaces still matches, with a name that trims to nothing |
| CodeFiles.BareTagNoMarker | backend/utils.js:17 | a bare `FILE:` is not a marker |
| CodeFiles.ParseCodeFilesIsBlocks | backend/utils.js:4-47 | the loop computes the block-wise map: one entry per named marker, the last one winning |
| CodeFiles.ParseCodeFilesKeys | backend/utils.js:19-44 | the paths of the result are exactly the non-empty names on marker lines |
| CodeFiles.ParseCodeFilesValue | backend/utils.js:19-44 | each path holds the fenced lines of its last marker's block, joined with newlines |
| CodeFiles.ParseCodeFilesPreamble | backend/utils.js:29 | lines before the first marker make no difference |
| CodeFiles.CapturedFenced | backend/utils.js:30-37 | a block that is one fenced run keeps exactly the lines inside the fences |
| CodeFiles.ParseCodeFilesRoundTrip | backend/utils.js:4-47 | writing well-formed files as `FILE:` blocks and parsing them gives back their map |
| CodeFiles.ParseCodeFilesExample | backend/utils.js:4-47 | two fenced files parse to the map of their two contents |
| DiffText.ParseDiffResponseIsBlocks | backend/utils.js:140-175 | the loop computes the block-wise map over the trimmed lines |
| DiffText.HeaderNameNonEmpty | backend/utils.js:151-158 | a trimmed `FILE: ` header always names a file |
| DiffText.DiffValueNone | backend/utils.js:153-155 | a block stores nothing exactly when it has no name or collected no line |
| DiffText.ParseDiffResponseKeys | backend/utils.js:148-172 | the keys are exactly the names of headers whose blocks collected a line |
| DiffText.ParseDiffResponseValue | backend/utils.js:148-172 | a key holds the collected lines of its last header that collected any, joined with newlines |
| DiffText.ParseDiffResponseLines | backend/utils.js:149-166 | a stored diff line is trimmed, and is neither a header nor `DIFF:` |
| DiffText.CollectedAfterFirstTag | backend/utils.js:161-166 | collecting starts at the first `DIFF:` line and then keeps every line but further `DIFF:` lines |
| DiffText.ParseDiffResponseRoundTrip | backend/utils.js:140-175 | writing well-formed entries as `FILE:`/`DIFF:` blocks and parsing them gives back their map |
| DiffText.AddedTestSimplifies | backend/utils.js:188-192 | a line is taken when it starts with `+` but not `+++`; the `@@ ` test can never reject one |
| DiffText.AddedLinesConcat | backend/utils.js:186-195 | the added lines of two diffs in a row are the added lines of each, in order |
| DiffText.ExtractNewFileContentNone | backend/utils.js:197 | the result is `null` exactly when no line is an added line |
| DiffText.ExtractNewFileContentRoundTrip | backend/utils.js:182-198 | prefixing every line of a text with `+` and extracting gives the text back, when no line starts with `++` (such a line becomes a `+++` line, which is skipped) |
| Patch.HeaderStartOf | backend/utils.js:74-76 | a well-formed `@@ -s,c +s2,c2 @@` header, each `,c` present or left out, is read as start `s` |
| Patch.HeaderWithoutCounts | backend/utils.js:74-76 | the header `@@ -2 +2 @@` of a one-line hunk sets the start to 2 |
| Patch.NotHeader | backend/utils.js:71-80 | a line that does not start with `@` is never a header |
| Patch.HeaderSetsCursor | backend/utils.js:71-79 | a header moves the cursor to its start minus one and changes no line |
| Patch.StepPlus | backend/utils.js:83-88 | a `+` line inserts its text at the cursor and moves past it |
| Patch.StepMinus | backend/utils.js:91-95 | a `-` line removes the line at the cursor, if any, and leaves the cursor |
| Patch.StepContext | backend/utils.js:98-102 | a context line only moves the cursor |
| Patch.StepOther | backend/utils.js:67-103 | any other line changes nothing |
| Patch.StepLength | backend/utils.js:83-95 | a `+` line adds one line, a `-` line removes at most one, and any other line none |
| Patch.ApplyLinesLength | backend/utils.js:55-107 | the result has the original lines plus the `+` lines, less at most the `-` lines |
| Patch.ApplyDiffUnchanged | backend/utils.js:55-107 | a diff with no `+` or `-` line gives back the original content |
| Patch.RunBody | backend/utils.js:82-102 | a hunk body merges into the lines after the cursor: context kept, `-` dropped, `+` inserted |
| Patch.ApplyOneHunk | backend/utils.js:71-102 | a one-hunk diff keeps the lines before its start and merges its body into the rest |
| Patch.ApplyLinesMisplacesSecondHunk | backend/utils.js:76-77 | as written, a second hunk is applied at its original-file line number in the edited lines |
| Patch.ApplyLinesFixedHunks | backend/utils.js:71-102 | corrected: ordered hunks applied with the offset of earlier hunks give the hunk-by-hunk reference result |
| Patch.ApplyLinesFixedTwoHunks | backend/utils.js:76-77 | corrected: the same two-hunk diff gives the intended lines |
| Change.GetChange | backend/diff.js:69-106 | an error exactly for an unsupported action, carrying it; `null` exactly for `replace`/`delete` whose target is absent |
| Change.ReplaceRewritesFirstOccurrence | backend/diff.js:70-75 | `replace` rewrites the first occurrence of the target and keeps the text around it |
| Change.ReplaceKeepsLaterOccurrences | backend/diff.js:72 | later occurrences of the target survive, shifted by the change in length |
| Change.DeleteRemovesFirstOccurrence | backend/diff.js:87-92 | `delete` removes exactly the first occurrence |
| Change.DeleteLength | backend/diff.js:87-92 | a successful `delete` shortens the file by the target's length |
| Change.AppendKeepsContentAsPrefix | backend/diff.js:77-80 | `append` keeps the content as a prefix, then a newline and the replacement |
| Change.PrependKeepsContentAsSuffix | backend/diff.js:82-85 | `prepend` keeps the content as a suffix, after the replacement and a newline |
| Change.AppendThenDelete | backend/diff.js:77-92 | deleting what `append` added gives the file back, if it is not found earlier |
| Channels.Apply | backend/workflow.js:5-39 | every channel is last-write-wins: written keys take the new value, the others keep theirs |
| Channels.ApplyTwice | backend/workflow.js:5-39 | two updates in a row act as one merged update, the later write winning |
| Channels.ApplyIdempotent | backend/workflow.js:5-39 | writing the same update twice is writing it once |
| Agents.Appended | backend/agents.js:43 | `concat` adds one entry after the earlier ones |
| Agents.AcceptsIgnoresCase | backend/agents.js:68 | the verdict holds exactly when some slice of the review is "the code is correct" ignoring case |
| Agents.AcceptsSameUpToCase | backend/agents.js:68 | reviews that differ only in letter case get the same verdict |
| Agents.InstructEffect | backend/agents.js:40-45 | after instruct, the state holds the plan and `next = "generate"`, the planner transcript has the plan appended, and every other channel is as it was |
| Agents.GenerateEffect | backend/agents.js:55-60 | after generate, the state holds the code and `next = "review"`, the coder transcript has the code appended, and every other channel is as it was |
| Agents.ReviewEffect | backend/agents.js:68-76 | after review, the code counts as correct exactly when the review accepts it, the review is stored and appended to the planner transcript, and every other channel, the count and the code included, is as it was |
| Agents.ReviseEffect | backend/agents.js:87-93 | after revise, the state holds the new code and `next = "review"`, the coder transcript has it appended, a numeric count is one higher and a missing or `NaN` count stays non-numeric, and every other channel is as it was |
| Agents.InstructAppendsToReviewerTranscript | backend/agents.js:43 | instruct appends its reply to the planner transcript and leaves the coder's alone |
| Agents.ReviewAppendsToReviewerTranscript | backend/agents.js:75 | review appends its reply to the planner transcript and leaves the coder's alone |
| Agents.GenerateAppendsToCoderTranscript | backend/agents.js:58 | generate appends its reply to the coder transcript and leaves the planner's alone |
| Agents.ReviseAppendsToCoderTranscript | backend/agents.js:90 | revise appends its reply to the coder transcript and leaves the planner's alone |
| Agents.AppendedOnceKeepsPrefix | backend/agents.js:43 | an append keeps every earlier entry in place: transcripts only grow |
| Agents.ReviseCounts | backend/agents.js:91 | revise raises a numeric count by exactly one |
| Agents.ReviseLosesCount | backend/agents.js:91 | without a number to start from, the count stays non-numeric |
| Agents.ReviewKeepsCountAndCode | backend/agents.js:63-77 | review changes neither the count nor the code, and records its verdict |
| Agents.CoderKeepsVerdict | backend/agents.js:48-94 | generate and revise leave the last verdict in place |
| Agents.OthersKeepCount | backend/agents.js:33-61 | instruct and generate leave the count alone |
| Workflow.ReviewRoutes | backend/workflow.js:56-62 | a step out of review goes to summarize exactly when its reply accepts the code or the count is at least 3, and to revise exactly otherwise |
| Workflow.FixedEdges | backend/workflow.js:64-71 | a step follows the fixed edges whatever the reply: START, design, instruct, generate, review; revise back to review; summarize to END, where the run stays |
| Workflow.ReviseOnlyAfterRejection | backend/workflow.js:56-70 | revise is entered only from review, after a rejecting reply, with a count below 3 |
| Workflow.SummarizeOnlyAfterAcceptanceOrLimit | backend/workflow.js:56-69 | summarize is entered only from review, after an acceptance or at the limit |
| Workflow.ReviewOnlyAfterCode | backend/workflow.js:68-70 | review is entered only from generate or revise |
| Workflow.NodeCount | backend/workflow.js:46-49 | only the revise stage changes the count, by one |
| Workflow.StepDecreases | backend/workflow.js:52-71 | each step before END uses up potential and never adds revisions or reviews |
| Workflow.ReachesEnd | backend/workflow.js:52-71 | with a numeric count, enough replies always bring the run to END |
| Workflow.VisitsBounded | backend/workflow.js:52-71 | a run visits revise and review no more often than the count allows |
| Workflow.CountedRunTerminates | backend/workflow.js:52-71 | started with a count of 0, a run ends within 12 stages with at most 3 revisions and 4 reviews, whatever the reviews say |
| Workflow.UncountedStep | backend/workflow.js:56-62 | with no numeric count, every step but a review that accepts keeps the run in the loop, whatever the planner and the coder reply |
| Workflow.UncountedNeverEnds | backend/workflow.js:56-70 | with no numeric count, a run in which every review it reaches rejects stays in the loop; the other replies may say anything |
| Workflow.InvokedRunNeverEnds | backend/server.js:20-23 | as the server starts it, a run in which every review it reaches rejects reaches neither summarize nor END, whatever the planner and the coder reply |
| Transcript.Interleave | src/app/page.tsx:95-108 | the loop computes the interleaving of the two transcripts |
| Transcript.LoopComputesInterleaving | src/app/page.tsx:101-108 | running the rounds up to the longer length gives the interleaving |
| Transcript.InterleavingSpec | src/app/page.tsx:95-108 | the interleaving has both lengths together; keeping one role gives back that transcript; the two alternate while both last, then the rest of the longer one follows |
| Transcript.InterleavingContents | src/app/page.tsx:101-108 | keeping one role of the interleaving gives back that role's transcript |
| Transcript.PairsAlternate | src/app/page.tsx:102-107 | while both last, planner entry `j` is at `2j` and coder entry `j` at `2j + 1` |
| Transcript.RoundsTailA | src/app/page.tsx:101-108 | once the coder's transcript is used up, each round adds one planner entry |
| Transcript.RoundsTailB | src/app/page.tsx:101-108 | once the planner's transcript is used up, each round adds one coder entry |
| Transcript.RoundsLength | src/app/page.tsx:101-108 | `n` rounds hold as many messages as there are entries among the first `n` of each transcript |
| Transcript.Render | src/app/page.tsx:133-142 | an unfenced message shows as plaintext, trimmed; the language is never empty and the body is trimmed |
| Transcript.RenderFenced | src/app/page.tsx:133-142 | a fenced message shows the language of its first line, leading white space kept, and the rest of the message, trimmed, as body |
| Transcript.RenderFenceOnly | src/app/page.tsx:135-141 | a message that is only a fence line has an empty body |
| Transcript.TrailingFenceStays | src/app/page.tsx:136-141 | a closing fence on the last line stays in the body that is shown |

## Left out

- I/O is not modelled. Each model call's reply is a parameter of its agent. The file text
  `getChange` reads from the container is a parameter. `updateFileWithDiff` (file
  reading/writing around `applyDiff`), the chat page's `fetch`, and all logging are left
  out.
- `designAgent` and `summarizeAgent` are not defined in `backend/agents.js`. The model
  takes them as stages that write no channel.
- The agents also return the whole `state` under the key `state`. That key is not
  modelled.
- `backend/workflow.js` declares only some of the channels the agents write. The model
  treats every returned key as a last-write-wins channel. What LangGraph does with
  undeclared keys is library behaviour.
- LangGraph's recursion limit, which would stop a run that does not end, is not modelled.
  `Workflow.InvokedRunNeverEnds` is about the graph walk alone.
- Channels.Transcript: a channel that holds something other than a list reads as empty,
  where JavaScript would call that value's own `concat`. No agent stores a non-list
  there.
- `String.prototype.replace` gives `$&`, `$1` and similar patterns in the replacement a
  special meaning. `Text.ReplaceFirst` inserts the replacement literally.
- Characters are Dafny `char`s.
  - `trim` knows only the ASCII white-space characters (space, tab, line feed, carriage
    return, vertical tab, form feed).
  - `toLowerCase` maps only `A`–`Z`.
  - There is no Unicode case folding or normalisation.
- CodeFiles.ParseCodeFiles: the result is a Dafny `map`, where `backend/utils.js` stores
  into a plain `{}` object. Assigning to the name `__proto__` there calls the prototype
  setter with a string, which stores nothing, so `FILE: __proto__` gives no entry in
  JavaScript while the map holds one. `CodeFiles.ParseCodeFilesKeys`,
  `CodeFiles.ParseCodeFilesValue` and `CodeFiles.ParseCodeFilesRoundTrip` describe the map.
- DiffText.ParseDiffResponse: the same holds for the `{}` it fills. A block named
  `__proto__` is stored by the model and dropped by JavaScript, and
  `DiffText.ParseDiffResponseKeys`, `DiffText.ParseDiffResponseValue` and
  `DiffText.ParseDiffResponseRoundTrip` describe the map.
- `parseInt` is modelled as the exact value of the digits. JavaScript loses precision
  above 2^53.
- Patch.ApplyLinesFixedHunks: holds only for hunks that start at line 1 or later, in order,
  and inside the original. A start of 0 makes the code as written splice at index -1, the
  last line; the model of the code as written keeps that, but the corrected variant does not give it a
  meaning.
- The chat page's user messages, the appending of the new messages to earlier ones
  (`src/app/page.tsx:115`), and the JSX and syntax highlighting are not modelled. Only
  the interleaving and the computation of language and body are.
- The server's JSON response, the Docker helpers, the test runners and the prompt texts
  are not part of this model.

## Findings

| source | as written | input that shows it | evidently intended | confidence | as-written member | corrected member |
|---|---|---|---|---|---|---|
| backend/utils.js:76-77 | each hunk header sets the cursor to its start minus one in the lines as already edited, ignoring lines earlier hunks added or removed | original `a`,`b`,`c` and the diff `@@ -1,1 +1,2 @@`, ` a`, `+x`, `@@ -3,1 +4,1 @@`, `-c`, `+C` give `a`,`x`,`C`,`c` | hunk starts number the original file, so the second hunk replaces `c` and the result is `a`,`x`,`b`,`C` | not executed | Patch.ApplyLinesMisplacesSecondHunk | Patch.ApplyLinesFixedHunks |
| backend/server.js:20-23 | the run starts with only `task` and `container`, so `iterations` is `undefined`, `reviseAgent` makes it `NaN`, and `NaN >= MAXITERATIONS` is false | any task whose reviews never contain "the code is correct" | `iterations` starts at 0, so the loop stops after three revisions | not executed | Workflow.InvokedRunNeverEnds | Workflow.CountedRunTerminates |
