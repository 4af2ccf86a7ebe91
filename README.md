# Video-to-notes generator: verified model of its own logic

The application downloads a video, transcribes it, asks a hosted language model (Gemini) for
structured notes, and renders those notes as a PDF. The downloading, transcription, language
model and PDF engine are all external libraries. The program's own logic is in three places,
and this Dafny project models and proves each of them:

- **Note generation** (`Notes`, on top of `Text`). The prompt is one of two fixed instructions,
  the marker `"\n\nTranscript:\n"`, and the transcript. The summariser makes a three-way
  choice: with no client, or when the client call fails, it returns a heuristic summary with a
  note in front; when the call succeeds it returns the model's reply. The heuristic summary is
  at most twelve bullets under the heading `Notes (auto)`. Each bullet is a non-blank stripped
  line cut to 200 characters.
- **Notes-to-document layout** (`Layout`). The notes are split on `"\n\n"` into blocks. A block
  is a bulleted list when every non-blank line starts with `-` or `*`; otherwise it is one
  paragraph with its line feeds turned into `<br/>`. The output is the flat flow handed to the
  PDF engine: title, spacer, then each block's items and one spacer. The page is A4 with 20 mm
  margins.
- **Temp-directory cleanup** (`Cleanup`). A filesystem object holds a map from path to entry.
  The sweep deletes every direct child of the temp root, with its whole subtree, whose age is
  strictly greater than the threshold. Safe removal deletes one path and its subtree, and does
  nothing when the path is absent.

`Text` models the Python string operations the core uses: `strip`, `split`, `"\n".join`,
`splitlines`, `lstrip("-* ")`, slicing with `[:n]` and `replace`. `Wrappers` holds `Option`.

The fallback summary, the prompt builder and the flow builder are stated as functions. The
loops of the source are methods proved equal to those functions:

- `Notes.HeuristicSummary` is the bullet-appending loop.
- `Layout.CreatePdfFromNotes` and `Layout.AppendBlock` are the nested loops that append to the
  flow.
- `Cleanup.FileSystem.PurgeOldTempFiles` is the loop over the root's children.

The lemmas then state what the source promises about those functions.

A few behaviours of the code are worth stating outright, and the model keeps them:

- The fallback summary strips each line before using it (`utils/gemini_utils.py:127`).
- The cleanup threshold may be any integer number of hours, negative ones included
  (`utils/cleanup_utils.py:7-9`).
- An unwritable output path fails inside the PDF engine's `build` (`utils/pdf_utils.py:38`),
  which is not modelled.
- The default arguments are kept: `translate_first=True` on the prompt builder and the
  summariser, `older_than_hours=24` on the sweep.

## Model

| member | source | states |
|---|---|---|
| Text.Strip | utils/pdf_utils.py:28-32 | `str.strip()`: the result has no whitespace at either end, is no longer than the input, and is empty exactly when the input is all whitespace |
| Text.StripIsSlice | utils/pdf_utils.py:28-32 | the stripped string is the slice of the input with only whitespace before it and only whitespace after it |
| Text.StripIdempotent | utils/pdf_utils.py:32 | stripping a stripped string changes nothing, so the final `.strip()` of a bullet text is needed only after the markers are removed |
| Text.StripTrimmed | utils/pdf_utils.py:32 | a string without surrounding whitespace is its own strip |
| Text.StripKeepsChars | utils/gemini_utils.py:127 | every character of a stripped line occurs in the line |
| Text.Take | utils/gemini_utils.py:130 | `s[:n]`: the result is the prefix of length `min(n, len(s))` |
| Text.Split | utils/pdf_utils.py:24 | `str.split(sep)` always yields at least one piece |
| Text.JoinSplit | utils/pdf_utils.py:24 | joining the pieces of a split with the separator gives back the input |
| Text.SplitCount | utils/pdf_utils.py:24 | the number of pieces is the number of non-overlapping separator occurrences plus one |
| Text.SplitPiecesFree | utils/pdf_utils.py:24 | no piece of a split contains the separator at any position |
| Text.SplitLeftmost | utils/pdf_utils.py:24 | every piece but the last ends at the leftmost separator occurrence: followed by the separator, it holds no occurrence that starts inside the piece |
| Text.Join | utils/gemini_utils.py:132 | `sep.join(parts)`; no contract: it is `""` for no parts, the part itself for one, and otherwise the first part, the separator and the join of the rest |
| Text.SplitLines | utils/pdf_utils.py:27 | `str.splitlines()` yields lines without line feeds |
| Text.SplitLinesJoin | utils/pdf_utils.py:27 | the lines joined by `"\n"`, plus the final line feed if the text had one, give back the text |
| Text.SplitJoin | utils/gemini_utils.py:132 | splitting on a one-character separator undoes a join whose parts do not contain it |
| Text.ReplaceLineFeeds | utils/pdf_utils.py:35 | `replace("\n", "<br/>")` leaves no line feed |
| Text.ReplaceIsSplitJoin | utils/pdf_utils.py:35 | the replacement equals splitting on `"\n"` and joining with `"<br/>"` |
| Text.NonBlankStripped | utils/gemini_utils.py:127 | the comprehension over stripped non-blank lines keeps at most as many lines as it is given, each non-empty and trimmed |
| Text.NonBlankCount | utils/gemini_utils.py:127 | the comprehension keeps exactly one line per index whose line is not blank |
| Text.NonBlankPrefix | utils/gemini_utils.py:127 | the result for a prefix of the lines is a prefix of the result |
| Text.NonBlankPosition | utils/gemini_utils.py:127 | a non-blank line appears, stripped, at the position given by the number of non-blank lines before it, so the lines keep their order |
| Notes.InstructionsDiffer | utils/gemini_utils.py:36-94 | the two instructions are different texts: they part at their tenth character |
| Notes.Instruction | utils/gemini_utils.py:36-94 | no contract: the translating instruction when the flag is set, the English-only one otherwise |
| Notes.BuildPrompt | utils/gemini_utils.py:35-96 | for the flag (translating by default), the prompt is the chosen instruction, then exactly the transcript marker, then the transcript verbatim as its suffix, and its length is the sum |
| Notes.ParseBuildPrompt | utils/gemini_utils.py:35-97 | reading a prompt back yields the flag and the transcript it was built from |
| Notes.BuildPromptInjective | utils/gemini_utils.py:35-97 | different flags or transcripts give different prompts |
| Notes.HeuristicNotes | utils/gemini_utils.py:131-132 | the fallback summary always begins with `"Notes (auto)\n\n"` |
| Notes.HeuristicSummary | utils/gemini_utils.py:122-133 | the bullet-appending loop computes the fallback summary |
| Notes.HeuristicBulletsShape | utils/gemini_utils.py:127-130 | there are `min(12, non-blank lines)` bullets; bullet `i` is `"- "` and the first 200 characters of the `i`-th non-blank stripped line, in order, at most 202 characters long and free of line feeds |
| Notes.HeuristicNotesLines | utils/gemini_utils.py:131-132 | split on `"\n"`, the summary is its heading, one empty line, then exactly the bullets, each on its own line |
| Notes.Summarize | utils/gemini_utils.py:99-119 | the flag defaults to translating; with no client, the result is the no-client note plus the fallback summary; with a client, the reply text unchanged on success, or the error note naming the message plus the fallback summary on failure; never fails |
| Notes.FallbackNotesDistinct | utils/gemini_utils.py:113-119 | the two fallback outputs differ from each other, and the error output determines the error message |
| Layout.LStripMarkersFacts | utils/pdf_utils.py:32 | `lstrip("-* ")` removes exactly the leading run of `-`, `*` and spaces |
| Layout.BulletText | utils/pdf_utils.py:32 | an item's text has no surrounding whitespace, and is empty exactly when the stripped line holds only markers and spaces |
| Layout.IsBulletLine | utils/pdf_utils.py:28 | no contract: a line passes when, stripped, it is empty or starts with `-` or `*` |
| Layout.IsBulletBlock | utils/pdf_utils.py:28 | no contract: a block is bulleted when every one of its lines passes, so an all-blank block is bulleted |
| Layout.BlockFlow | utils/pdf_utils.py:27-36 | no contract: a bulleted block gives one item per non-blank line and a spacer; any other block gives one paragraph, line feeds replaced by `<br/>`, and a spacer |
| Layout.Flow | utils/pdf_utils.py:20-36 | no contract: the title, a spacer, then the flow of each `"\n\n"` piece of the notes in order |
| Layout.CreatePdfFromNotes | utils/pdf_utils.py:8-39 | the document goes to the given path on an A4 page with 20 mm margins, and its flow is the flow of the notes |
| Layout.AppendBlock | utils/pdf_utils.py:25-36 | one turn of the loop over blocks appends exactly that block's flow |
| Layout.FlowStart | utils/pdf_utils.py:20-21 | the flow starts with the title paragraph and one spacer |
| Layout.BulletItemsAt | utils/pdf_utils.py:30-32 | a bulleted block yields one item per non-blank line, in order, with that line's item text |
| Layout.BlockFlowShape | utils/pdf_utils.py:27-36 | a block's flow ends with its only spacer; it is all list items exactly when the block is bulleted; otherwise it is one paragraph, the block with line feeds replaced, holding none; every item text is trimmed |
| Layout.BlankBlockFlow | utils/pdf_utils.py:28-33 | a block with no non-blank line counts as bulleted and adds only its spacer |
| Layout.BlocksFlowSize | utils/pdf_utils.py:25-36 | the blocks' flow is as long as the sum over blocks of item count plus one |
| Layout.FlowSize | utils/pdf_utils.py:20-36 | the flow length is 2 plus, for each block, its item count plus 1 |
| Layout.BlocksSpacerCount | utils/pdf_utils.py:25-36 | each block adds exactly one spacer |
| Layout.FlowSpacers | utils/pdf_utils.py:20-36 | the flow holds as many spacers as there are separators in the notes, plus two |
| Layout.FlowItems | utils/pdf_utils.py:20-36 | only the first element is a title, paragraphs hold no line feed, list items are trimmed, and the flow ends with a spacer |
| Cleanup.FileSystem.Unlink | utils/cleanup_utils.py:17 | `unlink(missing_ok=True)` on a path that is absent or not a directory removes that one entry if present, and keeps the tree shape |
| Cleanup.FileSystem.RemoveTree | utils/cleanup_utils.py:15 | `rmtree(ignore_errors=True)` removes a directory and all below it, and changes nothing on an absent path or a file |
| Cleanup.RemoveSubtree | utils/cleanup_utils.py:26 | no contract: the tree without `top` and every entry whose path extends it, which is what `rmtree` removes here and in the sweep (line 15) |
| Cleanup.FileSystem.PurgeOldTempFiles | utils/cleanup_utils.py:7-19 | with a root directory (and 24 hours unless given), the loop over its children leaves exactly the sweep of the starting state at one clock reading and one threshold of hours times 3600, and keeps the tree shape; with a missing or non-directory root it fails before changing anything |
| Cleanup.Swept | utils/cleanup_utils.py:8-17 | no contract: the tree without every entry at or below a direct child of the root whose status could be read and whose age exceeds the threshold |
| Cleanup.SweepStep | utils/cleanup_utils.py:10-19 | judging one more child removes its subtree when its time is readable and stale, and otherwise changes nothing |
| Cleanup.SweptChild | utils/cleanup_utils.py:9-13 | a direct child is removed exactly when its time is readable and `now - mtime > threshold`: an entry exactly at the threshold stays, and so does one whose status cannot be read |
| Cleanup.SweptBelowChild | utils/cleanup_utils.py:14-15 | an entry below a direct child goes or stays with that child, and a kept entry is untouched whatever its own age |
| Cleanup.SweptOutside | utils/cleanup_utils.py:10-17 | entries outside the root's children, the root included, are unchanged |
| Cleanup.SweptShrinks | utils/cleanup_utils.py:10-17 | a sweep only removes entries and never alters a kept one |
| Cleanup.SweptShaped | utils/cleanup_utils.py:10-17 | a sweep leaves a well-formed tree |
| Cleanup.SweptIdempotent | utils/cleanup_utils.py:8-17 | with the same clock and no new entries, a second sweep removes nothing |
| Cleanup.FileSystem.SafeRemove | utils/cleanup_utils.py:21-28 | the path and everything below it are removed, the tree shape is kept, and a missing path changes nothing |
| Cleanup.AbsentHasNoDescendants | utils/cleanup_utils.py:23-24 | in a well-formed tree nothing lies below an absent path, so removing it changes nothing |
| Cleanup.FileHasNoDescendants | utils/cleanup_utils.py:27-28 | nothing lies below a file, so removing it removes that entry alone |
| Cleanup.RemoveExisting | utils/cleanup_utils.py:25-28 | removing an existing path removes it, a file alone, and keeps every entry not at or below it unchanged |
| Cleanup.RemoveSubtreeShaped | utils/cleanup_utils.py:25-28 | removing a subtree leaves a well-formed tree |
| Cleanup.RemoveSubtreeIdempotent | utils/cleanup_utils.py:21-28 | removing the same path twice is removing it once |

## Left out

- Media download and transcoding (`utils/youtube_utils.py`): external tools and the file system of the working directory only.
- Speech recognition (`utils/stt_utils.py`): model inference; its `[start-end]` line format uses float formatting.
- The Streamlit application (`app.py`): UI wiring and run identifiers drawn from the clock and random UUIDs. Its cleanup calls are `safe_remove`, which is modelled.
- Configuring the Gemini client from the environment, the generation settings and the network call (`utils/gemini_utils.py:11-31`): the client is a parameter, `Option<Client>`, whose `generate` function yields `Ok(text)` or `Err(message)`. The text of an exception is taken to be that message.
- PDF rendering, styles, pagination and markup interpretation (`utils/pdf_utils.py:12-18`, `38`): the flow is handed over as a list of `Flowable` values, so the style objects and the `doc.build` call are not modelled, and neither is any error they raise.
- The real clock and float modification times: `now` is a parameter and times are whole seconds.
- Text.Strip: Python strips every Unicode whitespace character; the model strips only the ASCII ones (space, tab, line feed, vertical tab, form feed, carriage return and the separators U+001C to U+001F), so non-ASCII whitespace such as U+00A0 or U+2003 stays.
- Text.SplitLines: Python also breaks lines at carriage return (alone or before a line feed), vertical tab, form feed, U+001C to U+001E, U+0085, U+2028 and U+2029; the model breaks only at line feeds.
- Cleanup.FileSystem.PurgeOldTempFiles: a failure to read a child's status is modelled by the `unreadable` set, and such a child is skipped. Partial failures inside `rmtree`, permission errors and entries appearing or vanishing during the sweep are not modelled. Symbolic links are not modelled either.
- Cleanup.FileSystem.PurgeOldTempFiles: the order in which the directory lists its children is not modelled. The loop picks them in any order, and the result is the same for every order.
- Cleanup.FileSystem.SafeRemove: three failure paths are not modelled. A permission error from `unlink` (`utils/cleanup_utils.py:28`) is outside any `try` and reaches the caller. `rmtree` with `ignore_errors=True` (`:26`) can leave part of the tree behind. `path.exists()` (`:23`) is false for a dangling symbolic link, so the link stays. The model removes the whole subtree, and has no symbolic links.
- Cleanup.SweptOutside, Cleanup.SweptShrinks, Cleanup.RemoveExisting: on a real filesystem, deleting an entry also updates its parent directory's modification time. The model keeps every surviving entry's time as it was. No sweep decision depends on this, because the root's own time is never judged.
- Concurrency between a sweep and a running job is not modelled.
