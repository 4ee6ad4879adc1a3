# Commit message generator: a verified model

This project models the logic of a VS Code extension that writes a commit
message suggestion (`src/extension.ts`). The extension does four things:

- it reads the repository's changes and builds a plain-text summary of them;
- it turns that summary into a prompt;
- it sends the prompt to a language model and picks the suggestion out of the reply;
- it cleans the suggestion down to the `git commit -m "..."` commands it contains.

Only these string and data transformations are modelled. The editor, the
git client and the network are left out. Their answers enter the model as
plain values.

Modules:

- `Wrappers`: the `Option` type.
- `Seqs`: `filter` and `map` over sequences.
- `Text`: JavaScript's `trim`, `split` on one character, `join`,
  `startsWith`, and the decimal rendering of a count.
- `CommitCleaner`: `cleanCommitMessage`. The global pattern
  `/git commit -m "([^"]*)"/g` is a left-to-right scanner over positions.
  `Scan` reports each occurrence as a start position and the position of
  its closing quote. A failed attempt moves on by one character. A match
  resumes the scan after its closing quote.
- `DiffLines`: the pipeline that turns the text of one file's diff into
  `Added: ...` / `Removed: ...` entries.
- `ChangeSummary`: the body of `generateCommitMessageFromGitChanges`.
  - `GenerateSummary` is the imperative builder. It uses one loop to collect
    the per-file records and a second loop to build the list of parts.
  - It is proved equal to the function `Summary`.
  - The properties of the output are proved as lemmas about `Summary` and
    its sections.
- `Suggestion`: the prompt sanitiser and the response-shape check of
  `fetchCommitSuggestion`.

A bare `-m "..."` after a command is not preceded by the literal
`git commit -m "` that the pattern at src/extension.ts:42 requires. So it is
dropped: `git commit -m "fix bug" -m "details here"` cleans to
`git commit -m "fix bug"`, as `CommitCleaner.CleanDropsBareMessageFlag`
proves.

## Model

| member | source | states |
|---|---|---|
| Text.TrimSlice | src/extension.ts:55 | `trim` keeps one contiguous slice of the input, removes only whitespace before and after it, and leaves no whitespace at either end |
| Text.TrimEmptyIff | src/extension.ts:151 | the trimmed text is empty exactly when every character is whitespace |
| Text.TrimIdempotent | src/extension.ts:55 | trimming twice is trimming once |
| Text.SplitPiecesLack | src/extension.ts:116 | no piece of `split('\n')` contains a line break |
| Text.JoinSplit | src/extension.ts:116 | joining the pieces of `split(c)` with `c` rebuilds the text |
| Text.SplitConcat | src/extension.ts:116 | splitting two texts joined at a separator gives the pieces of the first followed by those of the second |
| Text.SplitUnique | src/extension.ts:116 | separator-free pieces joined with the separator split back into exactly those pieces |
| Text.NatToString | src/extension.ts:146 | a count renders as at least one decimal digit, with no leading zero except for 0 itself |
| Text.NatToStringRoundTrip | src/extension.ts:146 | reading the rendered digits back as a decimal number gives the count |
| CommitCleaner.FindQuoteSound | src/extension.ts:42 | the closing quote found after a position is a quote with no quote before it; none is found exactly when the rest of the text has no quote |
| CommitCleaner.ScanSound | src/extension.ts:42-45 | each reported occurrence is a genuine match of the pattern at or after the scan position, and each starts after the previous one's closing quote |
| CommitCleaner.ScanLeftmost | src/extension.ts:45 | every position where the pattern matches is where a reported occurrence starts or lies inside one: the global search skips no occurrence |
| CommitCleaner.ScanShift | src/extension.ts:45 | text placed in front of a string shifts the occurrences found in it and changes nothing else |
| CommitCleaner.Spans | src/extension.ts:45-50 | no captured span contains a double quote |
| CommitCleaner.NoSpansIff | src/extension.ts:48 | there are no captured spans exactly when the pattern matches nowhere in the text |
| CommitCleaner.SpansOfRender | src/extension.ts:50 | rescanning quote-free spans, each rebuilt as `git commit -m "<span>"` and joined by single spaces, yields exactly those spans in order |
| CommitCleaner.CleanMatched | src/extension.ts:48-51 | with a match, the result starts with the first span rebuilt as a command, and rescanning the result gives the original spans in discovery order |
| CommitCleaner.CleanPassthrough | src/extension.ts:54-55 | with no match, the result is a slice of the input with whitespace, and only whitespace, removed at both ends |
| CommitCleaner.CleanKeepsSpans | src/extension.ts:39-56 | the cleaned text has exactly the spans of the input |
| CommitCleaner.CleanIdempotent | src/extension.ts:39-56 | cleaning twice is cleaning once |
| CommitCleaner.CleanDropsBareMessageFlag | src/extension.ts:42-51 | `git commit -m "fix bug" -m "details here"` cleans to `git commit -m "fix bug"` |
| CommitCleaner.CleanSurroundingSpace | src/extension.ts:48-51 | `  git commit -m "a"  ` cleans to `git commit -m "a"` |
| CommitCleaner.CleanPlainText | src/extension.ts:48-55 | any text in which the pattern matches nowhere and which has no whitespace at either end comes back unchanged |
| DiffLines.AfterFirst | src/extension.ts:121 | `substring(1)` is everything after the first character, and empty for an empty line |
| DiffLines.Describe | src/extension.ts:119-122 | each entry is tagged `Added: ` or `Removed: `, and it is tagged `Added: ` exactly when the line starts with `+` |
| DiffLines.LastFilterKeepsAll | src/extension.ts:123 | the final `length > 0` filter never removes an entry |
| DiffLines.PipelineIsReference | src/extension.ts:115-123 | the split / filter / filter / map / filter chain equals a one-pass reading: each line in turn contributes its entry exactly when it starts with `+` or `-` and not with `+++` or `---` |
| DiffLines.DiffChangesTagged | src/extension.ts:115-123 | every entry extracted from a diff starts with `Added: ` or `Removed: ` |
| DiffLines.DiffChangesOneLine | src/extension.ts:115-122 | no extracted entry contains a line break |
| DiffLines.DiffChangesAppend | src/extension.ts:115-123 | the entries of two diff texts joined by a line break are those of the first followed by those of the second, so entries keep line order |
| DiffLines.DiffChangesLine | src/extension.ts:117-122 | a single line yields its one entry exactly when it is a change line, and nothing otherwise |
| DiffLines.AddedEntry | src/extension.ts:117-121 | `+` followed by trimmed text that is not a header yields `Added: ` and that text |
| DiffLines.RemovedEntry | src/extension.ts:117-121 | `-` followed by trimmed text that is not a header yields `Removed: ` and that text |
| DiffLines.HeaderEntry | src/extension.ts:118 | a `+++` or `---` line yields no entry |
| DiffLines.UnsignedEntry | src/extension.ts:117 | a line starting with neither sign yields no entry |
| DiffLines.BarePlusLine | src/extension.ts:119-123 | a bare `+` line yields the entry `Added: ` |
| DiffLines.DiffExample | src/extension.ts:115-123 | a diff with both file headers, a context line, `-bar` and `+foo` yields `Removed: bar` then `Added: foo` |
| ChangeSummary.GenerateSummary | src/extension.ts:64-170 | the builder returns `Summary` of its inputs whatever the renamed files; it returns nothing exactly when there is no workspace folder, the folder is not a repository, or modified, created and deleted are all empty |
| ChangeSummary.CollectRecords | src/extension.ts:110-132 | the loop over the modified files yields one record per file, in status order, with its path, counts and diff entries |
| ChangeSummary.RenderParts | src/extension.ts:142-165 | the parts are the modified-file sections in order, then `Added: ...` when files were created, then `Deleted: ...` when files were deleted |
| ChangeSummary.SectionHeaderAloneIff | src/extension.ts:146-155 | the indented entries are blank exactly when there are none, so a section is its header alone exactly when it has no entries |
| ChangeSummary.ModifiedHeaderAloneIff | src/extension.ts:111-155 | a modified file's section is its header alone exactly when its diff yields no entries |
| ChangeSummary.SectionLines | src/extension.ts:146-152 | the lines of a section are its header followed by each entry indented by four spaces, in order |
| ChangeSummary.ModifiedSectionLines | src/extension.ts:115-152 | the lines of a modified file's section are the header followed by the indented entries of its diff |
| ChangeSummary.CreatedOnlyExample | src/extension.ts:159-167 | with only `new.txt` created the summary is `Added: new.txt` |
| ChangeSummary.ModifiedAndDeletedExample | src/extension.ts:144-167 | one modified file `a.txt` (+1/-0, diff `+foo`) and one deleted `old.txt` give `Modified a.txt (+1/-0):` / `    Added: foo` / blank line / `Deleted: old.txt` |
| Suggestion.PromptText | src/extension.ts:189 | the prompt starts with `Changes made `; after it, no `'`, `"`, `\n` or `\r` remains, and every other character occurs exactly as often as in the summary |
| Suggestion.SanitizeIsUnstripped | src/extension.ts:189 | no `'`, `"`, `\n` or `\r` is left after sanitising |
| Suggestion.SanitizeAppend | src/extension.ts:189 | sanitising works character by character, so the kept characters stay in their order |
| Suggestion.SanitizeCounts | src/extension.ts:189 | every other character occurs as often as in the input |
| Suggestion.SanitizeOfUnstripped | src/extension.ts:189 | text without those four characters is unchanged |
| Suggestion.SanitizeIdempotent | src/extension.ts:189 | sanitising twice is sanitising once |
| Suggestion.PromptTextExample | src/extension.ts:189 | the summary `a "b"` plus a line break becomes the prompt `Changes made a b` |
| Suggestion.Select | src/extension.ts:218-226 | a text is selected only if it is the non-empty `candidates[0].content.parts[0].text`, and such a text is always selected; a TypeError arises exactly when `candidates` is present but the first candidate's first part is missing |
| Suggestion.FetchSuggestion | src/extension.ts:208-234 | a suggestion comes back exactly when the reply is ok, decodes, and holds a non-empty text at the first candidate's first part; it is that text |

## Left out

- Extension lifecycle: `activate`, `deactivate`, command registration and the editor's subscriptions (src/extension.ts:15-36, 59-61).
- User interface and logging: the clipboard write, information and error messages, and `console` output. Of an error path, only its outcome (nothing returned) is modelled.
- The git client (`simpleGit`, `checkIsRepo`, `status`, `diffSummary`, `diff`) is process I/O. Its answers are the inputs of `GenerateSummary`: `isRepo`; the modified files with their counts and diff text; and the created, deleted and renamed paths. Whether a workspace folder exists is the input `hasFolder`.
- GenerateSummary: does not model the `catch` blocks at src/extension.ts:88-92 and 172-176, because the model's git answers cannot fail. Both blocks return nothing, which is what a caller gets by passing `isRepo = false`.
- GenerateSummary: the source keeps the entries twice per file (`changes` and `diffDetails`, the same array). The model keeps one field, `details`.
- The HTTP request: the URL, the key, the request's JSON encoding, the system instruction text, the `generationConfig` numbers (src/extension.ts:183-204), and the reading of an error body (209-211). Only the prompt text inside the request is modelled.
- Select: the reply is a typed value. A falsy `data` other than `null` (such as `0` or `""`) is not modelled. Neither is a `text` that is a non-string JSON value.
- `async`/`await` sequencing: the code runs strictly in sequence.
- Regular expressions in general. Only the one fixed pattern is modelled, as a scanner.
- `trim` uses the fixed ECMAScript whitespace set: WhiteSpace plus LineTerminator, with the space separators of current Unicode.
- Counts rendered in the header are unbounded naturals. The JavaScript numbers the git client reports are assumed to be non-negative integers.
- Dafny's `string` is a sequence of Unicode scalar values, while JavaScript strings are UTF-16 code units. Every character the core matches, trims or strips is in the Basic Multilingual Plane, and `substring(1)` only drops an ASCII sign. But a reply or a path holding a lone surrogate cannot be represented.
