# Spacing-constant codemod, modelled in Dafny

`update_spacing.py` is a one-shot codemod for Dart sources. It moves
references of the form `AppConstants.spacing<Suffix>` to the new holder
`AppSpacing.<id>`. For each file, its per-file loop does three things:

- **Skip check.** A file that does not hold the literal `AppConstants.spacing`
  is skipped.
- **Import step.** If the text does not mention `app_spacing`, the import is
  added. The text is split into lines. The first line that mentions
  `app_constants` gets a copy right after it, with `app_constants` replaced
  by `app_spacing`. The lines are then joined again.
- **Rename step.** Every match of `AppConstants\.spacing([A-Z][a-z]*)` is
  replaced by `AppSpacing.<id>`. `<id>` is the suffix's entry in the spacing
  table, or the lower-cased suffix when the table has no entry for it. The
  file is written only when this changes the text that came out of the
  import step.

The model has five modules:

- `Text` (`text.dfy`): the Python `str` operations these steps use, over
  `string`. These are `sub in s`, `s.replace(pat, rep)`, `s.split('\n')` and
  `'\n'.join(lines)`.
- `Renamer` (`renamer.dfy`): the fixed pattern as a hand-written scanner,
  the spacing table, `replace_spacing`, and `pattern.sub` as the recursive
  function `Rewrite`.
  - `Rewrite` takes the literal and the table as parameters.
  - Its theorems assume two facts, `LiteralShape` and `TableShape`.
  - `OldPrefixShape` and `SpacingMapShape` prove those facts for the
    codemod's own `AppConstants.spacing` and `spacing_map`.
- `Imports` (`imports.dfy`): the import step.
  - `EnsureImport` is a method with the source's loop, including its `added`
    flag.
  - It is proved equal to the function `NormalizeImports`.
  - The lemmas about the import step are stated on `NormalizeImports`.
- `Codemod` (`codemod.dfy`): the per-file decision.
  - `ProcessFile` is a pure function returning the new text and whether to
    write it.
  - `UpdateFile` is the same decision using the loop method.
  - The theorems here connect the modules.
- `Examples` (`examples.dfy`): the renamer applied to concrete references.

The code and its table disagree on one suffix. The table's `'XL': 'xxl'`
entry suggests `AppConstants.spacingXL` was meant to become
`AppSpacing.xxl`. The code behaves differently:

- The capture `[A-Z][a-z]*` takes one uppercase letter and then lowercase
  letters only, so for `spacingXL` it captures `X`.
- `X` falls back to `x`, and the trailing `L` is copied, giving
  `AppSpacing.xL`.

The model follows the code. `Examples.SpacingXL` shows that result, and
`Renamer.CaptureNeverXL` proves that the `XL` entry is never looked up.

## Model

| member | source | states |
|---|---|---|
| Text.Split | update_spacing.py:28 | splitting on newlines always gives at least one piece, and no piece holds a newline |
| Text.JoinSplit | update_spacing.py:28-36 | joining the split lines gives back the text exactly, so a file with no `app_constants` line comes out of the import step unchanged |
| Text.SplitJoin | update_spacing.py:28-36 | lines free of newlines are recovered by splitting their join |
| Text.ReplaceAllAbsent | update_spacing.py:34 | `replace` leaves a line that does not hold the pattern unchanged |
| Text.ReplaceAllAtFirst | update_spacing.py:34 | `replace` at the first occurrence of the pattern: the text before it is copied, the occurrence becomes the replacement, and replacing resumes right after it, so every occurrence is replaced, left to right |
| Text.ReplaceAllIntroduces | update_spacing.py:34 | after `replace`, a line that held the pattern holds the replacement text |
| Text.ReplaceAllAvoids | update_spacing.py:34 | `replace` cannot introduce a character that occurs neither in the line nor in the replacement |
| Renamer.ToLower | update_spacing.py:41 | ASCII lower-casing maps an uppercase letter to its lowercase letter and leaves every other character as it is |
| Renamer.LowerShape | update_spacing.py:41 | `size.lower()` keeps the length and lower-cases each character in place |
| Renamer.SpacingMapShape | update_spacing.py:9-16 | every value of the spacing table is a non-empty lowercase identifier |
| Renamer.OldPrefixShape | update_spacing.py:8 | the pattern's literal starts with its only `A` and holds no newline and no underscore, which keeps it apart from the replacements and from the import text |
| Renamer.MapSuffixShape | update_spacing.py:39-42 | the identifier chosen for a suffix has no uppercase letter; for a captured suffix it is a non-empty lowercase identifier; a suffix outside the table keeps its length, so it is never dropped or shortened |
| Renamer.MapSuffixFallback | update_spacing.py:41 | `spacing_map.get(size, size.lower())` for a suffix that is not a key: the result has the suffix's length and each character is the lower-cased character of the suffix |
| Renamer.LowerRunEndMaximal | update_spacing.py:8 | the greedy `[a-z]*` run is all lowercase letters and cannot be extended |
| Renamer.CaptureShape | update_spacing.py:8 | `match.group(1)` is one uppercase letter and then lowercase letters, sits right after the literal, and is followed by the end of the text or by a character that is not lowercase |
| Renamer.CaptureNeverXL | update_spacing.py:8-10 | no capture equals `XL`, so that table entry is unreachable, and every rewritten reference names a lowercase identifier |
| Renamer.RewriteCopiesPrefix | update_spacing.py:38-44 | text before the first match is copied unchanged and in order |
| Renamer.RewriteAtFirstMatch | update_spacing.py:39-44 | at the first match, the output is the text before it, then `AppSpacing.<mapped suffix>`, then the rewrite of the text after the match (left to right, no overlap) |
| Renamer.RewriteIdentity | update_spacing.py:44 | a text without a match is returned exactly as it is |
| Renamer.RewriteNoMatch | update_spacing.py:38-44 | the substitution is global: its output holds no match of the pattern |
| Renamer.RewriteChangesIff | update_spacing.py:44-46 | the output differs from the input exactly when the input holds a match |
| Renamer.RewriteIdempotent | update_spacing.py:44 | substituting a second time changes nothing |
| Examples.SpacingXL | update_spacing.py:8-16 | `AppConstants.spacingXL` becomes `AppSpacing.xL`, not `AppSpacing.xxl` |
| Examples.SpacingXl | update_spacing.py:39-44 | `AppConstants.spacingXl` becomes `AppSpacing.xxl` through the table |
| Examples.SpacingL | update_spacing.py:39-44 | `AppConstants.spacingL` becomes `AppSpacing.lg` |
| Examples.SpacingM | update_spacing.py:39-44 | `AppConstants.spacingM` becomes `AppSpacing.md` |
| Examples.SpacingS | update_spacing.py:39-44 | `AppConstants.spacingS` becomes `AppSpacing.sm` |
| Examples.SpacingXs | update_spacing.py:39-44 | `AppConstants.spacingXs` becomes `AppSpacing.xs` |
| Examples.SpacingHuge | update_spacing.py:41-44 | a suffix outside the table, `Huge`, is lower-cased to `AppSpacing.huge` |
| Imports.RetargetMentionsNew | update_spacing.py:33-34 | the derived import line of a line that mentions `app_constants` mentions `app_spacing` |
| Imports.RetargetKeepsLine | update_spacing.py:34 | the derived line of a single line holds no newline, so it stays one line |
| Imports.EnsureImport | update_spacing.py:25-36 | the loop with its `added` flag computes exactly the import step `NormalizeImports` |
| Imports.InsertAfterFirst | update_spacing.py:31-35 | exactly one line is inserted, the derived copy of the first line `k` that mentions `app_constants`, directly after it; all other lines keep their order |
| Imports.InsertWithoutOldLine | update_spacing.py:31-35 | when no line mentions `app_constants`, the list of lines is unchanged |
| Imports.NormalizeWithoutOldLine | update_spacing.py:26-36 | a text none of whose lines mentions `app_constants` comes out of the import step unchanged |
| Imports.InsertImportMentionsNew | update_spacing.py:33-36 | once a line was inserted, the joined text mentions `app_spacing` |
| Imports.NormalizeIdempotent | update_spacing.py:26-35 | the import step applied twice equals the step applied once |
| Imports.NormalizeLines | update_spacing.py:28-36 | without `app_spacing`, the lines of the normalised text are the original lines with the derived line placed right after the first `app_constants` line |
| Codemod.ProcessFile | update_spacing.py:21-46 | a file without the literal `AppConstants.spacing` is skipped with its text untouched, and a file that is not written keeps its text |
| Codemod.UpdateFile | update_spacing.py:21-46 | the per-file step run with the loop method gives exactly the decision `ProcessFile` |
| Codemod.MatchHasLiteral | update_spacing.py:21-23 | a text holding a match of the pattern holds the skip check's literal |
| Codemod.JoinNoMatch | update_spacing.py:28-36 | a joined text is free of matches exactly when every line is, since the literal holds no newline |
| Codemod.RetargetKeepsNoMatch | update_spacing.py:34 | the derived import line of a line free of matches is free of matches: retargeting the import adds no reference to rename |
| Codemod.InsertKeepsNoMatch | update_spacing.py:31-35 | the list with the inserted line is free of matches exactly when the original list is |
| Codemod.NormalizeKeepsNoMatch | update_spacing.py:25-36 | the import step neither creates nor removes a match of the pattern |
| Codemod.WritesIffMatch | update_spacing.py:22-47 | a file is written exactly when its original text holds a match, so a file whose only change would be the import line is not written |
| Codemod.WrittenHasNoMatch | update_spacing.py:36-47 | a written file holds the rewrite of its post-import text, and no match is left in it |
| Codemod.ProcessFileIdempotent | update_spacing.py:21-47 | a second run over the codemod's output writes nothing and changes nothing |

## Left out

- Directory traversal (`Path("lib/features")`, `rglob("*.dart")`, lines 7 and 18): this is file-system I/O. The model handles one file's text at a time.
- Reading and writing files with UTF-8 and the `print` calls (lines 19, 47-48, 50): these are I/O. Text is a sequence of characters, decoding errors are not modelled, and the write appears only as the `shouldWrite` flag.
- Line-ending translation of text-mode files: `read_text` turns `\r\n` and `\r` into `\n`, and `write_text` turns `\n` into the platform's line separator. The model's `content` is the text after that translation on reading, and its `newContent` is the text before it on writing.
- Errors and exit behaviour on unreadable or unwritable files: these are the runtime's defaults, not the codemod's logic.
- The general `re` engine: only the one fixed pattern is modelled, as a hand-written scanner.
- Renamer.ToLower: lower-cases ASCII letters only, not all of Unicode. Captured characters are ASCII letters by construction, so `str.lower()` agrees on them.
- Text.ReplaceAll: requires a non-empty pattern. Python's `replace` with an empty pattern inserts the replacement between all characters, but the codemod only calls it with `app_constants`.
- Renamer.RewriteNoMatch: like the other theorems about `Rewrite`, it is stated for any literal and table with `LiteralShape` and `TableShape`. It is applied to the codemod's own literal and table through `OldPrefixShape` and `SpacingMapShape`.
- Codemod.ProcessFile: for a file that is not written, `newContent` is the unchanged original text. The source simply leaves that file alone.
- Codemod.WrittenHasNoMatch: does not prove that the inserted `app_spacing` import line survives the rename step unchanged.
- Examples: no concrete text with several references. Global, non-overlapping replacement is covered for all texts by `Renamer.RewriteNoMatch` and `Renamer.RewriteAtFirstMatch`.
