# Renaming `claude-code.nvim` to `claude-code-ide.nvim`, modelled in Dafny

`rename_to_claude_code_ide.py` is a one-shot maintenance script. It renames a
Neovim plugin project in three steps:

1. it moves three paths (`lua/claude-code`, `doc/claude-code.txt`,
   `plugin/claude-code.lua`) to their `-ide` names;
2. it walks the tree and rewrites every selected text file through a fixed
   table of 14 regular-expression substitutions;
3. it rewrites the remote name in `.git/config`.

Every action is recorded in the `changes` list of a `RenameProject` object.
In dry-run mode (the default) nothing on disk changes. Step by step, on the
same tree, the same decisions are taken and recorded in either mode.

This project models that object and its operations. It proves what they
record and what they do to the project tree.

Modules:

- `TextOps` (`text_ops.dfy`): literal text operations.
  - Global leftmost non-overlapping replacement, as done by `re.sub` with an
    escape-only pattern and by `str.replace`.
  - The count `re.findall` reports, and `in` on strings.
  - A general proof that a replacement leaves no copy of its pattern behind
    when the replacement cannot rebuild one.
- `TokenRule` (`token_rule.dfy`): the one real regular expression of the
  table, `(\s|^|")claude-code(\s|$|")`. It is matched by hand: a leading
  whitespace or quote (or the start of text), the old name, then a trailing
  whitespace or quote (or the end of text), with the separators kept.
- `Substitution` (`substitution.dfy`): the rule table.
  - Its literal rows hold the matched text. The pattern is that text with
    each regular-expression metacharacter (`. ^ $ * + ? { } [ ] \ | ( )`)
    preceded by a backslash, which is how the table's raw strings are
    written (`claude-code\.nvim`). This minimal escape is not Python's
    `re.escape`, which also escapes `-`, `#`, `&`, `~` and whitespace.
  - The left fold of the rules over a file's content, and the per-rule
    reports.
  - Growth, unchanged-iff-no-report, composition, a worked `require(...)`
    case, and a counterexample to idempotence.
- `Selection` (`selection.dfy`): which files the walk picks.
  - File selection by `Path.suffix` or exact name.
  - Pruning of hidden and build directories.
  - The walk: a specification function over an abstract listing, and an
    imperative stack-based traversal proved equal to it.
- `Files` (`files.dfy`): the project tree as a map from paths to contents
  plus a set of directories, with read, write, `mkdir(parents=True)` and
  `shutil.move`.
- `Renamer` (`renamer.dfy`): the recorded entries and the functions that
  specify each step. The class `RenameProject` holds the mode, the two
  tables, the change list and the tree. Its methods follow the script's
  methods loop for loop; the loop body of `rename_paths` is the method
  `RenamePath`, and the rule loop of `replace_in_file` is `ApplyRules`.

## Model

| member | source | states |
|---|---|---|
| TextOps.ReplaceAllLength | rename_to_claude_code_ide.py:81 | each literal replacement changes the length by exactly (replacement length − pattern length) per replaced occurrence |
| TextOps.ReplaceAll | rename_to_claude_code_ide.py:81 | definition of `re.sub` with an escape-only pattern (and of `str.replace`): leftmost non-overlapping replacement; properties in TextOps.ReplaceAllLength, ReplaceAllUnchangedIff, ReplaceAllRemovesPattern |
| TextOps.CountMatches | rename_to_claude_code_ide.py:84 | definition of `len(re.findall(...))` for a literal: the number of leftmost non-overlapping occurrences; properties in TextOps.CountPositiveIffOccurs and ReplaceAllLength |
| TextOps.CountPositiveIffOccurs | rename_to_claude_code_ide.py:82-84 | the occurrence count is positive exactly when the pattern occurs in the text |
| TextOps.ReplaceAllUnchangedIff | rename_to_claude_code_ide.py:81-82 | when pattern and replacement differ in length, the replacement leaves text unchanged exactly when the pattern does not occur |
| TextOps.NoMatchIdentity | rename_to_claude_code_ide.py:81 | text with no counted occurrence passes through the replacement unchanged |
| TextOps.OccursTransitive | rename_to_claude_code_ide.py:25-51 | an occurrence of a string that contains the pattern is an occurrence of the pattern; it shows that text in which a table row's text occurs mentions `claude-code` (used by Substitution.NoOldNameUnchanged) |
| TextOps.ReplaceKeepsPatternTail | rename_to_claude_code_ide.py:145 | if the replacement output starts with a proper tail of the pattern, so did the input, provided no tail of the pattern runs into the replacement |
| TextOps.ReplaceAllRemovesPattern | rename_to_claude_code_ide.py:145 | replacing every occurrence leaves none, when the replacement neither contains the start of a pattern copy nor completes one begun before it |
| TokenRule.TokenAt | rename_to_claude_code_ide.py:50 | a token found at the front is a match: its lead (separator, or empty at the start of text) and trail (separator, or end of text) frame the old name there, and together they spell the consumed text |
| TokenRule.TokenAtIffMatch | rename_to_claude_code_ide.py:50 | a token is found at the front exactly when some choice of lead and trail frames the old name there |
| TokenRule.ReplaceToken | rename_to_claude_code_ide.py:50 | definition of `re.sub` with `(\s|^|")claude-code(\s|$|")` and `\1claude-code-ide\2`: each match rewritten with its separators kept, scanning on after the consumed trail; properties in TokenRule.ReplaceTokenLength, ReplaceTokenUnchangedIff, AdjacentNamesOnlyFirstRewritten |
| TokenRule.CountTokens | rename_to_claude_code_ide.py:84 | definition of `len(re.findall(...))` for the catch-all pattern: the number of matches the same scan finds; properties in TokenRule.ReplaceTokenLength and ReplaceTokenUnchangedIff |
| TokenRule.MatchUnique | rename_to_claude_code_ide.py:50 | the lead and trail lengths of a match at a position are unique |
| TokenRule.ReplaceTokenLength | rename_to_claude_code_ide.py:50 | the catch-all rule adds exactly 4 characters per match |
| TokenRule.NoNameNoTokens | rename_to_claude_code_ide.py:50 | text without `claude-code` has no catch-all match |
| TokenRule.ReplaceTokenUnchangedIff | rename_to_claude_code_ide.py:50 | the catch-all rule leaves text unchanged exactly when it finds no match |
| TokenRule.NoTokensIdentity | rename_to_claude_code_ide.py:50 | with no match, the catch-all rule returns its input |
| TokenRule.PlainPrefix | rename_to_claude_code_ide.py:50 | a prefix without separators is copied unchanged, and the rest is scanned as not being at the start of text |
| TokenRule.LeadingToken | rename_to_claude_code_ide.py:50 | the old name at the start of the text followed by a separator is one match that consumes the separator; the scan resumes after it |
| TokenRule.AdjacentNamesOnlyFirstRewritten | rename_to_claude_code_ide.py:50 | after the old name at the start of the text and one separator, text without separators (such as a second `claude-code`) is left as it is, and exactly one match is counted, because the first match consumes the shared separator |
| TokenRule.NewNamePlain | rename_to_claude_code_ide.py:50 | `claude-code-ide` holds no separator |
| TokenRule.ShortUntouched | rename_to_claude_code_ide.py:50 | text shorter than the old name is left as it is, with no match counted |
| TokenRule.SeparatorWithoutBoundary | rename_to_claude_code_ide.py:50 | a separator followed by text with no separator right after its first 11 characters opens no match, so it is copied and the scan goes on |
| TokenRule.PlainThenShort | rename_to_claude_code_ide.py:50 | a separator-free name longer than the old one, followed by a short tail, holds no match |
| TokenRule.QuotedNameUntouched | rename_to_claude_code_ide.py:50 | after a plain prefix and a separator, a separator-free name longer than `claude-code` (such as `claude-code-ide`) and a short tail are left as they are, with no match counted |
| TokenRule.RewrittenRequireUntouched | rename_to_claude_code_ide.py:50 | the catch-all rule does not touch an already renamed `require("claude-code-ide")` |
| Substitution.Escape | rename_to_claude_code_ide.py:27-47 | escaping never shortens the text |
| Substitution.EscapeRoundTrip | rename_to_claude_code_ide.py:27-47 | the escaped pattern of a literal row is a well-formed escape-only pattern, and unescaping it gives the literal text back |
| Substitution.RenamingRowFacts | rename_to_claude_code_ide.py:27-47 | a row that renames the old name mentions it, has a non-empty text, and has a replacement exactly 4 characters longer |
| Substitution.RowRenames | rename_to_claude_code_ide.py:27-47 | a row of the form pre + `claude-code` + post → pre + `claude-code-ide` + post renames the old name |
| Substitution.Row0 | rename_to_claude_code_ide.py:27 | the `claude-code.nvim` row renames the old name in place |
| Substitution.Row1 | rename_to_claude_code_ide.py:28 | the `claude-code.txt` row renames the old name in place |
| Substitution.Row2 | rename_to_claude_code_ide.py:29 | the `claude-code.log` row renames the old name in place |
| Substitution.Row3 | rename_to_claude_code_ide.py:30 | the `ianks/claude-code.nvim` row renames the old name in place |
| Substitution.Row4 | rename_to_claude_code_ide.py:33 | the `require("claude-code")` row renames the old name in place |
| Substitution.Row5 | rename_to_claude_code_ide.py:34 | the `require("claude-code.` row renames the old name in place |
| Substitution.Row6 | rename_to_claude_code_ide.py:35 | the `require('claude-code')` row renames the old name in place |
| Substitution.Row7 | rename_to_claude_code_ide.py:36 | the `require('claude-code.` row renames the old name in place |
| Substitution.Row8 | rename_to_claude_code_ide.py:39 | the `claude-code:` event row renames the old name in place |
| Substitution.Row9 | rename_to_claude_code_ide.py:42 | the `*claude-code-` help-tag row renames the old name in place |
| Substitution.Row10 | rename_to_claude_code_ide.py:45 | the `/claude-code/` path row renames the old name in place |
| Substitution.Row11 | rename_to_claude_code_ide.py:46 | the `"claude-code/` path row renames the old name in place |
| Substitution.Row12 | rename_to_claude_code_ide.py:47 | the `'claude-code/` path row renames the old name in place |
| Substitution.TableShape | rename_to_claude_code_ide.py:25-51 | the table has 14 rules; the first 13 are literal renames of the old name; the last is the catch-all token rule; all are well formed |
| Substitution.ApplyRule | rename_to_claude_code_ide.py:81 | definition of one `re.sub` of a table row: a literal replacement of the row's text, or the catch-all scan; properties in Substitution.RuleGrowth |
| Substitution.Occurrences | rename_to_claude_code_ide.py:84 | definition of one row's `len(re.findall(...))`; properties in Substitution.RuleGrowth and ReportsPositive |
| Substitution.Rewrite | rename_to_claude_code_ide.py:80-86 | definition of the loop over the rules: each rule applied to the previous output; properties in Substitution.RewriteGrowth, UnchangedIffNoReports, RewriteCompose |
| Substitution.Reports | rename_to_claude_code_ide.py:80-86 | definition of `changes_made`: one report per rule that changed the text, with the count taken before it; properties in Substitution.ReportsPositive, RewriteGrowth, UnchangedIffNoReports |
| Substitution.RewriteStep | rename_to_claude_code_ide.py:80-86 | running one more rule applies it to the previous output, and adds a report exactly when it changed the text, with the count taken on the text before it |
| Substitution.RenamingTableFacts | rename_to_claude_code_ide.py:25-51 | a renaming table is well formed, and so is every prefix of it |
| Substitution.LiteralGrowth | rename_to_claude_code_ide.py:81-84 | a literal rule whose replacement is 4 longer grows the text by 4 per occurrence, and changes it exactly when it has occurrences |
| Substitution.RuleGrowth | rename_to_claude_code_ide.py:81-84 | every rule of a renaming table grows the text by 4 per occurrence, and changes it exactly when it has an occurrence |
| Substitution.RewriteGrowth | rename_to_claude_code_ide.py:80-86 | a file's content grows by exactly 4 times the total occurrences its reports list |
| Substitution.ReportsPositive | rename_to_claude_code_ide.py:82-85 | every report line counts at least one occurrence |
| Substitution.UnchangedIffNoReports | rename_to_claude_code_ide.py:80-88 | a file's content is unchanged exactly when no rule reported a change |
| Substitution.NoReportsFixed | rename_to_claude_code_ide.py:80-88 | with no reports, the fold returns its input |
| Substitution.NoReportsInit | rename_to_claude_code_ide.py:80-86 | with no reports, no prefix of the rules reported either |
| Substitution.NoReportsLastFixed | rename_to_claude_code_ide.py:80-86 | with no reports, the last rule leaves the content as it is |
| Substitution.NoReportsEachFixed | rename_to_claude_code_ide.py:80-86 | with no reports, every single rule leaves the content as it is |
| Substitution.FixedByEveryRule | rename_to_claude_code_ide.py:80-88 | content that the whole table leaves unchanged is left unchanged by each rule alone |
| Substitution.NoOldNameUnchanged | rename_to_claude_code_ide.py:25-51 | content that never mentions `claude-code` is unchanged and reported by no rule |
| Substitution.RewriteCompose | rename_to_claude_code_ide.py:80-86 | running two rule lists one after the other is running their concatenation |
| Substitution.SkipRules | rename_to_claude_code_ide.py:80-86 | rules whose patterns all contain a character absent from the current content change nothing and report nothing |
| Substitution.ReplaceWhole | rename_to_claude_code_ide.py:81-84 | text that starts with the pattern and is shorter than two copies is rewritten once, with one occurrence counted |
| Substitution.ShortNoMatch | rename_to_claude_code_ide.py:81-84 | text shorter than the pattern is unchanged, with no occurrence counted |
| Substitution.LeadingTextRow | rename_to_claude_code_ide.py:80-86 | a literal row applied to content consisting of its text plus a short rest rewrites it once and reports one occurrence |
| Substitution.RequireStage1 | rename_to_claude_code_ide.py:27-30 | the four file-name rows leave `require("claude-code")` unchanged and report nothing |
| Substitution.RequireCallSplit | rename_to_claude_code_ide.py:33 | row 4 is exactly the `require("claude-code")` rename |
| Substitution.RequireStage2 | rename_to_claude_code_ide.py:27-33 | after the first five rows `require("claude-code")` is renamed, with one report from row 4 |
| Substitution.LaterRowsMarked | rename_to_claude_code_ide.py:34-47 | each of rows 5 to 12 contains a character from a set that the renamed call lacks |
| Substitution.RenamedCallUnmarked | rename_to_claude_code_ide.py:33-47 | the renamed call avoids that set |
| Substitution.RequireStage3 | rename_to_claude_code_ide.py:27-47 | after the 13 literal rows the call is renamed once, with a single report |
| Substitution.RenamedCallUntouched | rename_to_claude_code_ide.py:50 | the catch-all rule leaves the renamed call alone |
| Substitution.CatchAllKeeps | rename_to_claude_code_ide.py:80-86 | when the catch-all rule finds nothing, the full fold equals the fold of the literal rows |
| Substitution.RequireCallRenamed | rename_to_claude_code_ide.py:25-51 | the whole table turns `require("claude-code")` into `require("claude-code-ide")`, with exactly one report (row 4, one occurrence) |
| Substitution.EarlierRowsMarked | rename_to_claude_code_ide.py:27-39 | rows 0 to 8 each contain `.`, `(` or `:` |
| Substitution.PathRowsMarked | rename_to_claude_code_ide.py:45-47 | rows 10 to 12 each contain `/` |
| Substitution.HelpTagUnmarked | rename_to_claude_code_ide.py:27-47 | the help tag `*claude-code-setup*` has none of `.`, `(` and `:`, and its renamed form has no `/` |
| Substitution.HelpTagSplit | rename_to_claude_code_ide.py:42 | row 9 is the `*claude-code-` rename, and the help tag starts with its text |
| Substitution.HelpTagStage1 | rename_to_claude_code_ide.py:27-42 | the first ten rows turn `*claude-code-setup*` into `*claude-code-ide-setup*` |
| Substitution.HelpTagStage2 | rename_to_claude_code_ide.py:27-47 | the 13 literal rows give the same result |
| Substitution.RenamedHelpTagUntouched | rename_to_claude_code_ide.py:50 | the catch-all rule leaves `*claude-code-ide-setup*` alone |
| Substitution.RewriteNotIdempotent | rename_to_claude_code_ide.py:25-51 | running the table twice is not running it once: `*claude-code-setup*` becomes `*claude-code-ide-setup*`, which a second run changes again |
| Substitution.HelpTagRowMatches | rename_to_claude_code_ide.py:42 | the help-tag row changes `*claude-code-ide-setup*` once more |
| Selection.LastDot | rename_to_claude_code_ide.py:69 | the position of the last `.` of a file name, or none when the name has no dot |
| Selection.Suffix | rename_to_claude_code_ide.py:69 | `Path.suffix`: a non-empty suffix is a dot-led tail with no other dot, not the whole name and not a lone trailing dot; an empty suffix means the name's last dot, if any, is its first or its last character (every dot strictly inside the name has a later dot) |
| Selection.ShouldProcessFile | rename_to_claude_code_ide.py:65-69 | definition of `should_process_file`: a special name, or a listed suffix; properties in Selection.ShouldProcessFileIff |
| Selection.KeepDir | rename_to_claude_code_ide.py:124 | definition of the `dirs[:]` filter's test: not hidden and not a build or dependency directory; properties in Selection.PruneDirs and GitConfigNeverCollected |
| Selection.SelectedFiles | rename_to_claude_code_ide.py:126-129 | definition of the per-directory file loop; properties in Selection.SelectedFilesSound, SelectedFilesComplete, SelectedFilesDistinct |
| Selection.Collected | rename_to_claude_code_ide.py:118-129 | definition of `files_to_process`: a directory's selected files, then the walk of its kept subdirectories, in preorder; properties in Selection.CollectedSound, CollectedComplete, CollectedDistinct |
| Selection.CollectedChildren | rename_to_claude_code_ide.py:120-124 | definition of the walk over the kept subdirectories in listing order; properties in Selection.CollectedChildrenSound, CollectedChildrenComplete |
| Selection.ExtensionsShaped | rename_to_claude_code_ide.py:21 | every listed extension is a dot followed by dot-free characters |
| Selection.SuffixIff | rename_to_claude_code_ide.py:69 | a name has a given extension as its suffix exactly when it ends with it after a non-empty stem |
| Selection.ShouldProcessFileIff | rename_to_claude_code_ide.py:65-69 | a file is processed exactly when its name is one of the special names, or it ends in a listed extension after a non-empty stem |
| Selection.PruneDirs | rename_to_claude_code_ide.py:124 | the kept directories are exactly the listed ones that are neither hidden nor `node_modules`, `build`, `dist` or `__pycache__` |
| Selection.PruneDirsAppend | rename_to_claude_code_ide.py:124 | pruning a joined listing prunes each part |
| Selection.SelectedFilesSound | rename_to_claude_code_ide.py:126-129 | every file selected in a directory is a listed file in it that should be processed |
| Selection.SelectedFilesComplete | rename_to_claude_code_ide.py:126-129 | every listed file that should be processed is selected |
| Selection.CollectedSound | rename_to_claude_code_ide.py:120-129 | every collected path is a file of the tree, reached only through kept directories, and should be processed |
| Selection.CollectedChildrenSound | rename_to_claude_code_ide.py:120-129 | the same for the subdirectories, naming the one the file lies in |
| Selection.CollectedComplete | rename_to_claude_code_ide.py:120-129 | every file of the tree that lies under kept directories and should be processed is collected |
| Selection.CollectedChildrenComplete | rename_to_claude_code_ide.py:120-129 | the same for the subdirectories |
| Selection.GitConfigNeverCollected | rename_to_claude_code_ide.py:124 | `.git/config` is never among the files to process |
| Selection.SelectedFilesDistinct | rename_to_claude_code_ide.py:126-129 | a directory's selected files have no duplicates |
| Selection.CollectedDistinct | rename_to_claude_code_ide.py:118-129 | in a well-formed listing, no file is collected twice |
| Selection.CollectedChildrenDistinct | rename_to_claude_code_ide.py:118-129 | the same for subdirectories with distinct names |
| Selection.Names | rename_to_claude_code_ide.py:124 | the names of the subdirectories, in order |
| Selection.PruneChildren | rename_to_claude_code_ide.py:124 | the kept subdirectories are the listed ones whose names survive pruning, in order |
| Selection.PruneChildrenCollected | rename_to_claude_code_ide.py:124 | pruning does not change which files are collected below a directory, since collection already stops at pruned directories |
| Selection.PruneChildrenSize | rename_to_claude_code_ide.py:124 | pruning never enlarges what is left to walk |
| Selection.SelectedFilesSnoc | rename_to_claude_code_ide.py:126-129 | considering one more file appends it exactly when it should be processed |
| Selection.SelectFiles | rename_to_claude_code_ide.py:126-129 | the loop over a directory's files selects exactly the files the specification selects, in order |
| Selection.PushChildren | rename_to_claude_code_ide.py:120-124 | pushing the kept subdirectories in reverse order puts their files, in listing order, in front of those pending |
| Selection.CollectFiles | rename_to_claude_code_ide.py:118-129 | the top-down walk returns exactly the specified files, in preorder |
| Files.Read | rename_to_claude_code_ide.py:74-75 | definition of a read (its ensures name the abstraction, not a proved fact): it succeeds exactly on an existing, decodable file and returns its text |
| Files.Write | rename_to_claude_code_ide.py:93-94 | definition of a write (abstraction, not a proved fact): the file holds the new text and nothing else changes; used by Renamer.FileResultOnlyAt |
| Files.Ancestors | rename_to_claude_code_ide.py:110 | definition (abstraction, not a proved fact): the strict ancestors of a path are its proper prefixes |
| Files.MakeParents | rename_to_claude_code_ide.py:110 | definition of `mkdir(parents=True, exist_ok=True)` (abstraction, not a proved fact): every strict ancestor becomes a directory and no file changes; used by Files.RenameKeepsOtherTops |
| Files.MoveTarget | rename_to_claude_code_ide.py:111 | `shutil.move` puts the source inside the destination, under the source's last name, exactly when the destination is an existing directory, and at the destination otherwise |
| Files.Relocate | rename_to_claude_code_ide.py:111 | a path under the moved source keeps its tail under the target, and can be mapped back |
| Files.Move | rename_to_claude_code_ide.py:111 | definition of `shutil.move` on the tree: everything under the source relocated under the target; properties in Files.MoveRelocates, MoveEmptiesSource, MoveKeepsOthers |
| Files.MoveRelocates | rename_to_claude_code_ide.py:111 | every file under the source is found, with the same content, at its relocated path |
| Files.MoveEmptiesSource | rename_to_claude_code_ide.py:111 | after a move to an unrelated target, nothing remains under the source |
| Files.MoveKeepsOthers | rename_to_claude_code_ide.py:111 | a path under neither the source nor the target keeps its file or directory |
| Files.RenameKeepsOtherTops | rename_to_claude_code_ide.py:110-111 | parent creation followed by the move does not change whether a path exists when its top directory differs from those of source and destination |
| Renamer.ReportEntries | rename_to_claude_code_ide.py:90-91 | one change entry per remembered rule report, in order |
| Renamer.FileEntriesIff | rename_to_claude_code_ide.py:71-95 | a readable file records nothing exactly when its content is unchanged, which is exactly when no rule reported; otherwise it records one update entry plus one entry per report; the execute-mode tree then holds the pipeline's output at that path and is otherwise unchanged |
| Renamer.FileEntries | rename_to_claude_code_ide.py:71-98 | definition of `replace_in_file`'s entries: the read error, or the update line and its reports when the content changed; properties in Renamer.FileEntriesIff |
| Renamer.FileResult | rename_to_claude_code_ide.py:93-95 | definition of `replace_in_file`'s write in execute mode; properties in Renamer.FileEntriesIff and FileResultOnlyAt |
| Renamer.FileWithoutOldNameUntouched | rename_to_claude_code_ide.py:71-95 | a file that never mentions `claude-code` is neither reported nor written |
| Renamer.FileResultOnlyAt | rename_to_claude_code_ide.py:93-94 | rewriting a file changes no other file and no directory |
| Renamer.RenameEntry | rename_to_claude_code_ide.py:106-113 | definition of one rename's entry (abstraction, not a proved fact): the rename exactly when the source exists, otherwise the not-found warning; properties in Renamer.RenameEntriesShape |
| Renamer.RenameStep | rename_to_claude_code_ide.py:106-111 | definition of one rename's effect: parents created and the source moved, in execute mode and only if the source exists; properties in Renamer.RenameStepMovesFiles and RenameStepKeepsOtherTops |
| Renamer.RenameState | rename_to_claude_code_ide.py:100-113 | definition of the tree after `rename_paths`; properties in Renamer.DryRenameKeepsTree and RenamesKeepConfig |
| Renamer.RenameEntries | rename_to_claude_code_ide.py:100-113 | definition of `rename_paths`'s entries, each rename seeing the tree the earlier ones left; properties in Renamer.RenameEntriesShape and RenameEntriesModeIndependent |
| Renamer.RenameStepMovesFiles | rename_to_claude_code_ide.py:106-111 | in execute mode every file under an existing source reappears, with its content, under the destination |
| Renamer.RenameEntriesShape | rename_to_claude_code_ide.py:102-113 | the renames record exactly one entry per rule, in order: its rename or its warning; a missing path does not stop the later ones |
| Renamer.DryRenameKeepsTree | rename_to_claude_code_ide.py:108 | a dry run of the renames leaves the tree as it was |
| Renamer.RenameStepKeepsOtherTops | rename_to_claude_code_ide.py:106-111 | one rename, in either mode, does not change whether a path exists when its top directory is neither the source's nor the destination's |
| Renamer.RenamesKeepLaterSources | rename_to_claude_code_ide.py:102-111 | renames whose sources and destinations all have other top directories than a path do not change whether that path exists |
| Renamer.RenameEntriesModeIndependent | rename_to_claude_code_ide.py:102-113 | for independent rules, dry-run and execute mode record the same rename entries |
| Renamer.PathRenamesIndependent | rename_to_claude_code_ide.py:54-58 | the script's three renames live under distinct top directories, `lua`, `doc` and `plugin` |
| Renamer.PathRenamesModeIndependent | rename_to_claude_code_ide.py:100-113 | the script's renames record the same entries in either mode |
| Renamer.ProcessStep | rename_to_claude_code_ide.py:132-133 | processing one more path appends that file's entries, computed on the tree the earlier files left |
| Renamer.ProcessState | rename_to_claude_code_ide.py:132-133 | definition of the tree after processing the paths in order; properties in Renamer.ProcessStateOthers and DryProcessKeepsTree |
| Renamer.ProcessEntries | rename_to_claude_code_ide.py:132-133 | definition of the entries of processing the paths in order; properties in Renamer.ProcessStep and ProcessEntriesModeIndependent |
| Renamer.DryProcessKeepsTree | rename_to_claude_code_ide.py:93 | a dry run of the processing leaves the tree as it was |
| Renamer.ProcessStateOthers | rename_to_claude_code_ide.py:132-133 | processing leaves every file not in the list as it was |
| Renamer.ProcessEntriesModeIndependent | rename_to_claude_code_ide.py:115-133 | for distinct paths, dry-run and execute mode record the same file entries |
| Renamer.WalkModeIndependent | rename_to_claude_code_ide.py:115-133 | for a well-formed listing, the walk's files record the same entries in both modes |
| Renamer.GitEntries | rename_to_claude_code_ide.py:135-151 | definition of the git step's entries (abstraction, not a proved fact): nothing without a config; a warning when it cannot be read; one entry exactly when it mentions `claude-code.nvim`; properties in Renamer.GitUpdateIdempotent |
| Renamer.GitResult | rename_to_claude_code_ide.py:135-151 | definition of the git step's effect: the remote name replaced in the config in execute mode; properties in Renamer.GitUpdateIdempotent |
| Renamer.NewRemoteClashes | rename_to_claude_code_ide.py:145 | `claude-code-ide.nvim` never starts a copy of `claude-code.nvim` |
| Renamer.OldRemoteTailsClash | rename_to_claude_code_ide.py:145 | no proper tail of `claude-code.nvim` runs on into `claude-code-ide.nvim` |
| Renamer.GitUpdateIdempotent | rename_to_claude_code_ide.py:135-151 | after the update the config no longer mentions `claude-code.nvim`; a second git step records nothing new and changes nothing |
| Renamer.ProcessingSkipsGitConfig | rename_to_claude_code_ide.py:124 | text processing never changes `.git/config` |
| Renamer.RejectedNeverWritten | rename_to_claude_code_ide.py:65-69 | a file that the selection rejects, by its name or by a pruned directory on its path, is never written by the text processing, in either mode |
| Renamer.DryRunKeepsTree | rename_to_claude_code_ide.py:153-179 | a dry run leaves the whole tree as it was |
| Renamer.RunState | rename_to_claude_code_ide.py:161-171 | definition of the tree after the three steps in order; properties in Renamer.DryRunKeepsTree and Renamer.RenameProject.Run |
| Renamer.RunEntries | rename_to_claude_code_ide.py:161-171 | definition of the run's entries: each banner followed by its step's entries; properties in Renamer.RenameProject.Run |
| Renamer.GitStepSeesOriginalConfig | rename_to_claude_code_ide.py:153-170 | the git step reads the config as it was before the run, in either mode |
| Renamer.RenameStepKeepsConfig | rename_to_claude_code_ide.py:106-111 | one rename outside `.git` leaves the config as it was |
| Renamer.RenamesKeepConfig | rename_to_claude_code_ide.py:102-111 | renames outside `.git` leave the config as it was |
| Renamer.RenameProject.constructor | rename_to_claude_code_ide.py:15-58 | a new project holds the mode, the rule table and the rename table, with nothing recorded |
| Renamer.RenameProject.Log | rename_to_claude_code_ide.py:60-63 | logging appends exactly the one entry and changes nothing else |
| Renamer.RenameProject.ApplyRules | rename_to_claude_code_ide.py:77-86 | the loop over the rules yields the content of the table's fold over the file and exactly the reports the specification lists, in order |
| Renamer.RenameProject.ReplaceInFile | rename_to_claude_code_ide.py:71-98 | records exactly the file's specified entries, and writes the rewritten content back only in execute mode and only if it changed |
| Renamer.RenameProject.LogReports | rename_to_claude_code_ide.py:90-91 | the remembered reports are recorded in order |
| Renamer.RenameProject.RenamePath | rename_to_claude_code_ide.py:103-113 | one rename records the rename or the warning as specified, and moves the source only in execute mode and only if it exists |
| Renamer.RenameProject.RenamePaths | rename_to_claude_code_ide.py:100-113 | the loop records the specified rename entries and leaves the specified tree: moved in execute mode, untouched in a dry run |
| Renamer.RenameProject.ProcessAllFiles | rename_to_claude_code_ide.py:115-133 | collects the walk's files, records their number, then processes each in order, as specified |
| Renamer.RenameProject.UpdateGitRemote | rename_to_claude_code_ide.py:135-151 | records the git step's entries, and writes the replaced config only in execute mode |
| Renamer.RenameProject.Run | rename_to_claude_code_ide.py:153-170 | the three steps in order, each announced by its banner, with the specified entries and final tree |

## Left out

- Console output is not modelled: the `[DRY RUN]` prefix that `log` prints, the header, the summary and the closing advice in `run`. Only the `changes` list is. Entries are structured values, not formatted strings, and `relative_to` path formatting is not modelled.
- `main` and its argument parsing are not modelled. The mode and the root are constructor parameters.
- Real I/O is outside the model:
  - the tree is a value (`Files.FileSystem`);
  - a read fails exactly on a missing path, a directory, or undecodable content (`Undecodable`);
  - writes, `mkdir` and `shutil.move` never fail. An exception raised by a write after the entries were logged is not modelled;
  - text-mode `open` translates line endings: a read turns `\r\n` into `\n` and a write emits `\n`, so a rewritten file with Windows line endings also loses its carriage returns. The model reads and writes text unchanged, so "the pipeline's output" means the rewritten decoded text.
- The order in which the operating system lists a directory is not modelled. The walk works on an abstract listing (`Selection.Tree`), passed to `ProcessAllFiles` and `Run` as the listing seen after the renames. It is not derived from the tree value. So the model does not connect the files the walk sees to those that `rename_paths` moved.
- Regular expressions are not modelled in general:
  - the 13 literal rows are literal replacements of their unescaped text;
  - the one real expression is matched by the hand-written `TokenRule`.
- Substitution.Escape: the literal rows' patterns are stated as the minimal metacharacter escape of their text and proved to unescape back to it. They are not proved, character by character, to be the raw strings of the table; that concrete evaluation is too costly for the verifier.
- Substitution.RewriteNotIdempotent: a second pass, or a preview after an applied run, is not a no-op: the help-tag row `\*claude-code-` also matches its own output, so a tag such as `*claude-code-setup*` is renamed again on every run. The model proves this counterexample; no idempotence is claimed for the text rewriting. The git-remote step, by contrast, is proved idempotent (`Renamer.GitUpdateIdempotent`).
- Renamer.WalkModeIndependent: dry-run and execute mode record the same entries step by step (renames, file processing, git config). They are not proved equal for a whole run, because in execute mode the walk after the renames sees the new paths, and in a dry run the old ones.
- Renamer.ProcessEntriesModeIndependent: each path names its own file. Symbolic and hard links are not modelled. In the program, `os.walk` lists a link to a file among the files, and `replace_in_file` reads and writes through it, so a link and its target are two collected paths naming one file. In execute mode the second visit reads the already rewritten text: a file holding `require("claude-code")` records its update once and nothing on the second visit, while a dry run records the update twice; a help tag `*claude-code-setup*` is even rewritten a second time, to `*claude-code-ide-ide-setup*`. Mode independence for distinct paths therefore holds only for trees without such aliases.
- Files.Move: a move into a target that already holds files merges the two trees, a moved file replacing one at the same path; `shutil.move` would raise when the target directory already holds the source's name. Cross-device copies and the errors `shutil.move` raises for conflicting directories are not modelled.
