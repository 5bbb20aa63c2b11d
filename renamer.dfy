/**
 * The rename run itself: the `RenameProject` object with its mode flag, its
 * list of recorded changes and the project tree it works on, and the steps
 * that rename paths, rewrite file contents and update the git remote.
 *
 * Each step is specified by functions of the tree as it stood before the
 * step: the entries it records and, in execute mode, the tree it leaves.
 */
module Renamer {
  import opened Optional
  import opened TextOps
  import opened TokenRule
  import opened Substitution
  import opened Selection
  import opened Files

  /** One recorded change; the script formats each as one line of text. */
  datatype Entry =
    | StepBanner(step: nat)               // Step n: ...
    | Renaming(from: Path, to: Path)      // Renaming: old → new
    | PathNotFound(path: Path)            // Warning: Path not found: old
    | ProcessingCount(count: nat)         // Processing n files...
    | UpdatingFile(path: Path)            // Updating file: path
    | RuleChange(report: RuleReport)      //   - pattern → replacement (n occurrences)
    | FileError(path: Path)               // Error processing path: error
    | UpdatingGitRemote                   // Updating git remote URL...
    | GitConfigWarning                    // Warning: Could not update git config: error

  /** The directory and file renames, in the order the script performs them. */
  const PathRenames: seq<(Path, Path)> := [
    (["lua", "claude-code"], ["lua", "claude-code-ide"]),
    (["doc", "claude-code.txt"], ["doc", "claude-code-ide.txt"]),
    (["plugin", "claude-code.lua"], ["plugin", "claude-code-ide.lua"])
  ]

  const GitConfig: Path := [".git", "config"]
  const OldRemote: string := "claude-code.nvim"
  const NewRemote: string := "claude-code-ide.nvim"

  // ---------------------------------------------------------------------
  // One file's text replacements
  // ---------------------------------------------------------------------

  /** The report lines of a file as entries, in order. */
  function ReportEntries(reports: seq<RuleReport>): (es: seq<Entry>)
    ensures |es| == |reports| && forall i | 0 <= i < |reports| :: es[i] == RuleChange(reports[i])
  {
    if reports == [] then []
    else ReportEntries(reports[..|reports| - 1]) + [RuleChange(reports[|reports| - 1])]
  }

  /**
   * The entries `replace_in_file` records for `p`: an error when the file
   * cannot be read; nothing when no rule changes its content; otherwise the
   * update line followed by one line per rule that changed it.
   */
  function FileEntries(rules: seq<Rule>, fs: FileSystem, p: Path): seq<Entry>
    requires AllWellFormed(rules)
  {
    match Read(fs, p)
    case None => [FileError(p)]
    case Some(s) =>
      if Rewrite(rules, s) == s then []
      else [UpdatingFile(p)] + ReportEntries(Reports(rules, s))
  }

  /** The tree after `replace_in_file` in execute mode: the rewritten content is written back when it changed. */
  function FileResult(rules: seq<Rule>, fs: FileSystem, p: Path): FileSystem
    requires AllWellFormed(rules)
  {
    match Read(fs, p)
    case None => fs
    case Some(s) =>
      if Rewrite(rules, s) == s then fs else Write(fs, p, Rewrite(rules, s))
  }

  /**
   * A readable file gets entries exactly when its content changes, and then
   * one entry per rule that changed it after the update line; in execute mode
   * the new content is the pipeline's output and nothing else changes.
   */
  lemma FileEntriesIff(rules: seq<Rule>, fs: FileSystem, p: Path, s: string)
    requires RenamingTable(rules) && Read(fs, p) == Some(s)
    ensures AllWellFormed(rules)
    ensures FileEntries(rules, fs, p) == [] <==> Rewrite(rules, s) == s
    ensures FileEntries(rules, fs, p) == [] <==> Reports(rules, s) == []
    ensures FileEntries(rules, fs, p) != [] ==> |FileEntries(rules, fs, p)| == 1 + |Reports(rules, s)|
    ensures FileEntries(rules, fs, p) == [] ==> FileResult(rules, fs, p) == fs
    ensures FileEntries(rules, fs, p) != [] ==>
              FileResult(rules, fs, p).files == fs.files[p := Text(Rewrite(rules, s))]
  {
    RenamingTableFacts(rules);
    UnchangedIffNoReports(rules, s);
  }

  /** A file whose content does not mention the old name is neither reported nor rewritten. */
  lemma FileWithoutOldNameUntouched(rules: seq<Rule>, fs: FileSystem, p: Path, s: string)
    requires RenamingTable(rules) && Read(fs, p) == Some(s) && !Occurs(s, OldName)
    ensures AllWellFormed(rules)
    ensures FileEntries(rules, fs, p) == [] && FileResult(rules, fs, p) == fs
  {
    RenamingTableFacts(rules);
    NoOldNameUnchanged(rules, s);
  }

  /** Execute mode changes the tree only at the processed file. */
  lemma FileResultOnlyAt(rules: seq<Rule>, fs: FileSystem, p: Path, q: Path)
    requires AllWellFormed(rules) && q != p
    ensures Read(FileResult(rules, fs, p), q) == Read(fs, q)
    ensures FileResult(rules, fs, p).dirs == fs.dirs
  {
  }

  // ---------------------------------------------------------------------
  // Path renames
  // ---------------------------------------------------------------------

  /** Every rename names a path below the project root on both sides. */
  predicate PathRules(rules: seq<(Path, Path)>)
  {
    forall i | 0 <= i < |rules| :: rules[i].0 != [] && rules[i].1 != []
  }

  /** The entry a path rename records: the rename when the source exists, else a warning. */
  function RenameEntry(fs: FileSystem, rule: (Path, Path)): (e: Entry)
    ensures e.Renaming? <==> Exists(fs, rule.0)
    ensures e == Renaming(rule.0, rule.1) || e == PathNotFound(rule.0)
  {
    if Exists(fs, rule.0) then Renaming(rule.0, rule.1) else PathNotFound(rule.0)
  }

  /** The tree after one path rename: parents created and the source moved, in execute mode only. */
  function RenameStep(fs: FileSystem, rule: (Path, Path), dryRun: bool): FileSystem
    requires rule.0 != []
  {
    if Exists(fs, rule.0) && !dryRun then Move(MakeParents(fs, rule.1), rule.0, rule.1) else fs
  }

  /** A rename in execute mode carries every file under the source to the same place under the target. */
  lemma RenameStepMovesFiles(fs: FileSystem, rule: (Path, Path), p: Path)
    requires rule.0 != [] && Exists(fs, rule.0) && p in fs.files && rule.0 <= p
    ensures var q := Relocate(p, rule.0, MoveTarget(MakeParents(fs, rule.1), rule.0, rule.1));
            q in RenameStep(fs, rule, false).files && RenameStep(fs, rule, false).files[q] == fs.files[p]
  {
    MoveRelocates(MakeParents(fs, rule.1), rule.0, rule.1, p);
  }

  /** A rename leaves alone whether a path exists when its first component is neither the source's nor the target's. */
  lemma RenameStepKeepsOtherTops(fs: FileSystem, rule: (Path, Path), dryRun: bool, p: Path)
    requires rule.0 != [] && rule.1 != [] && p != [] && p[0] != rule.0[0] && p[0] != rule.1[0]
    ensures Exists(RenameStep(fs, rule, dryRun), p) <==> Exists(fs, p)
  {
    if Exists(fs, rule.0) && !dryRun {
      RenameKeepsOtherTops(fs, rule.0, rule.1, p);
    }
  }

  /** A rename outside `.git` leaves the git config as it was. */
  lemma RenameStepKeepsConfig(fs: FileSystem, rule: (Path, Path), dryRun: bool)
    requires rule.0 != [] && rule.1 != [] && rule.0[0] != ".git" && rule.1[0] != ".git"
    ensures Read(RenameStep(fs, rule, dryRun), GitConfig) == Read(fs, GitConfig)
  {
    if Exists(fs, rule.0) && !dryRun {
      var fs1 := MakeParents(fs, rule.1);
      var dest := MoveTarget(fs1, rule.0, rule.1);
      assert dest[0] == rule.1[0];
      MoveKeepsOthers(fs1, rule.0, rule.1, GitConfig);
    }
  }

  /** The tree after the renames, each seeing the tree the previous ones left. */
  function RenameState(fs: FileSystem, rules: seq<(Path, Path)>, dryRun: bool): FileSystem
    requires PathRules(rules)
  {
    if rules == [] then fs
    else RenameStep(RenameState(fs, rules[..|rules| - 1], dryRun), rules[|rules| - 1], dryRun)
  }

  /** The entries of the renames, one per rule, in rule order. */
  function RenameEntries(fs: FileSystem, rules: seq<(Path, Path)>, dryRun: bool): seq<Entry>
    requires PathRules(rules)
  {
    if rules == [] then []
    else
      var n := |rules| - 1;
      RenameEntries(fs, rules[..n], dryRun) + [RenameEntry(RenameState(fs, rules[..n], dryRun), rules[n])]
  }

  /**
   * Exactly one entry per rule, in order: the rename of rule i or the warning
   * that its source is missing; a missing path does not stop later rules.
   */
  lemma {:induction false} RenameEntriesShape(fs: FileSystem, rules: seq<(Path, Path)>, dryRun: bool)
    requires PathRules(rules)
    ensures |RenameEntries(fs, rules, dryRun)| == |rules|
    ensures forall i | 0 <= i < |rules| ::
              RenameEntries(fs, rules, dryRun)[i] == Renaming(rules[i].0, rules[i].1)
              || RenameEntries(fs, rules, dryRun)[i] == PathNotFound(rules[i].0)
    decreases |rules|
  {
    if rules != [] {
      var n := |rules| - 1;
      RenameEntriesShape(fs, rules[..n], dryRun);
      var es := RenameEntries(fs, rules, dryRun);
      var prev := RenameEntries(fs, rules[..n], dryRun);
      assert es == prev + [RenameEntry(RenameState(fs, rules[..n], dryRun), rules[n])];
      forall i | 0 <= i < |rules|
        ensures es[i] == Renaming(rules[i].0, rules[i].1) || es[i] == PathNotFound(rules[i].0)
      {
        if i < n {
          assert es[i] == prev[i] && rules[..n][i] == rules[i];
        }
      }
    }
  }

  lemma RenameSlice(fs: FileSystem, rules: seq<(Path, Path)>, i: nat, dryRun: bool)
    requires PathRules(rules) && i < |rules|
    ensures PathRules(rules[..i]) && PathRules(rules[..i + 1])
    ensures RenameEntries(fs, rules[..i + 1], dryRun)
         == RenameEntries(fs, rules[..i], dryRun) + [RenameEntry(RenameState(fs, rules[..i], dryRun), rules[i])]
    ensures RenameState(fs, rules[..i + 1], dryRun) == RenameStep(RenameState(fs, rules[..i], dryRun), rules[i], dryRun)
  {
    assert rules[..i + 1][..i] == rules[..i];
    assert rules[..i + 1][i] == rules[i];
  }


  /** A dry run of the renames leaves the tree as it was. */
  lemma {:induction false} DryRenameKeepsTree(fs: FileSystem, rules: seq<(Path, Path)>)
    requires PathRules(rules)
    ensures RenameState(fs, rules, true) == fs
    decreases |rules|
  {
    if rules != [] {
      DryRenameKeepsTree(fs, rules[..|rules| - 1]);
    }
  }

  /** No later rule's source shares its first component with an earlier rule's source or destination. */
  predicate IndependentRenames(rules: seq<(Path, Path)>)
  {
    && PathRules(rules)
    && forall i, j | 0 <= i < j < |rules| :: rules[j].0[0] != rules[i].0[0] && rules[j].0[0] != rules[i].1[0]
  }

  /**
   * A path whose first component no earlier rule's source or target has
   * exists after those renames exactly when it existed before them.
   */
  lemma {:induction false} RenamesKeepLaterSources(fs: FileSystem, rules: seq<(Path, Path)>, dryRun: bool, p: Path)
    requires PathRules(rules)
    requires p != [] && forall i | 0 <= i < |rules| :: p[0] != rules[i].0[0] && p[0] != rules[i].1[0]
    ensures Exists(RenameState(fs, rules, dryRun), p) <==> Exists(fs, p)
    decreases |rules|
  {
    if rules != [] {
      var n := |rules| - 1;
      RenamesKeepLaterSources(fs, rules[..n], dryRun, p);
      RenameStepKeepsOtherTops(RenameState(fs, rules[..n], dryRun), rules[n], dryRun, p);
    }
  }

  /**
   * The renames record the same entries in dry-run and execute mode when no
   * rule's source is affected by an earlier rule's move.
   */
  lemma {:induction false} RenameEntriesModeIndependent(fs: FileSystem, rules: seq<(Path, Path)>)
    requires IndependentRenames(rules)
    ensures RenameEntries(fs, rules, true) == RenameEntries(fs, rules, false)
    decreases |rules|
  {
    if rules != [] {
      var n := |rules| - 1;
      var init := rules[..n];
      assert IndependentRenames(init);
      RenameEntriesModeIndependent(fs, init);
      RenamesKeepLaterSources(fs, init, true, rules[n].0);
      RenamesKeepLaterSources(fs, init, false, rules[n].0);
    }
  }

  /** The script's own rename table is independent: `lua`, `doc` and `plugin` are distinct top directories. */
  lemma PathRenamesIndependent()
    ensures IndependentRenames(PathRenames)
  {
  }

  /** The script's renames record the same entries whichever mode it runs in. */
  lemma PathRenamesModeIndependent(fs: FileSystem)
    ensures PathRules(PathRenames)
    ensures RenameEntries(fs, PathRenames, true) == RenameEntries(fs, PathRenames, false)
  {
    PathRenamesIndependent();
    RenameEntriesModeIndependent(fs, PathRenames);
  }

  // ---------------------------------------------------------------------
  // Processing all files
  // ---------------------------------------------------------------------

  /** The tree after processing the paths in order, each file seeing the writes before it. */
  function ProcessState(rules: seq<Rule>, fs: FileSystem, paths: seq<Path>, dryRun: bool): FileSystem
    requires AllWellFormed(rules)
  {
    if paths == [] || dryRun then fs
    else FileResult(rules, ProcessState(rules, fs, paths[..|paths| - 1], dryRun), paths[|paths| - 1])
  }

  /** The entries of processing the paths in order. */
  function ProcessEntries(rules: seq<Rule>, fs: FileSystem, paths: seq<Path>, dryRun: bool): seq<Entry>
    requires AllWellFormed(rules)
  {
    if paths == [] then []
    else
      var n := |paths| - 1;
      ProcessEntries(rules, fs, paths[..n], dryRun) + FileEntries(rules, ProcessState(rules, fs, paths[..n], dryRun), paths[n])
  }

  /** Processing one more path appends that file's entries, computed on the tree the earlier paths left. */
  lemma ProcessStep(rules: seq<Rule>, fs: FileSystem, paths: seq<Path>, i: nat, dryRun: bool)
    requires AllWellFormed(rules) && i < |paths|
    ensures ProcessEntries(rules, fs, paths[..i + 1], dryRun)
         == ProcessEntries(rules, fs, paths[..i], dryRun) + FileEntries(rules, ProcessState(rules, fs, paths[..i], dryRun), paths[i])
    ensures ProcessState(rules, fs, paths[..i + 1], dryRun)
         == if dryRun then fs else FileResult(rules, ProcessState(rules, fs, paths[..i], dryRun), paths[i])
  {
    assert paths[..i + 1][..i] == paths[..i];
  }

  /** A dry run of the processing leaves the tree as it was. */
  lemma DryProcessKeepsTree(rules: seq<Rule>, fs: FileSystem, paths: seq<Path>)
    requires AllWellFormed(rules)
    ensures ProcessState(rules, fs, paths, true) == fs
  {
  }

  /** Processing leaves a file it has not reached yet as it was. */
  lemma {:induction false} ProcessStateOthers(rules: seq<Rule>, fs: FileSystem, paths: seq<Path>, dryRun: bool, q: Path)
    requires AllWellFormed(rules) && q !in paths
    ensures Read(ProcessState(rules, fs, paths, dryRun), q) == Read(fs, q)
    decreases |paths|
  {
    if paths != [] && !dryRun {
      var n := |paths| - 1;
      assert q !in paths[..n];
      ProcessStateOthers(rules, fs, paths[..n], dryRun, q);
      FileResultOnlyAt(rules, ProcessState(rules, fs, paths[..n], dryRun), paths[n], q);
    }
  }

  /**
   * Processing distinct paths records the same entries in dry-run and
   * execute mode: each file is read before anything is written to it.
   */
  lemma {:induction false} ProcessEntriesModeIndependent(rules: seq<Rule>, fs: FileSystem, paths: seq<Path>)
    requires AllWellFormed(rules) && Distinct(paths)
    ensures ProcessEntries(rules, fs, paths, true) == ProcessEntries(rules, fs, paths, false)
    decreases |paths|
  {
    if paths != [] {
      var n := |paths| - 1;
      var init := paths[..n];
      assert Distinct(init) by {
        forall i, j | 0 <= i < j < |init| ensures init[i] != init[j] {
          assert init[i] == paths[i] && init[j] == paths[j];
        }
      }
      ProcessEntriesModeIndependent(rules, fs, init);
      assert paths[n] !in init by {
        forall i | 0 <= i < n ensures init[i] != paths[n] {
          assert init[i] == paths[i];
        }
      }
      ProcessStateOthers(rules, fs, init, false, paths[n]);
      ProcessStateOthers(rules, fs, init, true, paths[n]);
    }
  }

  /** For a well-formed listing, the walk's files record the same entries in both modes. */
  lemma WalkModeIndependent(rules: seq<Rule>, fs: FileSystem, t: Tree)
    requires AllWellFormed(rules) && WellFormedTree(t)
    ensures ProcessEntries(rules, fs, Collected([], t), true) == ProcessEntries(rules, fs, Collected([], t), false)
  {
    CollectedDistinct([], t);
    ProcessEntriesModeIndependent(rules, fs, Collected([], t));
  }

  // ---------------------------------------------------------------------
  // Git remote
  // ---------------------------------------------------------------------

  /**
   * The entries of `update_git_remote`: nothing when there is no config;
   * a warning when it exists but cannot be read; one line when it mentions
   * the old remote name; nothing otherwise.
   */
  function GitEntries(fs: FileSystem): (es: seq<Entry>)
    ensures !Exists(fs, GitConfig) ==> es == []
    ensures Exists(fs, GitConfig) && Read(fs, GitConfig).None? ==> es == [GitConfigWarning]
    ensures Read(fs, GitConfig).Some? ==> (es == [UpdatingGitRemote] <==> Occurs(Read(fs, GitConfig).value, OldRemote))
    ensures Read(fs, GitConfig).Some? ==> (es == [] <==> !Occurs(Read(fs, GitConfig).value, OldRemote))
  {
    if !Exists(fs, GitConfig) then []
    else match Read(fs, GitConfig)
      case None => [GitConfigWarning]
      case Some(s) => if Occurs(s, OldRemote) then [UpdatingGitRemote] else []
  }

  /** The tree after `update_git_remote` in execute mode. */
  function GitResult(fs: FileSystem): FileSystem
  {
    if !Exists(fs, GitConfig) then fs
    else match Read(fs, GitConfig)
      case None => fs
      case Some(s) => if Occurs(s, OldRemote) then Write(fs, GitConfig, ReplaceAll(s, OldRemote, NewRemote)) else fs
  }

  /** The new remote name never starts a copy of the old one. */
  lemma NewRemoteClashes()
    ensures NoPatternFromReplacement(OldRemote, NewRemote)
  {
    forall i: nat | i < |NewRemote| ensures StartClashes(NewRemote, OldRemote, i) {
      if i == 0 { assert MismatchAt(NewRemote, OldRemote, 0, 11); }
      else if i == 1 { assert MismatchAt(NewRemote, OldRemote, 1, 0); }
      else if i == 2 { assert MismatchAt(NewRemote, OldRemote, 2, 0); }
      else if i == 3 { assert MismatchAt(NewRemote, OldRemote, 3, 0); }
      else if i == 4 { assert MismatchAt(NewRemote, OldRemote, 4, 0); }
      else if i == 5 { assert MismatchAt(NewRemote, OldRemote, 5, 0); }
      else if i == 6 { assert MismatchAt(NewRemote, OldRemote, 6, 0); }
      else if i == 7 { assert MismatchAt(NewRemote, OldRemote, 7, 1); }
      else if i == 8 { assert MismatchAt(NewRemote, OldRemote, 8, 0); }
      else if i == 9 { assert MismatchAt(NewRemote, OldRemote, 9, 0); }
      else if i == 10 { assert MismatchAt(NewRemote, OldRemote, 10, 0); }
      else if i == 11 { assert MismatchAt(NewRemote, OldRemote, 11, 0); }
      else if i == 12 { assert MismatchAt(NewRemote, OldRemote, 12, 0); }
      else if i == 13 { assert MismatchAt(NewRemote, OldRemote, 13, 0); }
      else if i == 14 { assert MismatchAt(NewRemote, OldRemote, 14, 0); }
      else if i == 15 { assert MismatchAt(NewRemote, OldRemote, 15, 0); }
      else if i == 16 { assert MismatchAt(NewRemote, OldRemote, 16, 0); }
      else if i == 17 { assert MismatchAt(NewRemote, OldRemote, 17, 0); }
      else if i == 18 { assert MismatchAt(NewRemote, OldRemote, 18, 0); }
      else if i == 19 { assert MismatchAt(NewRemote, OldRemote, 19, 0); }
    }
  }

  /** No proper tail of the old remote name runs on into the new one. */
  lemma OldRemoteTailsClash()
    ensures NoPatternIntoReplacement(OldRemote, NewRemote)
  {
    forall k: nat | 1 <= k < |OldRemote| ensures StartClashes(OldRemote, NewRemote, k) {
      if k == 1 { assert MismatchAt(OldRemote, NewRemote, 1, 0); }
      else if k == 2 { assert MismatchAt(OldRemote, NewRemote, 2, 0); }
      else if k == 3 { assert MismatchAt(OldRemote, NewRemote, 3, 0); }
      else if k == 4 { assert MismatchAt(OldRemote, NewRemote, 4, 0); }
      else if k == 5 { assert MismatchAt(OldRemote, NewRemote, 5, 0); }
      else if k == 6 { assert MismatchAt(OldRemote, NewRemote, 6, 0); }
      else if k == 7 { assert MismatchAt(OldRemote, NewRemote, 7, 1); }
      else if k == 8 { assert MismatchAt(OldRemote, NewRemote, 8, 0); }
      else if k == 9 { assert MismatchAt(OldRemote, NewRemote, 9, 0); }
      else if k == 10 { assert MismatchAt(OldRemote, NewRemote, 10, 0); }
      else if k == 11 { assert MismatchAt(OldRemote, NewRemote, 11, 0); }
      else if k == 12 { assert MismatchAt(OldRemote, NewRemote, 12, 0); }
      else if k == 13 { assert MismatchAt(OldRemote, NewRemote, 13, 0); }
      else if k == 14 { assert MismatchAt(OldRemote, NewRemote, 14, 0); }
      else if k == 15 { assert MismatchAt(OldRemote, NewRemote, 15, 0); }
    }
  }

  /**
   * After the update in execute mode the config no longer mentions the old
   * remote name, so a second run records nothing and changes nothing.
   */
  lemma GitUpdateIdempotent(fs: FileSystem)
    ensures Read(fs, GitConfig).Some? && Occurs(Read(fs, GitConfig).value, OldRemote) ==>
              Read(GitResult(fs), GitConfig).Some? && !Occurs(Read(GitResult(fs), GitConfig).value, OldRemote)
    ensures GitEntries(GitResult(fs)) == if GitEntries(fs) == [GitConfigWarning] then [GitConfigWarning] else []
    ensures GitResult(GitResult(fs)) == GitResult(fs)
  {
    if Exists(fs, GitConfig) && Read(fs, GitConfig).Some? && Occurs(Read(fs, GitConfig).value, OldRemote) {
      NewRemoteClashes();
      OldRemoteTailsClash();
      ReplaceAllRemovesPattern(Read(fs, GitConfig).value, OldRemote, NewRemote);
    }
  }

  /** Text processing never touches the git config: the walk skips hidden directories. */
  lemma ProcessingSkipsGitConfig(rules: seq<Rule>, fs: FileSystem, t: Tree, dryRun: bool)
    requires AllWellFormed(rules)
    ensures Read(ProcessState(rules, fs, Collected([], t), dryRun), GitConfig) == Read(fs, GitConfig)
  {
    GitConfigNeverCollected(t);
    ProcessStateOthers(rules, fs, Collected([], t), dryRun, GitConfig);
  }

  /**
   * Text processing never writes a file that the selection rejects: one whose
   * name is not selected, or one lying under a pruned directory.
   */
  lemma RejectedNeverWritten(rules: seq<Rule>, fs: FileSystem, t: Tree, dryRun: bool, p: Path)
    requires AllWellFormed(rules)
    requires p == [] || !ShouldProcessFile(p[|p| - 1]) || !ThroughKeptDirs([], p)
    ensures Read(ProcessState(rules, fs, Collected([], t), dryRun), p) == Read(fs, p)
  {
    if p in Collected([], t) {
      CollectedSound([], t, p);
      assert false;
    }
    ProcessStateOthers(rules, fs, Collected([], t), dryRun, p);
  }

  // ---------------------------------------------------------------------
  // The whole run
  // ---------------------------------------------------------------------

  /** The tree after the three steps; `t` is the listing the walk returns once the renames are done. */
  function RunState(rules: seq<Rule>, renames: seq<(Path, Path)>, fs: FileSystem, t: Tree, dryRun: bool): FileSystem
    requires AllWellFormed(rules) && PathRules(renames)
  {
    var renamed := RenameState(fs, renames, dryRun);
    var processed := ProcessState(rules, renamed, Collected([], t), dryRun);
    if dryRun then processed else GitResult(processed)
  }

  /** The entries of the three steps, each step announced by its banner. */
  function RunEntries(rules: seq<Rule>, renames: seq<(Path, Path)>, fs: FileSystem, t: Tree, dryRun: bool): seq<Entry>
    requires AllWellFormed(rules) && PathRules(renames)
  {
    var renamed := RenameState(fs, renames, dryRun);
    var processed := ProcessState(rules, renamed, Collected([], t), dryRun);
    [StepBanner(1)] + RenameEntries(fs, renames, dryRun)
      + [StepBanner(2), ProcessingCount(|Collected([], t)|)] + ProcessEntries(rules, renamed, Collected([], t), dryRun)
      + [StepBanner(3)] + GitEntries(processed)
  }

  lemma RunConcat(c0: seq<Entry>, renames: seq<Entry>, n: nat, files: seq<Entry>, git: seq<Entry>)
    ensures (((((c0 + [StepBanner(1)]) + renames) + [StepBanner(2)]) + [ProcessingCount(n)]) + files) + [StepBanner(3)] + git
         == c0 + ([StepBanner(1)] + renames + [StepBanner(2), ProcessingCount(n)] + files + [StepBanner(3)] + git)
  {
  }

  /** A dry run leaves the whole tree as it was. */
  lemma DryRunKeepsTree(rules: seq<Rule>, renames: seq<(Path, Path)>, fs: FileSystem, t: Tree)
    requires AllWellFormed(rules) && PathRules(renames)
    ensures RunState(rules, renames, fs, t, true) == fs
  {
    DryRenameKeepsTree(fs, renames);
  }

  /**
   * The git step sees the config as it was before the run: the renames of
   * the script's table do not touch `.git`, and text processing skips it.
   */
  lemma GitStepSeesOriginalConfig(rules: seq<Rule>, fs: FileSystem, t: Tree, dryRun: bool)
    requires AllWellFormed(rules)
    ensures PathRules(PathRenames)
    ensures var processed := ProcessState(rules, RenameState(fs, PathRenames, dryRun), Collected([], t), dryRun);
            Read(processed, GitConfig) == Read(fs, GitConfig)
  {
    PathRenamesIndependent();
    var renamed := RenameState(fs, PathRenames, dryRun);
    RenamesKeepConfig(fs, PathRenames, dryRun);
    ProcessingSkipsGitConfig(rules, renamed, t, dryRun);
  }

  /** Renames whose sources and targets lie outside `.git` leave the config as it was. */
  lemma {:induction false} RenamesKeepConfig(fs: FileSystem, rules: seq<(Path, Path)>, dryRun: bool)
    requires PathRules(rules)
    requires forall i | 0 <= i < |rules| :: rules[i].0[0] != ".git" && rules[i].1[0] != ".git"
    ensures Read(RenameState(fs, rules, dryRun), GitConfig) == Read(fs, GitConfig)
    decreases |rules|
  {
    if rules != [] {
      var n := |rules| - 1;
      RenamesKeepConfig(fs, rules[..n], dryRun);
      RenameStepKeepsConfig(RenameState(fs, rules[..n], dryRun), rules[n], dryRun);
    }
  }



  // ---------------------------------------------------------------------
  // The object
  // ---------------------------------------------------------------------

  class RenameProject {
    /** Dry-run mode records the changes without touching the tree. */
    const dryRun: bool
    /** The text rules, applied in order. */
    const replacements: seq<Rule>
    /** The path renames, performed in order. */
    const pathRenames: seq<(Path, Path)>
    /** Every change recorded so far, in order. */
    var changes: seq<Entry>
    /** The project tree the run works on. */
    var fs: FileSystem

    /** A project over `fs0`, with the script's rule and rename tables and nothing recorded. */
    constructor(fs0: FileSystem, dryRun: bool)
      ensures this.dryRun == dryRun && fs == fs0 && changes == []
      ensures replacements == Substitutions && pathRenames == PathRenames
      ensures RenamingTable(replacements) && IndependentRenames(pathRenames)
    {
      this.dryRun := dryRun;
      replacements := Substitutions;
      pathRenames := PathRenames;
      fs := fs0;
      changes := [];
      TableShape();
      PathRenamesIndependent();
    }

    /** Record one change. */
    method Log(e: Entry)
      modifies this
      ensures changes == old(changes) + [e] && fs == old(fs)
    {
      changes := changes + [e];
    }

    /**
     * Run the rules in order, each on the previous output, remembering the
     * rules that changed the content together with their match counts.
     */
    method ApplyRules(original: string) returns (content: string, changesMade: seq<RuleReport>)
      requires AllWellFormed(replacements)
      ensures content == Rewrite(replacements, original)
      ensures changesMade == Reports(replacements, original)
    {
      content := original;
      changesMade := [];
      var i := 0;
      while i < |replacements|
        invariant 0 <= i <= |replacements|
        invariant AllWellFormed(replacements[..i])
        invariant content == Rewrite(replacements[..i], original)
        invariant changesMade == Reports(replacements[..i], original)
      {
        RewriteStep(replacements, i, original);
        var rule := replacements[i];
        var newContent := ApplyRule(rule, content);
        if newContent != content {
          var occurrences := Occurrences(rule, content);
          changesMade := changesMade + [RuleReport(rule, occurrences)];
          content := newContent;
        }
        i := i + 1;
      }
      assert replacements[..i] == replacements;
    }

    /**
     * Rewrite one file: if the rules changed its content, record it and the
     * rules that changed it and, in execute mode, write it back.  A file that
     * cannot be read records one error.
     */
    method ReplaceInFile(p: Path)
      requires AllWellFormed(replacements)
      modifies this
      ensures changes == old(changes) + FileEntries(replacements, old(fs), p)
      ensures fs == if dryRun then old(fs) else FileResult(replacements, old(fs), p)
    {
      var read := Read(fs, p);
      if read.None? {
        Log(FileError(p));
        return;
      }
      var original := read.value;
      var content, changesMade := ApplyRules(original);
      if content != original {
        Log(UpdatingFile(p));
        LogReports(changesMade);
        AppendAssoc(old(changes), [UpdatingFile(p)], ReportEntries(changesMade));
        if !dryRun {
          fs := Write(fs, p, content);
        }
      }
    }

    /** Record one entry per remembered rule, in order. */
    method LogReports(reports: seq<RuleReport>)
      modifies this
      ensures changes == old(changes) + ReportEntries(reports) && fs == old(fs)
    {
      var j := 0;
      while j < |reports|
        invariant 0 <= j <= |reports|
        invariant changes == old(changes) + ReportEntries(reports[..j]) && fs == old(fs)
      {
        assert reports[..j + 1][..j] == reports[..j];
        Log(RuleChange(reports[j]));
        j := j + 1;
      }
      assert reports[..j] == reports;
    }

    /**
     * One path rename: record the rename when the source exists and, in
     * execute mode, create the destination's parents and move it; otherwise
     * record a warning.
     */
    method RenamePath(rule: (Path, Path))
      requires rule.0 != []
      modifies this
      ensures changes == old(changes) + [RenameEntry(old(fs), rule)]
      ensures fs == RenameStep(old(fs), rule, dryRun)
    {
      if Exists(fs, rule.0) {
        Log(Renaming(rule.0, rule.1));
        if !dryRun {
          fs := Move(MakeParents(fs, rule.1), rule.0, rule.1);
        }
      } else {
        Log(PathNotFound(rule.0));
      }
    }

    /** Perform the path renames in order; a missing source does not stop the later ones. */
    method RenamePaths()
      requires PathRules(pathRenames)
      modifies this
      ensures changes == old(changes) + RenameEntries(old(fs), pathRenames, dryRun)
      ensures fs == RenameState(old(fs), pathRenames, dryRun)
    {
      ghost var start, fs0 := changes, fs;
      var i := 0;
      assert pathRenames[..0] == [];
      assert fs == RenameState(fs0, pathRenames[..0], dryRun);
      while i < |pathRenames|
        invariant 0 <= i <= |pathRenames|
        invariant PathRules(pathRenames[..i])
        invariant changes == start + RenameEntries(fs0, pathRenames[..i], dryRun)
        invariant fs == RenameState(fs0, pathRenames[..i], dryRun)
      {
        ghost var done, before := RenameEntries(fs0, pathRenames[..i], dryRun), fs;
        RenameSlice(fs0, pathRenames, i, dryRun);
        RenamePath(pathRenames[i]);
        AppendAssoc(start, done, [RenameEntry(before, pathRenames[i])]);
        i := i + 1;
      }
      assert pathRenames[..i] == pathRenames;
    }

    /**
     * Collect the selected files of the listing the walk returns, record
     * their number, then rewrite each in turn.
     */
    method ProcessAllFiles(t: Tree)
      requires AllWellFormed(replacements)
      modifies this
      ensures changes == old(changes) + [ProcessingCount(|Collected([], t)|)]
                         + ProcessEntries(replacements, old(fs), Collected([], t), dryRun)
      ensures fs == ProcessState(replacements, old(fs), Collected([], t), dryRun)
    {
      var paths := CollectFiles(t);
      Log(ProcessingCount(|paths|));
      ghost var start, fs0 := changes, fs;
      var i := 0;
      assert paths[..0] == [];
      assert changes == start + ProcessEntries(replacements, fs0, paths[..0], dryRun);
      assert fs == ProcessState(replacements, fs0, paths[..0], dryRun);
      while i < |paths|
        invariant 0 <= i <= |paths|
        invariant changes == start + ProcessEntries(replacements, fs0, paths[..i], dryRun)
        invariant fs == ProcessState(replacements, fs0, paths[..i], dryRun)
      {
        ghost var done := ProcessEntries(replacements, fs0, paths[..i], dryRun);
        ProcessStep(replacements, fs0, paths, i, dryRun);
        ghost var entries := FileEntries(replacements, fs, paths[i]);
        ReplaceInFile(paths[i]);
        AppendAssoc(start, done, entries);
        i := i + 1;
      }
      assert paths[..i] == paths;
      assert start == old(changes) + [ProcessingCount(|Collected([], t)|)] && fs0 == old(fs);
    }

    /** The three steps in order, each announced by its banner; `t` is the listing the walk returns. */
    method Run(t: Tree)
      requires AllWellFormed(replacements) && PathRules(pathRenames)
      modifies this
      ensures changes == old(changes) + RunEntries(replacements, pathRenames, old(fs), t, dryRun)
      ensures fs == RunState(replacements, pathRenames, old(fs), t, dryRun)
    {
      ghost var c0, fs0 := changes, fs;
      Log(StepBanner(1));
      RenamePaths();
      ghost var renamed := fs;
      Log(StepBanner(2));
      ProcessAllFiles(t);
      Log(StepBanner(3));
      UpdateGitRemote();
      RunConcat(c0, RenameEntries(fs0, pathRenames, dryRun), |Collected([], t)|,
                ProcessEntries(replacements, renamed, Collected([], t), dryRun),
                GitEntries(ProcessState(replacements, renamed, Collected([], t), dryRun)));
    }

    /**
     * If the git config exists and mentions the old remote name, record it
     * and, in execute mode, replace every occurrence; a config that cannot be
     * read records a warning.
     */
    method UpdateGitRemote()
      modifies this
      ensures changes == old(changes) + GitEntries(old(fs))
      ensures fs == if dryRun then old(fs) else GitResult(old(fs))
    {
      if Exists(fs, GitConfig) {
        var read := Read(fs, GitConfig);
        if read.None? {
          Log(GitConfigWarning);
        } else if Occurs(read.value, OldRemote) {
          Log(UpdatingGitRemote);
          var newContent := ReplaceAll(read.value, OldRemote, NewRemote);
          if !dryRun {
            fs := Write(fs, GitConfig, newContent);
          }
        }
      }
    }
  }
}
