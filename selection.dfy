/**
 * Which files the rename script rewrites: a file is selected by its name
 * (one of four special names, or a name whose suffix is one of eight text
 * extensions), and the directory walk prunes hidden and build directories
 * before descending into them.
 */
module Selection {
  import opened Optional

  /** A path relative to the project root, one component per directory level. */
  type Path = seq<string>

  const TextExtensions: set<string> := {".lua", ".md", ".txt", ".sh", ".nix", ".yaml", ".yml", ".json"}
  const SpecialFiles: set<string> := {"Justfile", "Makefile", "LICENSE", "CHANGELOG"}
  const PrunedDirNames: set<string> := {"node_modules", "build", "dist", "__pycache__"}

  /** `name.rfind('.')`: the index of the last dot, or None when there is none. */
  function LastDot(name: string): (r: Option<nat>)
    ensures r.Some? ==> && r.value < |name| && name[r.value] == '.'
                        && forall j | r.value < j < |name| :: name[j] != '.'
    ensures r.None? ==> forall j | 0 <= j < |name| :: name[j] != '.'
    decreases |name|
  {
    if name == [] then None
    else if name[|name| - 1] == '.' then Some(|name| - 1)
    else LastDot(name[..|name| - 1])
  }

  /**
   * The suffix of a file name as a path library reports it: from the last
   * dot to the end, provided that dot is neither the first nor the last
   * character; otherwise empty.
   */
  function Suffix(name: string): (ext: string)
    ensures ext != [] ==> && 2 <= |ext| < |name| && ext == name[|name| - |ext|..]
                          && ext[0] == '.' && forall j | 0 < j < |ext| :: ext[j] != '.'
    ensures ext == [] ==> forall j | 0 < j < |name| - 1 :: name[j] == '.' ==> exists k | j < k < |name| :: name[k] == '.'
  {
    match LastDot(name)
    case Some(i) =>
      if 0 < i < |name| - 1 then name[i..]
      else
        assert forall j | 0 < j < |name| - 1 :: name[j] == '.' ==> j < i;
        []
    case None => []
  }

  /** Whether the text replacements are applied to a file with this name. */
  predicate ShouldProcessFile(name: string)
  {
    name in SpecialFiles || Suffix(name) in TextExtensions
  }

  /** An extension as the table lists it: a dot, then at least one character, none of them a dot. */
  predicate ExtensionShape(ext: string)
  {
    |ext| >= 2 && ext[0] == '.' && forall j | 0 < j < |ext| :: ext[j] != '.'
  }

  /** The name ends in `ext` with at least one character before it. */
  predicate EndsWithAfterStem(name: string, ext: string)
  {
    |ext| < |name| && name[|name| - |ext|..] == ext
  }

  lemma ExtensionsShaped()
    ensures forall ext | ext in TextExtensions :: ExtensionShape(ext)
  {
  }

  /**
   * A name's suffix is `ext`, for an extension of the table's shape, exactly
   * when the name ends in `ext` after a non-empty stem.
   */
  lemma SuffixIff(name: string, ext: string)
    requires ExtensionShape(ext)
    ensures Suffix(name) == ext <==> EndsWithAfterStem(name, ext)
  {
    if EndsWithAfterStem(name, ext) {
      var i := |name| - |ext|;
      assert name[i] == '.';
      forall j | i < j < |name| ensures name[j] != '.' {
        assert name[j] == ext[j - i];
      }
      match LastDot(name)
      case None =>
        assert false;
      case Some(d) =>
        assert d == i;
    }
  }

  /**
   * A file is selected exactly when its name is one of the special names or
   * ends in one of the text extensions after a non-empty stem; so `.md` and
   * `notes.` are not selected, `init.lua` and `Makefile` are.
   */
  lemma ShouldProcessFileIff(name: string)
    ensures ShouldProcessFile(name)
        <==> name in SpecialFiles || exists ext | ext in TextExtensions :: EndsWithAfterStem(name, ext)
  {
    ExtensionsShaped();
    if Suffix(name) in TextExtensions {
      SuffixIff(name, Suffix(name));
    }
    if exists ext | ext in TextExtensions :: EndsWithAfterStem(name, ext) {
      var ext :| ext in TextExtensions && EndsWithAfterStem(name, ext);
      SuffixIff(name, ext);
    }
  }

  /** The walk descends into a directory unless its name starts with a dot or names a build directory. */
  predicate KeepDir(d: string)
  {
    !(|d| > 0 && d[0] == '.') && d !in PrunedDirNames
  }

  /** The directory list after pruning, in the order of the listing. */
  function PruneDirs(dirs: seq<string>): (kept: seq<string>)
    ensures forall d :: d in kept <==> d in dirs && KeepDir(d)
    ensures |kept| <= |dirs|
  {
    if dirs == [] then []
    else (if KeepDir(dirs[0]) then [dirs[0]] else []) + PruneDirs(dirs[1..])
  }

  /** Pruning keeps the listing's order: pruning a concatenation prunes each part. */
  lemma {:induction false} PruneDirsAppend(a: seq<string>, b: seq<string>)
    ensures PruneDirs(a + b) == PruneDirs(a) + PruneDirs(b)
    decreases |a|
  {
    if a == [] {
      assert a + b == b;
    } else {
      assert (a + b)[0] == a[0] && (a + b)[1..] == a[1..] + b;
      PruneDirsAppend(a[1..], b);
    }
  }

  /**
   * One directory as the walk lists it: the names of its files and its
   * subdirectories, each in listing order.
   */
  datatype Tree = Tree(files: seq<string>, children: seq<Child>)
  datatype Child = Child(name: string, tree: Tree)

  /** The files of one directory that are selected, as paths under `at`. */
  function SelectedFiles(at: Path, files: seq<string>): seq<Path>
  {
    if files == [] then []
    else (if ShouldProcessFile(files[0]) then [at + [files[0]]] else []) + SelectedFiles(at, files[1..])
  }

  /**
   * The paths a top-down walk collects under the directory `at`: its own
   * selected files first, then, in order, the subdirectories that survive
   * pruning.
   */
  function Collected(at: Path, t: Tree): seq<Path>
    decreases t
  {
    SelectedFiles(at, t.files) + CollectedChildren(at, t.children)
  }

  function CollectedChildren(at: Path, cs: seq<Child>): seq<Path>
    decreases cs
  {
    if cs == [] then []
    else
      (if KeepDir(cs[0].name) then Collected(at + [cs[0].name], cs[0].tree) else [])
      + CollectedChildren(at, cs[1..])
  }

  /** `p` names a file of the tree, reached from `at` through the directories whose names `p` lists. */
  predicate FileIn(at: Path, t: Tree, p: Path)
    decreases t
  {
    && |at| < |p| && p[..|at|] == at
    && if |p| == |at| + 1 then p[|at|] in t.files
       else exists i | 0 <= i < |t.children| :: FileInChild(at, t.children[i], p)
  }

  predicate FileInChild(at: Path, c: Child, p: Path)
    decreases c
  {
    |at| + 1 < |p| && p[|at|] == c.name && FileIn(at + [c.name], c.tree, p)
  }

  /** Every directory level of `p` below `at` survives pruning. */
  predicate ThroughKeptDirs(at: Path, p: Path)
    requires |at| <= |p|
  {
    forall i | |at| <= i < |p| - 1 :: KeepDir(p[i])
  }

  lemma {:induction false} SelectedFilesSound(at: Path, files: seq<string>, p: Path)
    requires p in SelectedFiles(at, files)
    ensures |p| == |at| + 1 && p[..|at|] == at && p[|at|] in files && ShouldProcessFile(p[|at|])
    decreases |files|
  {
    if p != at + [files[0]] || !ShouldProcessFile(files[0]) {
      SelectedFilesSound(at, files[1..], p);
    }
  }

  lemma {:induction false} SelectedFilesComplete(at: Path, files: seq<string>, f: string)
    requires f in files && ShouldProcessFile(f)
    ensures at + [f] in SelectedFiles(at, files)
    decreases |files|
  {
    if files[0] != f {
      SelectedFilesComplete(at, files[1..], f);
    }
  }

  /**
   * Soundness of the walk: every collected path names a file of the tree,
   * reached only through directories that survive pruning, whose name is
   * selected.
   */
  lemma {:induction false} CollectedSound(at: Path, t: Tree, p: Path)
    requires p in Collected(at, t)
    ensures FileIn(at, t, p) && ThroughKeptDirs(at, p) && ShouldProcessFile(p[|p| - 1])
    decreases t
  {
    if p in SelectedFiles(at, t.files) {
      SelectedFilesSound(at, t.files, p);
    } else {
      var i := CollectedChildrenSound(at, t.children, p);
    }
  }

  lemma {:induction false} CollectedChildrenSound(at: Path, cs: seq<Child>, p: Path) returns (i: nat)
    requires p in CollectedChildren(at, cs)
    ensures i < |cs| && FileInChild(at, cs[i], p) && ThroughKeptDirs(at, p) && ShouldProcessFile(p[|p| - 1])
    decreases cs
  {
    var c := cs[0];
    if KeepDir(c.name) && p in Collected(at + [c.name], c.tree) {
      CollectedSound(at + [c.name], c.tree, p);
      var sub := at + [c.name];
      assert p[..|sub|] == sub;
      assert p[..|at|] == sub[..|at|];
      assert p[|at|] == sub[|at|];
      i := 0;
    } else {
      var j := CollectedChildrenSound(at, cs[1..], p);
      i := j + 1;
    }
  }

  /**
   * Completeness of the walk: every selected file of the tree reached only
   * through directories that survive pruning is collected.
   */
  lemma {:induction false} CollectedComplete(at: Path, t: Tree, p: Path)
    requires FileIn(at, t, p) && ThroughKeptDirs(at, p) && ShouldProcessFile(p[|p| - 1])
    ensures p in Collected(at, t)
    decreases t
  {
    if |p| == |at| + 1 {
      assert p == at + [p[|at|]];
      SelectedFilesComplete(at, t.files, p[|at|]);
    } else {
      var i :| 0 <= i < |t.children| && FileInChild(at, t.children[i], p);
      CollectedChildrenComplete(at, t.children, i, p);
    }
  }

  lemma {:induction false} CollectedChildrenComplete(at: Path, cs: seq<Child>, i: nat, p: Path)
    requires i < |cs| && FileInChild(at, cs[i], p)
    requires ThroughKeptDirs(at, p) && ShouldProcessFile(p[|p| - 1])
    ensures p in CollectedChildren(at, cs)
    decreases cs
  {
    if i == 0 {
      var c := cs[0];
      assert KeepDir(p[|at|]);
      CollectedComplete(at + [c.name], c.tree, p);
    } else {
      CollectedChildrenComplete(at, cs[1..], i - 1, p);
    }
  }

  /** Nothing under a hidden directory, such as the repository's own `.git/config`, is ever collected. */
  lemma GitConfigNeverCollected(t: Tree)
    ensures [".git", "config"] !in Collected([], t)
  {
    var p := [".git", "config"];
    if p in Collected([], t) {
      CollectedSound([], t, p);
    }
  }

  /** No two positions of `s` hold the same value. */
  predicate Distinct<T(==)>(s: seq<T>)
  {
    forall i, j | 0 <= i < j < |s| :: s[i] != s[j]
  }

  /** A directory listing as a file system produces it: no name listed twice, at any level. */
  predicate WellFormedTree(t: Tree)
    decreases t
  {
    && Distinct(t.files)
    && (forall i, j | 0 <= i < j < |t.children| :: t.children[i].name != t.children[j].name)
    && forall i | 0 <= i < |t.children| :: WellFormedTree(t.children[i].tree)
  }

  lemma DistinctAppend<T>(a: seq<T>, b: seq<T>)
    requires Distinct(a) && Distinct(b) && forall x | x in a :: x !in b
    ensures Distinct(a + b)
  {
    forall i, j | 0 <= i < j < |a + b| ensures (a + b)[i] != (a + b)[j] {
      if i < |a| && j >= |a| {
        assert (a + b)[i] in a && (a + b)[j] in b;
      }
    }
  }

  lemma {:induction false} SelectedFilesDistinct(at: Path, files: seq<string>)
    requires Distinct(files)
    ensures Distinct(SelectedFiles(at, files))
    decreases |files|
  {
    if files != [] {
      SelectedFilesDistinct(at, files[1..]);
      var head := if ShouldProcessFile(files[0]) then [at + [files[0]]] else [];
      forall x | x in head ensures x !in SelectedFiles(at, files[1..]) {
        if x in SelectedFiles(at, files[1..]) {
          SelectedFilesSound(at, files[1..], x);
        }
      }
      DistinctAppend(head, SelectedFiles(at, files[1..]));
    }
  }

  /** In a well-formed listing, the walk collects each path at most once. */
  lemma {:induction false} CollectedDistinct(at: Path, t: Tree)
    requires WellFormedTree(t)
    ensures Distinct(Collected(at, t))
    decreases t
  {
    SelectedFilesDistinct(at, t.files);
    CollectedChildrenDistinct(at, t.children);
    forall x | x in SelectedFiles(at, t.files) ensures x !in CollectedChildren(at, t.children) {
      SelectedFilesSound(at, t.files, x);
      if x in CollectedChildren(at, t.children) {
        var i := CollectedChildrenSound(at, t.children, x);
      }
    }
    DistinctAppend(SelectedFiles(at, t.files), CollectedChildren(at, t.children));
  }

  lemma {:induction false} CollectedChildrenDistinct(at: Path, cs: seq<Child>)
    requires forall i, j | 0 <= i < j < |cs| :: cs[i].name != cs[j].name
    requires forall i | 0 <= i < |cs| :: WellFormedTree(cs[i].tree)
    ensures Distinct(CollectedChildren(at, cs))
    decreases cs
  {
    if cs != [] {
      var c := cs[0];
      var sub := at + [c.name];
      var head := if KeepDir(c.name) then Collected(sub, c.tree) else [];
      if KeepDir(c.name) {
        CollectedDistinct(sub, c.tree);
      }
      CollectedChildrenDistinct(at, cs[1..]);
      forall x | x in head ensures x !in CollectedChildren(at, cs[1..]) {
        CollectedSound(sub, c.tree, x);
        assert x[|at|] == sub[|at|] == c.name by { assert x[..|sub|] == sub; }
        if x in CollectedChildren(at, cs[1..]) {
          var i := CollectedChildrenSound(at, cs[1..], x);
        }
      }
      DistinctAppend(head, CollectedChildren(at, cs[1..]));
    }
  }

  /** The names of a directory's subdirectories, in listing order. */
  function Names(cs: seq<Child>): (names: seq<string>)
    ensures |names| == |cs| && forall i | 0 <= i < |cs| :: names[i] == cs[i].name
  {
    if cs == [] then [] else [cs[0].name] + Names(cs[1..])
  }

  /** The subdirectories the walk still descends into once their names are pruned. */
  function PruneChildren(cs: seq<Child>): (kept: seq<Child>)
    ensures Names(kept) == PruneDirs(Names(cs))
    ensures forall c | c in kept :: c in cs && KeepDir(c.name)
  {
    if cs == [] then []
    else
      assert Names(cs)[0] == cs[0].name && Names(cs)[1..] == Names(cs[1..]);
      var rest := PruneChildren(cs[1..]);
      if KeepDir(cs[0].name) then
        assert Names([cs[0]] + rest) == [cs[0].name] + Names(rest);
        [cs[0]] + rest
      else rest
  }

  /** Pruned subdirectories contribute nothing to the walk. */
  lemma {:induction false} PruneChildrenCollected(at: Path, cs: seq<Child>)
    ensures CollectedChildren(at, PruneChildren(cs)) == CollectedChildren(at, cs)
    decreases |cs|
  {
    if cs != [] {
      PruneChildrenCollected(at, cs[1..]);
      if KeepDir(cs[0].name) {
        var kept := [cs[0]] + PruneChildren(cs[1..]);
        assert kept[0] == cs[0] && kept[1..] == PruneChildren(cs[1..]);
      }
    }
  }

  lemma {:induction false} PruneChildrenSize(cs: seq<Child>)
    ensures ChildrenSize(PruneChildren(cs)) <= ChildrenSize(cs)
    decreases |cs|
  {
    if cs != [] {
      PruneChildrenSize(cs[1..]);
      if KeepDir(cs[0].name) {
        var kept := [cs[0]] + PruneChildren(cs[1..]);
        assert kept[0] == cs[0] && kept[1..] == PruneChildren(cs[1..]);
      }
    }
  }

  lemma {:induction false} SelectedFilesSnoc(at: Path, files: seq<string>, j: nat)
    requires j < |files|
    ensures SelectedFiles(at, files[..j + 1])
         == SelectedFiles(at, files[..j]) + (if ShouldProcessFile(files[j]) then [at + [files[j]]] else [])
    decreases j
  {
    if j == 0 {
      assert files[..1][1..] == [];
    } else {
      SelectedFilesSnoc(at, files[1..], j - 1);
      assert files[1..][..j] == files[..j + 1][1..];
      assert files[1..][..j - 1] == files[..j][1..];
    }
  }

  /** The number of directories in a listing: what the walk has left to visit. */
  function Size(t: Tree): nat
    decreases t
  {
    1 + ChildrenSize(t.children)
  }

  function ChildrenSize(cs: seq<Child>): nat
    decreases cs
  {
    if cs == [] then 0 else Size(cs[0].tree) + ChildrenSize(cs[1..])
  }

  /** A directory waiting on the walk's stack, with its path. */
  datatype Frame = Frame(at: Path, tree: Tree)

  /** The paths the walk will still collect from the frames on the stack, top first. */
  function Pending(stack: seq<Frame>): seq<Path>
  {
    if stack == [] then []
    else
      var top := stack[|stack| - 1];
      Collected(top.at, top.tree) + Pending(stack[..|stack| - 1])
  }

  function StackSize(stack: seq<Frame>): nat
  {
    if stack == [] then 0 else Size(stack[|stack| - 1].tree) + StackSize(stack[..|stack| - 1])
  }

  lemma PushFrame(stack: seq<Frame>, f: Frame)
    ensures Pending(stack + [f]) == Collected(f.at, f.tree) + Pending(stack)
    ensures StackSize(stack + [f]) == Size(f.tree) + StackSize(stack)
  {
    assert (stack + [f])[..|stack|] == stack;
  }

  /** The `for file in files` loop of one directory: its selected files, in listing order. */
  method SelectFiles(at: Path, files: seq<string>) returns (selected: seq<Path>)
    ensures selected == SelectedFiles(at, files)
  {
    selected := [];
    var j := 0;
    while j < |files|
      invariant 0 <= j <= |files|
      invariant selected == SelectedFiles(at, files[..j])
    {
      SelectedFilesSnoc(at, files, j);
      if ShouldProcessFile(files[j]) {
        selected := selected + [at + [files[j]]];
      }
      j := j + 1;
    }
    assert files[..j] == files;
  }

  /**
   * Push the surviving subdirectories of the directory at `at`, last first,
   * so that the first of them is visited next.
   */
  method PushChildren(stack: seq<Frame>, at: Path, kept: seq<Child>) returns (pushed: seq<Frame>)
    requires forall c | c in kept :: KeepDir(c.name)
    ensures Pending(pushed) == CollectedChildren(at, kept) + Pending(stack)
    ensures StackSize(pushed) == ChildrenSize(kept) + StackSize(stack)
  {
    pushed := stack;
    var i := |kept|;
    while i > 0
      invariant 0 <= i <= |kept|
      invariant Pending(pushed) == CollectedChildren(at, kept[i..]) + Pending(stack)
      invariant StackSize(pushed) == ChildrenSize(kept[i..]) + StackSize(stack)
    {
      i := i - 1;
      var c := kept[i];
      PushFrame(pushed, Frame(at + [c.name], c.tree));
      KeptChild(at, kept, i);
      ghost var rest := CollectedChildren(at, kept[i + 1..]);
      AppendAssoc(Collected(at + [c.name], c.tree), rest, Pending(stack));
      pushed := pushed + [Frame(at + [c.name], c.tree)];
    }
  }

  /** The paths and size of the kept children from index `i` on: child `i`, then the rest. */
  lemma KeptChild(at: Path, kept: seq<Child>, i: nat)
    requires i < |kept| && KeepDir(kept[i].name)
    ensures CollectedChildren(at, kept[i..]) == Collected(at + [kept[i].name], kept[i].tree) + CollectedChildren(at, kept[i + 1..])
    ensures ChildrenSize(kept[i..]) == Size(kept[i].tree) + ChildrenSize(kept[i + 1..])
  {
    assert kept[i..][1..] == kept[i + 1..];
  }

  lemma AppendAssoc<T>(a: seq<T>, b: seq<T>, c: seq<T>)
    ensures (a + b) + c == a + (b + c)
  {
  }

  lemma WalkStep<T>(before: seq<T>, a: seq<T>, b: seq<T>, c: seq<T>)
    ensures (before + a) + (b + c) == before + ((a + b) + c)
  {
  }

  /**
   * The top-down walk of `process_all_files`: take the directory on top of
   * the stack, collect its selected files, prune its subdirectory names and
   * push the survivors so that the first is visited next.  It collects exactly
   * `Collected`, in the same order.
   */
  method CollectFiles(t: Tree) returns (paths: seq<Path>)
    ensures paths == Collected([], t)
  {
    paths := [];
    var stack := [Frame([], t)];
    PushFrame([], Frame([], t));
    while stack != []
      invariant paths + Pending(stack) == Collected([], t)
      decreases StackSize(stack)
    {
      ghost var whole := stack;
      var top := stack[|stack| - 1];
      stack := stack[..|stack| - 1];
      ghost var rest, before := stack, paths;
      assert whole == rest + [top];
      PushFrame(rest, top);
      assert Pending(whole) == Collected(top.at, top.tree) + Pending(rest);
      var selected := SelectFiles(top.at, top.tree.files);
      var kept := PruneChildren(top.tree.children);
      PruneChildrenCollected(top.at, top.tree.children);
      PruneChildrenSize(top.tree.children);
      paths := paths + selected;
      stack := PushChildren(stack, top.at, kept);
      WalkStep(before, selected, CollectedChildren(top.at, kept), Pending(rest));
    }
  }
}
