/**
 * The project tree as the rename script sees it: files with their contents
 * and the directories that exist, addressed by paths relative to the project
 * root.  `mkdir(parents=True)` and `shutil.move` are modelled on this state.
 */
module Files {
  import opened Optional
  import opened Selection

  /** A file's content: text that decodes, or bytes whose decoding raises an error. */
  datatype Content = Text(text: string) | Undecodable

  datatype FileSystem = FileSystem(files: map<Path, Content>, dirs: set<Path>)

  /** `Path.exists()`: a file or a directory is there. */
  predicate Exists(fs: FileSystem, p: Path)
  {
    p in fs.files || p in fs.dirs
  }

  /** The content a read returns, or None when the read raises (no such file, or not decodable). */
  function Read(fs: FileSystem, p: Path): (r: Option<string>)
    ensures r.Some? <==> p in fs.files && fs.files[p].Text?
    ensures r.Some? ==> fs.files[p] == Text(r.value)
  {
    if p in fs.files && fs.files[p].Text? then Some(fs.files[p].text) else None
  }

  /** Writing text to a file: the file holds the text afterwards, nothing else changes. */
  function Write(fs: FileSystem, p: Path, s: string): (r: FileSystem)
    ensures r.files == fs.files[p := Text(s)] && r.dirs == fs.dirs
  {
    fs.(files := fs.files[p := Text(s)])
  }

  /** The strict ancestors of `p`, down to the root. */
  function Ancestors(p: Path): (r: set<Path>)
    ensures forall a | a in r :: |a| < |p| && a == p[..|a|]
    ensures forall i | 0 <= i < |p| :: p[..i] in r
  {
    set i | 0 <= i < |p| :: p[..i]
  }

  /** `p.parent.mkdir(parents=True, exist_ok=True)`: every strict ancestor of `p` becomes a directory. */
  function MakeParents(fs: FileSystem, p: Path): (r: FileSystem)
    ensures r.files == fs.files && r.dirs == fs.dirs + Ancestors(p)
  {
    fs.(dirs := fs.dirs + Ancestors(p))
  }

  /** Where `shutil.move(src, dst)` puts `src`: inside `dst` when that is an existing directory, else at `dst`. */
  function MoveTarget(fs: FileSystem, src: Path, dst: Path): (dest: Path)
    requires src != []
    ensures dst <= dest && |dest| <= |dst| + 1
    ensures dst in fs.dirs ==> dest == dst + [src[|src| - 1]]
    ensures dst !in fs.dirs ==> dest == dst
  {
    if dst in fs.dirs then dst + [src[|src| - 1]] else dst
  }

  /** The path that `p`, lying under `src`, has once `src` is moved to `dest`. */
  function Relocate(p: Path, src: Path, dest: Path): (q: Path)
    requires src <= p
    ensures dest <= q && |q| == |dest| + |p| - |src|
    ensures p == src + q[|dest|..]
  {
    var q := dest + p[|src|..];
    assert q[|dest|..] == p[|src|..];
    assert p == src + p[|src|..];
    q
  }

  /**
   * `shutil.move(src, dst)` as a rename: everything under `src` is relocated
   * under the target and merged with what is already there, a moved file
   * replacing one at the same path; everything else stays.
   */
  function Move(fs: FileSystem, src: Path, dst: Path): FileSystem
    requires src != []
  {
    var dest := MoveTarget(fs, src, dst);
    var stay := map p | p in fs.files && !(src <= p) :: fs.files[p];
    var moved := map p | p in fs.files && src <= p :: Relocate(p, src, dest) := fs.files[p];
    FileSystem(
      stay + moved,
      (set d | d in fs.dirs && !(src <= d)) + (set d | d in fs.dirs && src <= d :: Relocate(d, src, dest)))
  }

  /** Every file under `src` is found, with the same content, at its relocated path. */
  lemma MoveRelocates(fs: FileSystem, src: Path, dst: Path, p: Path)
    requires src != [] && p in fs.files && src <= p
    ensures var q := Relocate(p, src, MoveTarget(fs, src, dst));
            q in Move(fs, src, dst).files && Move(fs, src, dst).files[q] == fs.files[p]
  {
    var dest := MoveTarget(fs, src, dst);
    var q := Relocate(p, src, dest);
    var moved := map p | p in fs.files && src <= p :: Relocate(p, src, dest) := fs.files[p];
    assert q in moved;
  }

  /** Neither path lies under the other. */
  predicate Unrelated(a: Path, b: Path)
  {
    !(a <= b) && !(b <= a)
  }

  /** Once moved to an unrelated target, nothing is left under `src`. */
  lemma MoveEmptiesSource(fs: FileSystem, src: Path, dst: Path, p: Path)
    requires src != [] && Unrelated(src, MoveTarget(fs, src, dst)) && src <= p
    ensures !Exists(Move(fs, src, dst), p)
  {
  }

  /** A path under neither the source nor the target keeps its file or directory. */
  lemma MoveKeepsOthers(fs: FileSystem, src: Path, dst: Path, p: Path)
    requires src != [] && !(src <= p) && !(MoveTarget(fs, src, dst) <= p)
    ensures p in Move(fs, src, dst).files <==> p in fs.files
    ensures p in fs.files ==> Move(fs, src, dst).files[p] == fs.files[p]
    ensures p in Move(fs, src, dst).dirs <==> p in fs.dirs
  {
  }

  /**
   * A rename with its parent creation, `mkdir` then `shutil.move`, does not
   * affect whether a path exists when that path's first component differs
   * from those of the source and of the destination.
   */
  lemma RenameKeepsOtherTops(fs: FileSystem, src: Path, dst: Path, p: Path)
    requires src != [] && dst != [] && p != [] && p[0] != src[0] && p[0] != dst[0]
    ensures Exists(Move(MakeParents(fs, dst), src, dst), p) <==> Exists(fs, p)
  {
    var fs1 := MakeParents(fs, dst);
    var dest := MoveTarget(fs1, src, dst);
    assert dest[0] == dst[0];
    assert !(src <= p) && !(dest <= p);
    MoveKeepsOthers(fs1, src, dst, p);
    assert p !in Ancestors(dst);
  }
}
