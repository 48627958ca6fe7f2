/**
 * `stage_file` and `use_staged_file` of document_apps.rs over the directories and files below `open-in`.
 * File writes are all or nothing and launching an application does not itself change the tree.
 */
module Staging {
  import opened Outcomes

  type Bytes = seq<bv8>

  datatype Path = Path(dir: string, name: string)

  datatype Tree = Tree(dirs: set<string>, files: map<Path, Bytes>)

  /** Every file lies in an existing directory. */
  ghost predicate WellFormed(t: Tree) {
    forall p | p in t.files :: p.dir in t.dirs
  }

  /** Which of a call's operating-system requests fail. */
  datatype Faults = Faults(
    read: bool, createDir: bool, write: bool, launch: bool, removeFile: bool, removeDir: bool)

  datatype Error = NotAPlainName | PrepareFailed | SaveFailed | LaunchFailed

  datatype Staged = Staged(path: Path, created: bool)

  datatype StageResult = StageResult(tree: Tree, staged: Result<Staged, Error>)

  datatype UseResult = UseResult(tree: Tree, path: Result<Path, Error>)

  predicate PlainName(name: string) {
    name != "" && name != "." && name != ".." && forall c | c in name :: c !in {'/', '\\', ':', '\0'}
  }

  predicate IsEmptyDir(t: Tree, dir: string) {
    forall p | p in t.files :: p.dir != dir
  }

  /** `remove_dir`: only an empty directory goes. */
  function RemoveDir(t: Tree, dir: string, fails: bool): Tree {
    if fails || !IsEmptyDir(t, dir) then t else t.(dirs := t.dirs - {dir})
  }

  /** `key` is the digest of `bytes` and `random` the random directory name; nothing is assumed of either. */
  function Stage(t: Tree, name: string, bytes: Bytes, key: string, random: string, f: Faults): StageResult {
    if !PlainName(name) then StageResult(t, Err(NotAPlainName)) else
      var existing := Path(key, name);
      if existing in t.files && !f.read && t.files[existing] == bytes
      then StageResult(t, Ok(Staged(existing, false)))
      else
        var dir := if key in t.dirs then random else key;
        if f.createDir || dir in t.dirs then StageResult(t, Err(PrepareFailed)) else
          var made := t.(dirs := t.dirs + {dir});
          if f.write then StageResult(RemoveDir(made, dir, f.removeDir), Err(SaveFailed)) else
            var path := Path(dir, name);
            StageResult(made.(files := t.files[path := bytes]), Ok(Staged(path, true)))
  }

  function Use(t: Tree, name: string, bytes: Bytes, key: string, random: string, f: Faults): UseResult {
    var s := Stage(t, name, bytes, key, random, f);
    match s.staged
    case Err(e) => UseResult(s.tree, Err(e))
    case Ok(staged) =>
      if !f.launch then UseResult(s.tree, Ok(staged.path))
      else if !staged.created then UseResult(s.tree, Err(LaunchFailed))
      else
        var removed := if f.removeFile then s.tree else s.tree.(files := s.tree.files - {staged.path});
        UseResult(RemoveDir(removed, staged.path.dir, f.removeDir), Err(LaunchFailed))
  }

  /** `u` has every file of `t`, unchanged. */
  ghost predicate Keeps(t: Tree, u: Tree) {
    && WellFormed(u) && t.dirs <= u.dirs
    && forall p | p in t.files :: p in u.files && u.files[p] == t.files[p]
  }

  lemma StageKeepsFiles(t: Tree, name: string, bytes: Bytes, key: string, random: string, f: Faults)
    requires WellFormed(t)
    ensures var s := Stage(t, name, bytes, key, random, f);
      Keeps(t, s.tree) && (s.staged.Ok? && s.staged.value.created ==> s.staged.value.path.dir !in t.dirs)
  {
    var dir := if key in t.dirs then random else key;
    if dir !in t.dirs {
      assert Path(dir, name) !in t.files;
    }
  }

  /** No call changes or removes a file that existed before it, whatever fails. */
  lemma UseKeepsFiles(t: Tree, name: string, bytes: Bytes, key: string, random: string, f: Faults)
    requires WellFormed(t)
    ensures Keeps(t, Use(t, name, bytes, key, random, f).tree)
  {
    StageKeepsFiles(t, name, bytes, key, random, f);
    var s := Stage(t, name, bytes, key, random, f);
    if s.staged.Ok? && s.staged.value.created {
      assert s.staged.value.path !in t.files;
    }
  }

  /** A success names a path that holds exactly the requested bytes, whatever the digest function does. */
  lemma SuccessHoldsBytes(t: Tree, name: string, bytes: Bytes, key: string, random: string, f: Faults)
    ensures var u := Use(t, name, bytes, key, random, f);
      u.path.Ok? ==> u.path.value.name == name && u.path.value in u.tree.files && u.tree.files[u.path.value] == bytes
  {
  }

  /** A failed call whose own cleanup works leaves the tree exactly as it was. */
  lemma FailureRestores(t: Tree, name: string, bytes: Bytes, key: string, random: string, f: Faults)
    requires WellFormed(t) && !f.removeFile && !f.removeDir
    requires Use(t, name, bytes, key, random, f).path.Err?
    ensures Use(t, name, bytes, key, random, f).tree == t
  {
    var dir := if key in t.dirs then random else key;
    var s := Stage(t, name, bytes, key, random, f);
    if dir !in t.dirs {
      var made := t.(dirs := t.dirs + {dir});
      assert IsEmptyDir(made, dir) && made.dirs - {dir} == t.dirs;
      if s.staged.Ok? && s.staged.value.created {
        assert s.tree.files - {Path(dir, name)} == t.files;
      }
    }
  }

  // ---------- outcomes ----------

  /** A name the source accepts as one plain path component. */
  predicate OneComponent(name: string) {
    name != "" && name != "." && name != ".." && '/' !in name && '\\' !in name && ':' !in name && '\0' !in name
  }

  /** The digest directory can be read and holds the file with these bytes. */
  predicate Reusable(t: Tree, name: string, bytes: Bytes, key: string, f: Faults) {
    !f.read && Path(key, name) in t.files && t.files[Path(key, name)] == bytes
  }

  /**
   * The answer of every call, by its name, the tree and its faults: a name that is no plain component is refused; else
   * the reusable copy is used, or a new one below the digest directory, or below a random one if that is taken.
   */
  lemma OutcomeExactly(t: Tree, name: string, bytes: Bytes, key: string, random: string, f: Faults)
    ensures var dir := if key in t.dirs then random else key;
      Use(t, name, bytes, key, random, f).path ==
      if !OneComponent(name) then Err(NotAPlainName)
      else if !Reusable(t, name, bytes, key, f) && (f.createDir || dir in t.dirs) then Err(PrepareFailed)
      else if !Reusable(t, name, bytes, key, f) && f.write then Err(SaveFailed)
      else if f.launch then Err(LaunchFailed)
      else Ok(Path(if Reusable(t, name, bytes, key, f) then key else dir, name))
  {
    assert PlainName(name) <==> OneComponent(name);
  }

  /** The first copy of a file goes below its digest directory, and a call without faults succeeds with it. */
  lemma FirstCopy(t: Tree, name: string, bytes: Bytes, key: string, random: string, f: Faults)
    requires WellFormed(t) && OneComponent(name) && key !in t.dirs && !f.createDir && !f.write && !f.launch
    ensures Use(t, name, bytes, key, random, f) ==
            UseResult(Tree(t.dirs + {key}, t.files[Path(key, name) := bytes]), Ok(Path(key, name)))
  {
    assert PlainName(name) <==> OneComponent(name);
    assert Path(key, name) !in t.files;
  }

  // ---------- runs ----------

  datatype Step =
    | Call(name: string, bytes: Bytes, key: string, random: string, faults: Faults)
    | UserWrite(path: Path, content: Bytes)
    | UserRemove(path: Path)

  function Next(t: Tree, step: Step): Tree {
    match step
    case Call(name, bytes, key, random, faults) => Use(t, name, bytes, key, random, faults).tree
    case UserWrite(path, content) => if path.dir in t.dirs then t.(files := t.files[path := content]) else t
    case UserRemove(path) => t.(files := t.files - {path})
  }

  function Run(t: Tree, steps: seq<Step>): Tree
    decreases |steps|
  {
    if steps == [] then t else Run(Next(t, steps[0]), steps[1..])
  }

  predicate Touches(step: Step, path: Path) {
    !step.Call? && step.path == path
  }

  /** Over every run, a file changes only when the user changes it. */
  lemma {:induction false} EditsSurvive(t: Tree, steps: seq<Step>, path: Path)
    requires WellFormed(t) && path in t.files
    requires forall i | 0 <= i < |steps| :: !Touches(steps[i], path)
    ensures WellFormed(Run(t, steps)) && path in Run(t, steps).files && Run(t, steps).files[path] == t.files[path]
    decreases |steps|
  {
    if steps != [] {
      if steps[0].Call? {
        UseKeepsFiles(t, steps[0].name, steps[0].bytes, steps[0].key, steps[0].random, steps[0].faults);
      }
      assert !Touches(steps[0], path);
      EditsSurvive(Next(t, steps[0]), steps[1..], path);
    }
  }

  /**
   * A successful call makes no new copy if and only if the file below the digest directory can be read and still
   * holds the bytes. Copies in random directories are not found again.
   */
  lemma ReusedExactly(t: Tree, name: string, bytes: Bytes, key: string, random: string, f: Faults)
    requires WellFormed(t) && Use(t, name, bytes, key, random, f).path.Ok?
    ensures Use(t, name, bytes, key, random, f).tree == t <==>
            !f.read && Path(key, name) in t.files && t.files[Path(key, name)] == bytes
  {
    var dir := if key in t.dirs then random else key;
    if dir !in t.dirs {
      assert dir in t.dirs + {dir};
    }
  }

  /** A copy below the digest directory is reused after any run in which the user leaves it alone. */
  lemma UnchangedCopyIsReused(
    t: Tree, name: string, bytes: Bytes, key: string, random: string, f: Faults,
    steps: seq<Step>, again: string, g: Faults)
    requires WellFormed(t) && Use(t, name, bytes, key, random, f).path == Ok(Path(key, name)) && !g.read
    requires forall i | 0 <= i < |steps| :: !Touches(steps[i], Path(key, name))
    ensures var u := Run(Use(t, name, bytes, key, random, f).tree, steps);
      Use(u, name, bytes, key, again, g) == UseResult(u, if g.launch then Err(LaunchFailed) else Ok(Path(key, name)))
  {
    UseKeepsFiles(t, name, bytes, key, random, f);
    SuccessHoldsBytes(t, name, bytes, key, random, f);
    EditsSurvive(Use(t, name, bytes, key, random, f).tree, steps, Path(key, name));
  }

  /**
   * A copy that went below a random directory is not found again: as long as the digest directory does not hold the
   * bytes, the next successful call makes another copy, however untouched the first one is.
   */
  lemma RandomCopyIsNotReused(
    t: Tree, name: string, bytes: Bytes, key: string, random: string, f: Faults,
    steps: seq<Step>, again: string, g: Faults)
    requires WellFormed(t) && Use(t, name, bytes, key, random, f).path == Ok(Path(random, name))
    requires forall i | 0 <= i < |steps| :: !Touches(steps[i], Path(random, name))
    requires var u := Run(Use(t, name, bytes, key, random, f).tree, steps);
      && !(Path(key, name) in u.files && u.files[Path(key, name)] == bytes)
      && Use(u, name, bytes, key, again, g).path.Ok?
    ensures var u := Run(Use(t, name, bytes, key, random, f).tree, steps);
      var v := Use(u, name, bytes, key, again, g);
      && Path(random, name) in u.files && u.files[Path(random, name)] == bytes
      && v.path.value !in u.files && v.tree.files == u.files[v.path.value := bytes]
  {
    UseKeepsFiles(t, name, bytes, key, random, f);
    SuccessHoldsBytes(t, name, bytes, key, random, f);
    EditsSurvive(Use(t, name, bytes, key, random, f).tree, steps, Path(random, name));
  }

  // ---------- the staging area ----------

  class StagingArea {
    var dirs: set<string>
    var files: map<Path, Bytes>

    constructor ()
      ensures State() == Tree({}, map[])
    {
      dirs, files := {}, map[];
    }

    function State(): Tree
      reads this
    {
      Tree(dirs, files)
    }

    method StageFile(name: string, bytes: Bytes, key: string, random: string, f: Faults)
      returns (staged: Result<Staged, Error>)
      modifies this
      ensures StageResult(State(), staged) == Stage(old(State()), name, bytes, key, random, f)
    {
      if !PlainName(name) {
        return Err(NotAPlainName);
      }
      var directory := key;
      var existing := Path(directory, name);
      if existing in files && !f.read && files[existing] == bytes {
        return Ok(Staged(existing, false));
      }
      if directory in dirs {
        directory := random;
      }
      if f.createDir || directory in dirs {
        return Err(PrepareFailed);
      }
      dirs := dirs + {directory};
      if f.write {
        RemoveDirectory(directory, f.removeDir);
        return Err(SaveFailed);
      }
      files := files[Path(directory, name) := bytes];
      return Ok(Staged(Path(directory, name), true));
    }

    method RemoveDirectory(dir: string, fails: bool)
      modifies this
      ensures State() == RemoveDir(old(State()), dir, fails)
    {
      if !fails && IsEmptyDir(State(), dir) {
        dirs := dirs - {dir};
      }
    }

    method UseStagedFile(name: string, bytes: Bytes, key: string, random: string, f: Faults)
      returns (path: Result<Path, Error>)
      modifies this
      ensures UseResult(State(), path) == Use(old(State()), name, bytes, key, random, f)
    {
      var staged := StageFile(name, bytes, key, random, f);
      if staged.Err? {
        return Err(staged.error);
      }
      if f.launch {
        if staged.value.created {
          if !f.removeFile {
            files := files - {staged.value.path};
          }
          RemoveDirectory(staged.value.path.dir, f.removeDir);
        }
        return Err(LaunchFailed);
      }
      return Ok(staged.value.path);
    }
  }
}
