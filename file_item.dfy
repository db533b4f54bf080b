/**
 * The abstract filesystem and the `FileItem` of `hfs/core.py`.
 *
 * The filesystem is a finite map from a path, spelled as the server spells it,
 * to the kind of entry found there. A `FileItem` stores only its path; every
 * other attribute is derived from the path and the current filesystem when it
 * is read, as the Python properties do.
 */
module FileModel {
  import opened Text
  import opened PosixPath

  datatype Kind = File | Dir

  type FileSystem = map<string, Kind>

  /** A path relative to the directory the server runs in. */
  datatype FileItem = FileItem(fpath: string)

  /** `FileItem(fpath)`: an empty path stands for the current directory. */
  function MakeItem(fpath: string): (f: FileItem)
    ensures f.fpath != ""
    ensures fpath != "" ==> f.fpath == fpath
    ensures fpath == "" ==> f.fpath == "."
  {
    FileItem(if fpath != "" then fpath else ".")
  }

  /** `fname`: the last path component. */
  function Name(f: FileItem): string
  {
    Basename(f.fpath)
  }

  /** `exists`. */
  predicate Exists(fs: FileSystem, f: FileItem)
  {
    f.fpath in fs
  }

  /** `isdir`: false for a missing path. */
  predicate IsDir(fs: FileSystem, f: FileItem)
  {
    f.fpath in fs && fs[f.fpath] == Dir
  }

  /** `hidden`: the name starts with a dot. */
  predicate Hidden(f: FileItem)
  {
    "." <= Name(f)
  }

  /** `ftext`: the name, with a `/` appended for a directory. */
  function DisplayText(fs: FileSystem, f: FileItem): string
  {
    Name(f) + (if IsDir(fs, f) then "/" else "")
  }

  /** `parent`: the item of `dirname(fpath)`. */
  function Parent(f: FileItem): FileItem
  {
    MakeItem(Dirname(f.fpath))
  }

  /** `deletable` under the process-wide deletion level and upload pool. */
  predicate Deletable(level: nat, pool: set<string>, f: FileItem)
  {
    if level == 0 then false
    else if level == 1 then f.fpath in pool
    else true
  }

  /** The display text ends with `/` exactly for a directory, and what precedes that
      is the name, which never contains a `/`. */
  lemma TextMeaning(fs: FileSystem, f: FileItem)
    ensures var t := DisplayText(fs, f);
      && ('/' in t <==> IsDir(fs, f))
      && (IsDir(fs, f) ==> t == Name(f) + "/")
      && (!IsDir(fs, f) ==> t == Name(f))
  {
    var t := DisplayText(fs, f);
    if IsDir(fs, f) {
      assert t[|t| - 1] == '/';
    }
  }

  /** The empty path and `.` are the same item, the current directory; it counts
      as hidden because its name `.` starts with a dot. */
  lemma RootItem()
    ensures MakeItem("") == MakeItem(".")
    ensures Name(MakeItem("")) == "." && Hidden(MakeItem(""))
  {
    assert RFind(".", '/') == -1;
  }

  /** The item of a name listed in a directory has that name, and its parent is the
      directory (the empty directory name stands for `.`). */
  lemma ChildParts(dir: string, name: string)
    requires name != "" && '/' !in name
    requires dir == "" || dir[|dir| - 1] != '/'
    ensures Name(MakeItem(Join(dir, name))) == name
    ensures Parent(MakeItem(Join(dir, name))) == MakeItem(dir)
  {
    JoinParts(dir, name);
    assert Join(dir, name) != "";
  }

  /** Which items are deletable, level by level: none at level 0, exactly the uploaded
      paths at level 1, all at level 2 and above; a larger pool never removes one. */
  lemma DeletableMeaning(level: nat, pool: set<string>, pool': set<string>, f: FileItem)
    requires pool <= pool'
    ensures level == 0 ==> !Deletable(level, pool, f)
    ensures level == 1 ==> (Deletable(level, pool, f) <==> f.fpath in pool)
    ensures level >= 2 ==> Deletable(level, pool, f)
    ensures Deletable(level, pool, f) ==> Deletable(level, pool', f)
  {
  }
}
