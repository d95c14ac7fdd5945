/**
 * The IPC handlers of main.js over the abstract disk.
 *
 * The handlers share one piece of module state, the vault path, which only
 * `select-folder` sets. Each handler that touches the disk is given here
 * twice: as a function from the vault path and the disk before the call to
 * the reply and the disk after it, and as a method of `Handlers` that
 * performs the same steps on the object's fields.
 */
module MainProcess {
  import opened Wrappers
  import opened Fs
  import Scanner

  /** What `dialog.showOpenDialog` resolves to. */
  datatype DialogResult = DialogResult(canceled: bool, filePaths: seq<Path>)

  /** The reply of `open-file`: `{ path, content, name }`. */
  datatype FileData = FileData(path: Path, content: string, name: Name)

  /** A handler's boolean reply together with the disk it leaves behind. */
  datatype Outcome = Outcome(ok: bool, disk: Disk)

  /** The path a dialog hands back: there is a window, the dialog was not cancelled and returned a path. */
  function Picked(hasWindow: bool, r: DialogResult): Option<Path> {
    if hasWindow && !r.canceled && |r.filePaths| > 0 then Some(r.filePaths[0]) else None
  }

  /** `path.basename` */
  function Basename(p: Path): Name {
    if |p| == 0 then "" else p[|p| - 1]
  }

  /**
   * The conditions under which a file can be written at `full` once missing
   * directories have been made: no proper prefix of it is a file or another
   * kind of entry, it is itself neither a directory nor another kind of entry,
   * and writing it is not refused.
   */
  ghost predicate Creatable(d: Disk, full: Path) {
    && |full| > 0
    && (forall k :: 0 <= k < |full| ==> full[..k] !in d.files && full[..k] !in d.others)
    && full !in d.dirs && full !in d.others && full !in d.denied
  }

  // ---------------------------------------------------------------------------
  // The handlers as functions of the state before the call
  // ---------------------------------------------------------------------------

  /** `read-file`: `null` without a vault or when the read fails. */
  function ReadFileOp(vault: Option<Path>, d: Disk, p: Path): Option<string> {
    if vault.None? then None else ReadFile(d, vault.value + p)
  }

  /** `save-file`: make the parent directory when it is missing, then write. */
  function SaveFileOp(vault: Option<Path>, d: Disk, p: Path, c: string): Outcome {
    if vault.None? then Outcome(false, d)
    else
      var full := vault.value + p;
      var made := if Exists(d, Parent(full)) then Some(d) else Mkdirp(d, Parent(full));
      if made.None? then Outcome(false, d)
      else
        match WriteFile(made.value, full, c)
        case None => Outcome(false, made.value)
        case Some(d') => Outcome(true, d')
  }

  /** `create-file`: make the parent directory when it is missing, then write an empty file unless one exists. */
  function CreateFileOp(vault: Option<Path>, d: Disk, p: Path): Outcome {
    if vault.None? then Outcome(false, d)
    else
      var full := vault.value + p;
      var made := if Exists(d, Parent(full)) then Some(d) else Mkdirp(d, Parent(full));
      if made.None? then Outcome(false, d)
      else if Exists(made.value, full) then Outcome(true, made.value)
      else
        match WriteFile(made.value, full, "")
        case None => Outcome(false, made.value)
        case Some(d') => Outcome(true, d')
  }

  /** `delete-file`: unlink the file. */
  function DeleteFileOp(vault: Option<Path>, d: Disk, p: Path): Outcome {
    if vault.None? then Outcome(false, d)
    else
      match Unlink(d, vault.value + p)
      case None => Outcome(false, d)
      case Some(d') => Outcome(true, d')
  }

  /** `save-external-file`: write an absolute path, with no vault involved and no directory made. */
  function SaveExternalFileOp(d: Disk, abs: Path, c: string): Outcome {
    match WriteFile(d, abs, c)
    case None => Outcome(false, d)
    case Some(d') => Outcome(true, d')
  }

  /** `open-file`: the picked file's path, contents and base name, or `null`. */
  function OpenFileOp(hasWindow: bool, r: DialogResult, d: Disk): Option<FileData> {
    match Picked(hasWindow, r)
    case None => None
    case Some(path) =>
      match ReadFile(d, path)
      case None => None
      case Some(content) => Some(FileData(path, content, Basename(path)))
  }

  // ---------------------------------------------------------------------------
  // What the handlers promise
  // ---------------------------------------------------------------------------

  /** With no vault, `read-file` gives `null` and the three writers give `false` and leave the disk alone. */
  lemma NoVaultNoEffect(d: Disk, p: Path, c: string)
    ensures ReadFileOp(None, d, p) == None
    ensures SaveFileOp(None, d, p, c) == Outcome(false, d)
    ensures CreateFileOp(None, d, p) == Outcome(false, d)
    ensures DeleteFileOp(None, d, p) == Outcome(false, d)
  {
  }

  /** After a successful save the parent directory exists and reading the file gives back exactly `c`. */
  lemma SaveThenRead(v: Path, d: Disk, p: Path, c: string)
    requires SaveFileOp(Some(v), d, p, c).ok
    ensures Parent(v + p) in SaveFileOp(Some(v), d, p, c).disk.dirs
    ensures ReadFileOp(Some(v), SaveFileOp(Some(v), d, p, c).disk, p) == Some(c)
  {
  }

  /**
   * A save changes the file at `v + p` and nothing else that holds contents:
   * on success that file holds `c`, on failure every file is as it was; in
   * both cases the only directories added are those on the way to it.
   */
  lemma SaveFileEffect(v: Path, d: Disk, p: Path, c: string)
    ensures var o := SaveFileOp(Some(v), d, p, c);
      && (o.ok ==> o.disk.files == d.files[v + p := c])
      && (!o.ok ==> o.disk.files == d.files)
      && o.disk.others == d.others && o.disk.denied == d.denied
      && d.dirs <= o.disk.dirs <= d.dirs + Prefixes(Parent(v + p))
  {
  }

  /** On a well-formed disk a save succeeds exactly when the file is creatable. */
  lemma SaveFileSucceeds(v: Path, d: Disk, p: Path, c: string)
    requires Valid(d)
    ensures SaveFileOp(Some(v), d, p, c).ok <==> Creatable(d, v + p)
  {
    var full := v + p;
    var dir := Parent(full);
    if |full| > 0 {
      if dir in d.dirs {
        PrefixesOfDir(d, dir);
        forall k | 0 <= k < |full| ensures full[..k] in d.dirs {
          assert full[..k] == dir[..k];
          assert dir[..k] in Prefixes(dir);
        }
      } else if Exists(d, dir) {
        assert full[..|full| - 1] == dir;
      } else {
        forall k | 0 <= k < |full| ensures full[..k] in Prefixes(dir) {
          assert full[..k] == dir[..k];
        }
        forall q | q in Prefixes(dir) ensures q == full[..|q|] && |q| < |full| {
        }
        assert full !in Prefixes(dir);
      }
    }
  }

  lemma SaveFileKeepsValid(v: Path, d: Disk, p: Path, c: string)
    requires Valid(d)
    ensures Valid(SaveFileOp(Some(v), d, p, c).disk)
  {
    var full := v + p;
    if !Exists(d, Parent(full)) && Mkdirp(d, Parent(full)).Some? {
      MkdirpKeepsValid(d, Parent(full));
      var d1 := Mkdirp(d, Parent(full)).value;
      if WriteFile(d1, full, c).Some? {
        WriteFileKeepsValid(d1, full, c);
      }
    } else if Exists(d, Parent(full)) && WriteFile(d, full, c).Some? {
      WriteFileKeepsValid(d, full, c);
    }
  }

  /** `create-file` on an existing entry replies `true` and changes nothing: an existing file keeps its contents. */
  lemma CreateKeepsExisting(v: Path, d: Disk, p: Path)
    requires Valid(d) && Exists(d, v + p)
    ensures CreateFileOp(Some(v), d, p) == Outcome(true, d)
  {
    if v + p != [] {
      assert Parent(v + p) in d.dirs;
    }
  }

  /** `create-file` on an absent path is `save-file` with empty contents. */
  lemma CreateAbsentIsSave(v: Path, d: Disk, p: Path)
    requires Valid(d) && !Exists(d, v + p)
    ensures CreateFileOp(Some(v), d, p) == SaveFileOp(Some(v), d, p, "")
  {
    var full := v + p;
    assert |full| > 0;
    if !Exists(d, Parent(full)) && Mkdirp(d, Parent(full)).Some? {
      assert full !in Prefixes(Parent(full));
    }
  }

  /**
   * `create-file` on an absent path succeeds exactly when the file is
   * creatable, and then the file exists and is empty.
   */
  lemma CreateAbsentMakesEmpty(v: Path, d: Disk, p: Path)
    requires Valid(d) && !Exists(d, v + p)
    ensures CreateFileOp(Some(v), d, p).ok <==> Creatable(d, v + p)
    ensures CreateFileOp(Some(v), d, p).ok ==>
              CreateFileOp(Some(v), d, p).disk.files == d.files[v + p := ""]
    ensures !CreateFileOp(Some(v), d, p).ok ==> CreateFileOp(Some(v), d, p).disk.files == d.files
  {
    CreateAbsentIsSave(v, d, p);
    SaveFileSucceeds(v, d, p, "");
    SaveFileEffect(v, d, p, "");
  }

  lemma CreateFileKeepsValid(v: Path, d: Disk, p: Path)
    requires Valid(d)
    ensures Valid(CreateFileOp(Some(v), d, p).disk)
  {
    if Exists(d, v + p) {
      CreateKeepsExisting(v, d, p);
    } else {
      CreateAbsentIsSave(v, d, p);
      SaveFileKeepsValid(v, d, p, "");
    }
  }

  /** Deleting an absent file replies `false` and changes nothing. */
  lemma DeleteAbsentFails(v: Path, d: Disk, p: Path)
    requires !Exists(d, v + p)
    ensures DeleteFileOp(Some(v), d, p) == Outcome(false, d)
  {
  }

  /**
   * After a successful delete reading the entry gives `null`; on a
   * well-formed disk the entry is gone altogether.
   */
  lemma DeleteThenRead(v: Path, d: Disk, p: Path)
    requires DeleteFileOp(Some(v), d, p).ok
    ensures Valid(d) ==> !Exists(DeleteFileOp(Some(v), d, p).disk, v + p)
    ensures ReadFileOp(Some(v), DeleteFileOp(Some(v), d, p).disk, p) == None
  {
  }

  lemma DeleteFileKeepsValid(v: Path, d: Disk, p: Path)
    requires Valid(d)
    ensures Valid(DeleteFileOp(Some(v), d, p).disk)
  {
    if Unlink(d, v + p).Some? {
      UnlinkKeepsValid(d, v + p);
    }
  }

  /** After a successful external save, reading that absolute path gives back exactly `c`. */
  lemma SaveExternalThenRead(d: Disk, abs: Path, c: string)
    requires SaveExternalFileOp(d, abs, c).ok
    ensures ReadFile(SaveExternalFileOp(d, abs, c).disk, abs) == Some(c)
  {
  }

  lemma SaveExternalKeepsValid(d: Disk, abs: Path, c: string)
    requires Valid(d)
    ensures Valid(SaveExternalFileOp(d, abs, c).disk)
  {
    if WriteFile(d, abs, c).Some? {
      WriteFileKeepsValid(d, abs, c);
    }
  }

  /** `open-file` hands back the picked path with its contents, exactly when a readable file was picked. */
  lemma OpenFileReply(hasWindow: bool, r: DialogResult, d: Disk)
    ensures OpenFileOp(hasWindow, r, d).Some? <==>
              hasWindow && !r.canceled && |r.filePaths| > 0 && ReadFile(d, r.filePaths[0]).Some?
    ensures OpenFileOp(hasWindow, r, d).Some? ==>
              var f := OpenFileOp(hasWindow, r, d).value;
              f.path == r.filePaths[0] && Some(f.content) == ReadFile(d, f.path) && (|f.path| > 0 ==> f.name == f.path[|f.path| - 1])
  {
  }

  // ---------------------------------------------------------------------------
  // The main process
  // ---------------------------------------------------------------------------

  class Handlers {
    /** `vaultPath`: the open vault, `null` until a folder is selected. */
    var vaultPath: Option<Path>
    var disk: Disk

    ghost predicate Valid()
      reads this
    {
      Fs.Valid(disk)
    }

    constructor (d0: Disk)
      requires Fs.Valid(d0)
      ensures Valid()
      ensures vaultPath == None && disk == d0
    {
      vaultPath := None;
      disk := d0;
    }

    /** `select-folder`: the vault path changes only when the dialog picked a folder. */
    method SelectFolder(hasWindow: bool, r: DialogResult) returns (chosen: Option<Path>)
      modifies this`vaultPath
      ensures chosen == Picked(hasWindow, r)
      ensures vaultPath == if chosen.Some? then chosen else old(vaultPath)
    {
      if !hasWindow {
        return None;
      }
      if !r.canceled && |r.filePaths| > 0 {
        vaultPath := Some(r.filePaths[0]);
        return vaultPath;
      }
      return None;
    }

    /** `get-vault-path` */
    method GetVaultPath() returns (r: Option<Path>)
      ensures r == vaultPath
    {
      return vaultPath;
    }

    /** `get-files`: `null` without a vault, otherwise the scan of the vault. */
    method GetFiles() returns (r: Option<seq<Scanner.TreeNode>>)
      ensures r.None? <==> vaultPath.None?
      ensures r.Some? ==> Scanner.ScanOf(disk, vaultPath.value, [], r.value)
    {
      if vaultPath.None? {
        return None;
      }
      var items := Scanner.ReadDirectory(disk, vaultPath.value, []);
      return Some(items);
    }

    /** `read-file` */
    method ReadFile(p: Path) returns (r: Option<string>)
      ensures r == ReadFileOp(vaultPath, disk, p)
      ensures vaultPath.Some? && r.Some? ==> r.value == disk.files[vaultPath.value + p]
    {
      if vaultPath.None? {
        return None;
      }
      r := Fs.ReadFile(disk, vaultPath.value + p);
    }

    /** `save-file` */
    method SaveFile(p: Path, c: string) returns (ok: bool)
      requires Valid()
      modifies this`disk
      ensures Valid()
      ensures Outcome(ok, disk) == SaveFileOp(vaultPath, old(disk), p, c)
    {
      ghost var d0 := disk;
      if vaultPath.None? {
        return false;
      }
      SaveFileKeepsValid(vaultPath.value, disk, p, c);
      var full := vaultPath.value + p;
      var dir := Parent(full);
      if !Exists(disk, dir) {
        var made := Mkdirp(disk, dir);
        if made.None? {
          return false;
        }
        disk := made.value;
      }
      var written := WriteFile(disk, full, c);
      if written.None? {
        return false;
      }
      disk := written.value;
      return true;
    }

    /** `create-file` */
    method CreateFile(p: Path) returns (ok: bool)
      requires Valid()
      modifies this`disk
      ensures Valid()
      ensures Outcome(ok, disk) == CreateFileOp(vaultPath, old(disk), p)
    {
      if vaultPath.None? {
        return false;
      }
      CreateFileKeepsValid(vaultPath.value, disk, p);
      var full := vaultPath.value + p;
      var dir := Parent(full);
      if !Exists(disk, dir) {
        var made := Mkdirp(disk, dir);
        if made.None? {
          return false;
        }
        disk := made.value;
      }
      if !Exists(disk, full) {
        var written := WriteFile(disk, full, "");
        if written.None? {
          return false;
        }
        disk := written.value;
      }
      return true;
    }

    /** `delete-file` */
    method DeleteFile(p: Path) returns (ok: bool)
      requires Valid()
      modifies this`disk
      ensures Valid()
      ensures Outcome(ok, disk) == DeleteFileOp(vaultPath, old(disk), p)
    {
      if vaultPath.None? {
        return false;
      }
      DeleteFileKeepsValid(vaultPath.value, disk, p);
      var removed := Unlink(disk, vaultPath.value + p);
      if removed.None? {
        return false;
      }
      disk := removed.value;
      return true;
    }

    /** `save-external-file` */
    method SaveExternalFile(abs: Path, c: string) returns (ok: bool)
      requires Valid()
      modifies this`disk
      ensures Valid()
      ensures Outcome(ok, disk) == SaveExternalFileOp(old(disk), abs, c)
    {
      SaveExternalKeepsValid(disk, abs, c);
      var written := WriteFile(disk, abs, c);
      if written.None? {
        return false;
      }
      disk := written.value;
      return true;
    }

    /** `open-file`: no vault is needed and nothing changes. */
    method OpenFile(hasWindow: bool, r: DialogResult) returns (data: Option<FileData>)
      ensures data == OpenFileOp(hasWindow, r, disk)
    {
      if !hasWindow {
        return None;
      }
      if !r.canceled && |r.filePaths| > 0 {
        var path := r.filePaths[0];
        var content := Fs.ReadFile(disk, path);
        if content.None? {
          return None;
        }
        return Some(FileData(path, content.value, Basename(path)));
      }
      return None;
    }
  }
}
