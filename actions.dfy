/** The POST actions (lines 273-408) as decisions on the tree: each takes
    the tree and the current directory and gives the response (a flash
    message, or the end of the request) and the tree afterwards. Whether a
    file system call that the checks let through succeeds is a parameter. */
module Actions {
  import opened Wrappers
  import opened Strings
  import opened Names
  import opened Tree
  import opened Paths

  /** What an upload can report for one file, or for the directory. */
  datatype UploadError =
    | DirNotWritable
    | DangerousExtension(name: string)
    | ExtensionNotAllowed(name: string)
    | ExceedsSizeLimit(name: string)
    | UploadErrorCode(name: string, code: int)
    | InvalidTempFile(name: string)
    | MimeNotAllowed(name: string)
    | MoveFailed(name: string)

  /** `$flash`: `['ok', text]`, `['err', text]`, or the two upload reports
      (`implode('<br>', $errs)` and "Uploaded $count file(s).", whose text
      formatting is not modelled). */
  datatype Flash =
    | Success(text: string)
    | Failure(text: string)
    | UploadRejected(errors: seq<UploadError>)
    | Uploaded(count: nat)

  /** The response of an action and the tree after it: when the request
      ends early, the tree keeps what was done before. */
  datatype Outcome = Outcome(response: Result<Flash>, entries: Entries)

  /** A name `safe_filename` accepts can name an entry. */
  lemma SafeIsValid(n: string)
    requires IsSafeName(n)
    ensures ValidName(n)
  {
  }

  // ---------------------------------------------------------------- mkdir

  /** `mkdir` (lines 314-322): the name is made safe, an existing directory
      is refused, otherwise `mkdir` is tried; it fails when anything is at
      the name or when `mkdirOk` says the call fails. */
  function Mkdir(m: Entries, d: Path, folderRaw: string, now: int, mkdirOk: bool): (r: Outcome)
    requires WellFormed(m) && IsDir(m, d)
    ensures r.response.Exit? <==> SafeFilename(folderRaw).Exit?
    ensures r.response.Exit? ==> r.response == Exit(400, "Invalid name") && r.entries == m
    ensures WellFormed(r.entries)
    ensures r.response.Ok? ==>
              var t := d + [SafeFilename(folderRaw).value];
              && (r.response.value == Failure("Folder already exists.") <==> IsDir(m, t))
              && (r.response.value == Success("Folder created.") <==> t !in m && mkdirOk)
              && (r.response.value == Failure("Failed to create folder.") <==> !IsDir(m, t) && (t in m || !mkdirOk))
              && (r.response.value.Success? ==> r.entries == m[t := Dir(now, true)])
              && (r.response.value.Failure? ==> r.entries == m)
  {
    match SafeFilename(folderRaw)
    case Exit(code, msg) => Outcome(Exit(code, msg), m)
    case Ok(folder) =>
      if folder == "" then Outcome(Ok(Failure("Folder name required.")), m)
      else
        var t := d + [folder];
        if IsDir(m, t) then Outcome(Ok(Failure("Folder already exists.")), m)
        else if t !in m && mkdirOk then
          SafeIsValid(folder);
          AddKeepsWellFormed(m, d, folder, Dir(now, true));
          Outcome(Ok(Success("Folder created.")), m[t := Dir(now, true)])
        else Outcome(Ok(Failure("Failed to create folder.")), m)
  }

  // --------------------------------------------------------------- delete

  /** `delete` (lines 324-330): a missing item is reported, a directory is
      removed with everything below it, a file is unlinked; `deleteOk` says
      whether `rrmdir` or `unlink` succeeds. */
  function Delete(m: Entries, d: Path, nameRaw: string, deleteOk: bool): (r: Outcome)
    requires WellFormed(m) && IsDir(m, d)
    ensures r.response.Exit? <==> SafeFilename(nameRaw).Exit?
    ensures r.response.Exit? ==> r.response == Exit(400, "Invalid name") && r.entries == m
    ensures WellFormed(r.entries)
    ensures r.response.Ok? ==>
              var t := d + [SafeFilename(nameRaw).value];
              && (r.response.value == Failure("Item not found.") <==> t !in m)
              && (r.response.value == Success("Folder deleted.") <==> IsDir(m, t) && deleteOk)
              && (r.response.value == Success("File deleted.") <==> IsFile(m, t) && deleteOk)
              && (r.response.value == Failure("Delete failed.") <==> t in m && !deleteOk)
              && (r.response.value.Success? ==> r.entries == RemoveSubtree(m, t) && t !in r.entries)
              && (r.response.value.Failure? ==> r.entries == m)
  {
    match SafeFilename(nameRaw)
    case Exit(code, msg) => Outcome(Exit(code, msg), m)
    case Ok(targetName) =>
      var t := d + [targetName];
      if t !in m then Outcome(Ok(Failure("Item not found.")), m)
      else if !deleteOk then Outcome(Ok(Failure("Delete failed.")), m)
      else
        RemoveKeepsWellFormed(m, t);
        assert t <= t;
        if IsDir(m, t) then Outcome(Ok(Success("Folder deleted.")), RemoveSubtree(m, t))
        else Outcome(Ok(Success("File deleted.")), RemoveSubtree(m, t))
  }

  // ----------------------------------------------------------------- move

  /** The last steps of `move` (lines 347-364), once the item `src` exists
      and the target folder `t` is a directory: the guard against moving a
      folder into itself or below itself compares "target/" with "source/"
      as strings, then an item of the same name in the target is refused,
      then `rename` is tried. Entries in the tree have no symbolic links, so
      `realpath` of an entry is its own path. */
  function MoveInto(m: Entries, src: Path, t: Path, realBase: string, moveOk: bool): (r: Outcome)
    requires WellFormed(m) && src in m && src != [] && IsDir(m, t)
    ensures r.response.Ok? && WellFormed(r.entries)
    ensures ValidName(Last(src)) && (!(IsDir(m, src) && src <= t) ==> !(src <= t))
    ensures IsDir(m, src) && src <= t ==>
              r == Outcome(Ok(Failure("Cannot move a folder into itself or its subfolder.")), m)
    ensures !(IsDir(m, src) && src <= t) ==> r == MoveTo(m, src, t, Last(src), moveOk)
  {
    MoveIntoFacts(m, src, t, realBase);
    var item := Last(src);
    if IsDir(m, src) && StartsWith(AbsOf(realBase, t) + "/", AbsOf(realBase, src) + "/") then
      Outcome(Ok(Failure("Cannot move a folder into itself or its subfolder.")), m)
    else
      MoveTo(m, src, t, Basename(item), moveOk)
  }

  /** What `move` relies on: the names on both paths hold no separator, so
      the string-prefix test is the ancestor test, and the item keeps its
      name; an item that is not a folder above the target is not above it
      at all. */
  lemma MoveIntoFacts(m: Entries, src: Path, t: Path, realBase: string)
    requires WellFormed(m) && src in m && src != [] && IsDir(m, t)
    ensures Basename(Last(src)) == Last(src) && ValidName(Last(src))
    ensures StartsWith(AbsOf(realBase, t) + "/", AbsOf(realBase, src) + "/") <==> src <= t
    ensures !(IsDir(m, src) && src <= t) ==> !(src <= t)
  {
    NamesOnPathValid(m, src);
    NamesOnPathValid(m, t);
    SlashPrefixIsAncestor(realBase, src, t);
    if !IsDir(m, src) && src <= t {
      if src != t {
        BelowIsDir(m, src, t);
      }
    }
  }

  /** The last steps of `move`, once the item is known not to go below
      itself: an item of the same name `name` in the target folder `t` is
      refused, otherwise `rename` is tried; a move that succeeds keeps the
      tree well formed. */
  function MoveTo(m: Entries, src: Path, t: Path, name: string, moveOk: bool): (r: Outcome)
    requires WellFormed(m) && src in m && src != []
    requires IsDir(m, t) && ValidName(name) && !(src <= t)
    ensures r.response.Ok? && WellFormed(r.entries)
    ensures r.response.value in [Failure("An item with the same name already exists in target."), Success("Moved."), Failure("Move failed.")]
    ensures var dst := t + [name];
            && (r.response.value == Failure("An item with the same name already exists in target.") <==> dst in m)
            && (r.response.value == Success("Moved.") <==> dst !in m && moveOk)
            && (r.response.value == Failure("Move failed.") <==> dst !in m && !moveOk)
            && (r.response.value.Success? ==>
                  r.entries == Relocate(m, src, dst) && src !in r.entries && dst in r.entries && r.entries[dst] == m[src])
            && (r.response.value.Failure? ==> r.entries == m)
  {
    var dst := t + [name];
    if dst in m then
      Outcome(Ok(Failure("An item with the same name already exists in target.")), m)
    else if moveOk then
      assert Parent(dst) == t && Last(dst) == name;
      RelocateKeepsWellFormed(m, src, dst);
      Outcome(Ok(Success("Moved.")), Relocate(m, src, dst))
    else
      Outcome(Ok(Failure("Move failed.")), m)
  }

  /** The location of the folder a move names, once resolved inside the
      base. */
  function TargetFolder(basePath: string, targetRel: string, realpath: string -> Option<string>): (r: Result<Path>)
    ensures r.Exit? <==> ResolveContained(basePath, targetRel, realpath).Exit?
    ensures r.Exit? ==> r == ResolveContained(basePath, targetRel, realpath).PropagateFailure()
    ensures r.Ok? ==> var res := ResolveContained(basePath, targetRel, realpath).value;
                      AbsOf(res.realBase, r.value) == res.absPath
    ensures r.Ok? ==> Some(r.value) == Locate(ResolveContained(basePath, targetRel, realpath).value)
    ensures r.Ok? ==> forall i | 0 <= i < |r.value| :: '/' !in r.value[i]
  {
    var res :- ResolveContained(basePath, targetRel, realpath);
    LocateRoundTrip(res);
    Ok(Locate(res).value)
  }

  /** `move` (lines 333-368): the item and the target folder are checked in
      turn; the target folder is resolved below the base (the second
      `resolve_path` may end the request). */
  function Move(m: Entries, d: Path, basePath: string, realpath: string -> Option<string>,
                nameRaw: string, targetRaw: string, moveOk: bool): (r: Outcome)
    requires WellFormed(m) && IsDir(m, d)
    ensures r.response.Exit? ==> r.entries == m
    ensures SafeFilename(nameRaw).Exit? ==> r.response == Exit(400, "Invalid name")
    ensures SafeFilename(nameRaw).Ok? ==>
              var src := d + [SafeFilename(nameRaw).value];
              var targetRel := CleanSeg(targetRaw);
              var target := TargetFolder(basePath, targetRel, realpath);
              && (src !in m ==> r == Outcome(Ok(Failure("Item not found.")), m))
              && (src in m && targetRel == "" ==> r == Outcome(Ok(Failure("Target folder required.")), m))
              && (src in m && targetRel != "" && target.Exit? ==> r.response == target.PropagateFailure())
              && (src in m && targetRel != "" && target.Ok? && !IsDir(m, target.value) ==>
                    r == Outcome(Ok(Failure("Target folder does not exist.")), m))
              && (src in m && targetRel != "" && target.Ok? && IsDir(m, target.value) ==>
                    var base := ResolveContained(basePath, targetRel, realpath).value.realBase;
                    r == MoveInto(m, src, target.value, base, moveOk))
  {
    match SafeFilename(nameRaw)
    case Exit(code, msg) => Outcome(Exit(code, msg), m)
    case Ok(item) =>
      var targetRel := CleanSeg(targetRaw);
      var src := d + [item];
      if src !in m then Outcome(Ok(Failure("Item not found.")), m)
      else if targetRel == "" then Outcome(Ok(Failure("Target folder required.")), m)
      else
        match TargetFolder(basePath, targetRel, realpath)
        case Exit(code, msg) => Outcome(Exit(code, msg), m)
        case Ok(t) =>
          if !IsDir(m, t) then Outcome(Ok(Failure("Target folder does not exist.")), m)
          else
            var base := ResolveContained(basePath, targetRel, realpath).value.realBase;
            MoveInto(m, src, t, base, moveOk)
  }

  /** A move keeps the tree well formed: every outcome but a successful
      `MoveInto` leaves it as it was. */
  lemma MoveKeepsWellFormed(m: Entries, d: Path, basePath: string, realpath: string -> Option<string>,
                            nameRaw: string, targetRaw: string, moveOk: bool)
    requires WellFormed(m) && IsDir(m, d)
    ensures WellFormed(Move(m, d, basePath, realpath, nameRaw, targetRaw, moveOk).entries)
  {
    var r := Move(m, d, basePath, realpath, nameRaw, targetRaw, moveOk);
    if SafeFilename(nameRaw).Ok? {
      var src := d + [SafeFilename(nameRaw).value];
      var targetRel := CleanSeg(targetRaw);
      var target := TargetFolder(basePath, targetRel, realpath);
      if src in m && targetRel != "" && target.Ok? && IsDir(m, target.value) {
        var base := ResolveContained(basePath, targetRel, realpath).value.realBase;
        var r2 := MoveInto(m, src, target.value, base, moveOk);
        assert r == r2;
      } else {
        assert r.entries == m;
      }
    } else {
      assert r.entries == m;
    }
  }

  // --------------------------------------------------------------- rename

  /** The last steps of `rename`, for either kind of entry: an existing
      target is refused, otherwise `rename` is tried. */
  function RenameTo(m: Entries, src: Path, newName: string, renameOk: bool): (r: Outcome)
    requires WellFormed(m) && src in m && src != [] && ValidName(newName)
    ensures r.response.Ok? && WellFormed(r.entries)
    ensures r.response.value in [Failure("Target name exists."), Success("Renamed."), Failure("Rename failed.")]
    ensures var dst := Parent(src) + [newName];
            && (r.response.value == Failure("Target name exists.") <==> dst in m)
            && (r.response.value == Success("Renamed.") <==> dst !in m && renameOk)
            && (r.response.value == Failure("Rename failed.") <==> dst !in m && !renameOk)
            && (r.response.value.Success? ==>
                  r.entries == Relocate(m, src, dst) && src !in r.entries && dst in r.entries && r.entries[dst] == m[src])
            && (r.response.value.Failure? ==> r.entries == m)
  {
    var dst := Parent(src) + [newName];
    if dst in m then Outcome(Ok(Failure("Target name exists.")), m)
    else if renameOk then
      assert Parent(dst) == Parent(src) && Last(dst) == newName;
      assert !(src <= Parent(src)) by {
        assert |Parent(src)| < |src|;
      }
      RelocateKeepsWellFormed(m, src, dst);
      Outcome(Ok(Success("Renamed.")), Relocate(m, src, dst))
    else Outcome(Ok(Failure("Rename failed.")), m)
  }

  /** The name a file is renamed to keeps a valid form. */
  lemma RenamedFileNameValid(newBase: string, origExt: string)
    requires IsSafeName(newBase) && '/' !in origExt
    ensures ValidName(RenamedFileName(newBase, origExt))
  {
    SafeIsValid(newBase);
    if origExt != "" {
      NoSlashInDotted(newBase, origExt);
    }
  }

  /** The name the entry gets: a folder takes the new base as it is, a file
      keeps its original extension (line 397). */
  function NewName(isDir: bool, oldName: string, newBase: string): (r: string)
    requires IsSafeName(newBase)
    ensures ValidName(r)
    ensures isDir ==> r == newBase
    ensures !isDir && FileExt(oldName) != "" ==> FileExt(r) == FileExt(oldName)
    ensures !isDir && FileExt(oldName) == "" ==> r == newBase
  {
    SafeIsValid(newBase);
    var origExt := FileExt(oldName);
    RenamedFileNameValid(newBase, origExt);
    if isDir then newBase
    else if origExt != "" then
      RenameKeepsExtension(oldName, newBase);
      RenamedFileName(newBase, origExt)
    else RenamedFileName(newBase, origExt)
  }

  /** `rename` (lines 372-408): the old name is made safe and a missing
      item is reported. */
  function Rename(m: Entries, d: Path, oldRaw: string, newRaw: string, renameOk: bool): (r: Outcome)
    requires WellFormed(m) && IsDir(m, d)
    ensures WellFormed(r.entries)
    ensures SafeFilename(oldRaw).Exit? ==> r == Outcome(Exit(400, "Invalid name"), m)
    ensures SafeFilename(oldRaw).Ok? ==>
              var src := d + [SafeFilename(oldRaw).value];
              && (src !in m ==> r == Outcome(Ok(Failure("Item not found.")), m))
              && (src in m ==> r == RenameEntry(m, src, newRaw, renameOk))
  {
    match SafeFilename(oldRaw)
    case Exit(code, msg) => Outcome(Exit(code, msg), m)
    case Ok(oldName) =>
      var src := d + [oldName];
      if src !in m then Outcome(Ok(Failure("Item not found.")), m)
      else RenameEntry(m, src, newRaw, renameOk)
  }

  /** Renaming an existing entry (lines 380-406): the new base is made safe
      (which may end the request); a folder takes it as its name, a file
      keeps its extension and may not get a dangerous name. */
  function RenameEntry(m: Entries, src: Path, newRaw: string, renameOk: bool): (r: Outcome)
    requires WellFormed(m) && src in m && src != []
    ensures WellFormed(r.entries)
    ensures r.response.Exit? <==> FilenameBase(newRaw).Exit?
    ensures r.response.Exit? ==> r == Outcome(Exit(400, "Invalid name"), m)
    ensures FilenameBase(newRaw).Ok? ==>
              var newName := NewName(IsDir(m, src), Last(src), FilenameBase(newRaw).value);
              && (IsFile(m, src) && IsDangerousExt(newName) ==> r == Outcome(Ok(Failure("Target name not allowed.")), m))
              && (!(IsFile(m, src) && IsDangerousExt(newName)) ==> r == RenameTo(m, src, newName, renameOk))
  {
    if IsDir(m, src) then
      match FilenameBase(newRaw)
      case Exit(code, msg) => Outcome(Exit(code, msg), m)
      case Ok(newName) =>
        SafeIsValid(newName);
        if newName == "" then Outcome(Ok(Failure("Folder name required.")), m)
        else RenameTo(m, src, newName, renameOk)
    else
      var origExt := FileExt(Last(src));
      match FilenameBase(newRaw)
      case Exit(code, msg) => Outcome(Exit(code, msg), m)
      case Ok(newBase) =>
        if newBase == "" then Outcome(Ok(Failure("File name required.")), m)
        else
          var newName := RenamedFileName(newBase, origExt);
          if IsDangerousExt(newName) then Outcome(Ok(Failure("Target name not allowed.")), m)
          else
            RenamedFileNameValid(newBase, origExt);
            RenameTo(m, src, newName, renameOk)
  }

  /** A renamed file keeps its extension and never gets a dangerous one. */
  lemma RenameKeepsFileExtension(m: Entries, d: Path, oldRaw: string, newRaw: string, renameOk: bool)
    requires WellFormed(m) && IsDir(m, d)
    requires Rename(m, d, oldRaw, newRaw, renameOk).response == Ok(Success("Renamed."))
    requires IsFile(m, d + [SafeFilename(oldRaw).value])
    ensures var oldName := SafeFilename(oldRaw).value;
            var newName := RenamedFileName(FilenameBase(newRaw).value, FileExt(oldName));
            && !IsDangerousExt(newName)
            && (FileExt(oldName) != "" ==> FileExt(newName) == FileExt(oldName))
            && Rename(m, d, oldRaw, newRaw, renameOk).entries == Relocate(m, d + [oldName], d + [newName])
  {
    var oldName := SafeFilename(oldRaw).value;
    var src := d + [oldName];
    assert Parent(src) == d && Last(src) == oldName;
    assert Rename(m, d, oldRaw, newRaw, renameOk) == RenameEntry(m, src, newRaw, renameOk);
    RenamedFile(m, src, newRaw, renameOk);
  }

  /** `RenameKeepsFileExtension` for the entry itself: a file renamed by
      `RenameEntry` gets the new base with its old extension, which is not
      dangerous, and exactly that entry moves. */
  lemma RenamedFile(m: Entries, src: Path, newRaw: string, renameOk: bool)
    requires WellFormed(m) && src in m && src != [] && IsFile(m, src)
    requires RenameEntry(m, src, newRaw, renameOk).response == Ok(Success("Renamed."))
    ensures FilenameBase(newRaw).Ok?
    ensures var newName := RenamedFileName(FilenameBase(newRaw).value, FileExt(Last(src)));
            && !IsDangerousExt(newName)
            && (FileExt(Last(src)) != "" ==> FileExt(newName) == FileExt(Last(src)))
            && RenameEntry(m, src, newRaw, renameOk).entries == Relocate(m, src, Parent(src) + [newName])
  {
    NewNameOfFile(Last(src), FilenameBase(newRaw).value);
  }

  /** A file's new name is the new base with the old extension appended. */
  lemma NewNameOfFile(oldName: string, newBase: string)
    requires IsSafeName(newBase)
    ensures NewName(false, oldName, newBase) == RenamedFileName(newBase, FileExt(oldName))
  {
  }
}
