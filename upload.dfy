/** The `upload` action (lines 273-311): every submitted file goes through a
    chain of checks, a file that passes is moved into the current directory,
    and the errors and the number of stored files make the report. The
    temporary-file test, the MIME sniffing and the move itself are oracles. */
module Upload {
  import opened Wrappers
  import opened Strings
  import opened Names
  import opened Tree
  import opened Actions

  /** One entry of `$_FILES['files']`: its name, size, temporary file and
      error code, taken at the same index. */
  datatype UploadFile = UploadFile(name: string, size: nat, tmp: string, error: int)

  /** What the file system and PHP answer during an upload:
      `is_writable($absDir)`, `is_uploaded_file($tmp)`, the MIME type `finfo`
      reports for a temporary file (`None` when `finfo` is not available; the
      function gives "" where `finfo_file` fails), and whether
      `move_uploaded_file` succeeds for a temporary file. */
  datatype UploadEnv = UploadEnv(
    writable: bool,
    isUploadedFile: string -> bool,
    mimeOf: Option<string -> string>,
    moveOk: string -> bool)

  /** `UPLOAD_ERR_OK`. */
  const UploadErrOk: int := 0

  /** The MIME types refused whatever the extension (line 301). */
  const BadMimeStarts: seq<string> := ["application/x-php", "text/x-php", "application/x-sh", "text/x-shellscript"]

  /** A MIME type that starts, ignoring case, with one of the refused ones. */
  predicate BadMime(mime: string) {
    exists i | 0 <= i < |BadMimeStarts| :: StartsWithIgnoreCase(mime, BadMimeStarts[i])
  }

  /** What the checks decide for one file: skip an empty name, report an
      error, or store the file under its safe name. */
  datatype Verdict = Skip | Reject(err: UploadError) | Store(name: string)

  /** A name the upload may store a file under. */
  predicate Uploadable(n: string) {
    IsSafeName(n) && ExtAllowed(n) && !IsDangerousExt(n)
  }

  /** The checks on one file (lines 283-304), in the order the code makes
      them. An unsafe name ends the request (`safe_filename` exits). A file
      is stored exactly when its name is non-empty and safe, not dangerous,
      allowed, within the size limit, without an upload error, a real
      temporary file, and not of a refused MIME type. */
  function CheckUpload(f: UploadFile, env: UploadEnv): (r: Result<Verdict>)
    ensures r == Ok(Skip) <==> f.name == ""
    ensures r.Exit? <==> f.name != "" && SafeFilename(f.name).Exit?
    ensures r.Exit? ==> r == Exit(400, "Invalid name")
    ensures r.Ok? && r.value.Store? ==> Uploadable(r.value.name)
    ensures (r.Ok? && r.value.Store?) <==>
              && f.name != "" && SafeFilename(f.name).Ok?
              && var n := SafeFilename(f.name).value;
              && !IsDangerousExt(n) && ExtAllowed(n)
              && f.size <= MaxUploadBytes && f.error == UploadErrOk
              && env.isUploadedFile(f.tmp)
              && !(env.mimeOf.Some? && BadMime(env.mimeOf.value(f.tmp)))
    ensures r.Ok? && r.value.Store? ==> r.value.name == SafeFilename(f.name).value
  {
    if f.name == "" then Ok(Skip)
    else
      var n :- SafeFilename(f.name);
      if IsDangerousExt(n) then Ok(Reject(DangerousExtension(n)))
      else if !ExtAllowed(n) then Ok(Reject(ExtensionNotAllowed(n)))
      else if f.size > MaxUploadBytes then Ok(Reject(ExceedsSizeLimit(n)))
      else if f.error != UploadErrOk then Ok(Reject(UploadErrorCode(n, f.error)))
      else if !env.isUploadedFile(f.tmp) then Ok(Reject(InvalidTempFile(n)))
      else if env.mimeOf.Some? && BadMime(env.mimeOf.value(f.tmp)) then Ok(Reject(MimeNotAllowed(n)))
      else Ok(Store(n))
  }

  /** The upload so far: the tree, `$errs`, `$count`, and whether the
      request has ended. */
  datatype UploadRun = UploadRun(entries: Entries, errors: seq<UploadError>, count: nat, halted: bool)

  /** Before the first file: a directory that is not writable is reported
      first, and the loop goes on. */
  function UploadStart(m: Entries, env: UploadEnv): (r: UploadRun)
    ensures r.entries == m && r.count == 0 && !r.halted
    ensures r.errors == [] <==> env.writable
  {
    UploadRun(m, if env.writable then [] else [DirNotWritable], 0, false)
  }

  /** `move_uploaded_file($tmp, $dest)`: it fails where a directory is at
      the destination or the oracle says so; otherwise the destination
      holds the uploaded file, replacing a file of that name. */
  function StoreFile(m: Entries, d: Path, n: string, f: UploadFile, now: int, env: UploadEnv): (r: Option<Entries>)
    ensures r.Some? <==> !IsDir(m, d + [n]) && env.moveOk(f.tmp)
  {
    if IsDir(m, d + [n]) || !env.moveOk(f.tmp) then None
    else Some(m[d + [n] := File(f.size, now, true)])
  }

  /** Storing a file under an uploadable name keeps the tree well formed
      and puts the file at its destination. */
  lemma StoreFileKeepsWellFormed(m: Entries, d: Path, n: string, f: UploadFile, now: int, env: UploadEnv)
    requires WellFormed(m) && IsDir(m, d) && Uploadable(n)
    requires StoreFile(m, d, n, f, now, env).Some?
    ensures var m2 := StoreFile(m, d, n, f, now, env).value;
            && WellFormed(m2) && IsDir(m2, d)
            && d + [n] in m2 && m2[d + [n]] == File(f.size, now, true)
  {
    SafeIsValid(n);
    NothingBelowFile(m, d + [n]);
    AddKeepsWellFormed(m, d, n, File(f.size, now, true));
    assert d != d + [n];
  }

  /** Nothing is below a location that holds no directory. */
  lemma NothingBelowFile(m: Entries, t: Path)
    requires WellFormed(m) && !IsDir(m, t)
    ensures forall p | p in m :: !(t < p)
  {
    if t !in m {
      NothingBelowAbsent(m, t);
    } else {
      forall p | p in m && t < p
        ensures false
      {
        BelowIsDir(m, t, p);
      }
    }
  }

  /** What a verdict does to the upload so far: an unsafe name ends the
      request, an error is recorded, a stored file is counted, a failed
      move is recorded. */
  function Apply(run: UploadRun, d: Path, v: Result<Verdict>, f: UploadFile, now: int, env: UploadEnv): (r: UploadRun)
    ensures r.count <= run.count + 1
    ensures run.errors <= r.errors && |r.errors| <= |run.errors| + 1
    ensures r.count + |r.errors| <= run.count + |run.errors| + 1
    ensures r.halted <==> run.halted || v.Exit?
    ensures v.Ok? && v.value.Store? && StoreFile(run.entries, d, v.value.name, f, now, env).Some? ==>
              r.entries == run.entries[d + [v.value.name] := File(f.size, now, true)]
    ensures !(v.Ok? && v.value.Store? && StoreFile(run.entries, d, v.value.name, f, now, env).Some?) ==>
              r.entries == run.entries
  {
    match v
    case Exit(_, _) => UploadRun(run.entries, run.errors, run.count, true)
    case Ok(Skip) => run
    case Ok(Reject(e)) => UploadRun(run.entries, run.errors + [e], run.count, run.halted)
    case Ok(Store(n)) =>
      match StoreFile(run.entries, d, n, f, now, env)
      case None => UploadRun(run.entries, run.errors + [MoveFailed(n)], run.count, run.halted)
      case Some(m2) => UploadRun(m2, run.errors, run.count + 1, run.halted)
  }

  /** What a verdict does, case by case. */
  lemma ApplyCases(run: UploadRun, d: Path, v: Result<Verdict>, f: UploadFile, now: int, env: UploadEnv)
    ensures var r := Apply(run, d, v, f, now, env);
            && (v.Exit? ==> r == UploadRun(run.entries, run.errors, run.count, true))
            && (v == Ok(Skip) ==> r == run)
            && (v.Ok? && v.value.Reject? ==> r == UploadRun(run.entries, run.errors + [v.value.err], run.count, run.halted))
            && (v.Ok? && v.value.Store? ==>
                  var n := v.value.name;
                  if IsDir(run.entries, d + [n]) || !env.moveOk(f.tmp)
                  then r == UploadRun(run.entries, run.errors + [MoveFailed(n)], run.count, run.halted)
                  else r == UploadRun(run.entries[d + [n] := File(f.size, now, true)], run.errors, run.count + 1, run.halted))
  {
  }

  /** One pass of the `foreach` body. After the request has ended nothing
      more happens; what a pass does otherwise is stated case by case in
      `UploadStepCases`. */
  function UploadStep(run: UploadRun, d: Path, f: UploadFile, now: int, env: UploadEnv): (r: UploadRun)
    ensures r.count <= run.count + 1
    ensures run.errors <= r.errors && |r.errors| <= |run.errors| + 1
    ensures r.count + |r.errors| <= run.count + |run.errors| + 1
    ensures run.halted ==> r == run
    ensures r.halted <==> run.halted || CheckUpload(f, env).Exit?
  {
    if run.halted then run else Apply(run, d, CheckUpload(f, env), f, now, env)
  }

  /** A pass before the request has ended: the file is counted exactly when
      the checks let it through and the move succeeds, and it is then the one
      change to the tree; a refused file appends the check's error, a failed
      move appends `MoveFailed`, and a skipped entry or an unsafe name
      appends nothing. */
  lemma UploadStepCases(run: UploadRun, d: Path, f: UploadFile, now: int, env: UploadEnv)
    requires !run.halted
    ensures var r := UploadStep(run, d, f, now, env);
            var v := CheckUpload(f, env);
            var stored := v.Ok? && v.value.Store? && StoreFile(run.entries, d, v.value.name, f, now, env).Some?;
            && (r.count == run.count + 1 <==> stored)
            && (stored ==> r.entries == run.entries[d + [v.value.name] := File(f.size, now, true)] && r.errors == run.errors)
            && (!stored ==> r.entries == run.entries && r.count == run.count)
            && (v.Ok? && v.value.Reject? ==> r.errors == run.errors + [v.value.err])
            && (v.Ok? && v.value.Store? && !stored ==> r.errors == run.errors + [MoveFailed(v.value.name)])
            && (v.Exit? || v == Ok(Skip) ==> r.errors == run.errors)
  {
    ApplyCases(run, d, CheckUpload(f, env), f, now, env);
  }

  /** A verdict that stores only under an uploadable name keeps the tree
      well formed and stores at most the one file. */
  lemma ApplyStored(run: UploadRun, d: Path, v: Result<Verdict>, f: UploadFile, now: int, env: UploadEnv)
    requires WellFormed(run.entries) && IsDir(run.entries, d)
    requires v.Ok? && v.value.Store? ==> Uploadable(v.value.name)
    ensures var r := Apply(run, d, v, f, now, env);
            WellFormed(r.entries) && IsDir(r.entries, d) && Stored(run.entries, r.entries, d)
  {
    var m := run.entries;
    var r := Apply(run, d, v, f, now, env);
    if v.Ok? && v.value.Store? && StoreFile(m, d, v.value.name, f, now, env).Some? {
      var n := v.value.name;
      StoreFileKeepsWellFormed(m, d, n, f, now, env);
      StoredOne(m, d, n, f.size, now);
      assert r.entries == StoreFile(m, d, n, f, now, env).value;
    } else {
      StoredRefl(m, d);
      assert r.entries == m;
    }
  }

  /** One pass keeps the tree well formed and stores at most the one file,
      under an uploadable name. */
  lemma StepStored(run: UploadRun, d: Path, f: UploadFile, now: int, env: UploadEnv)
    requires WellFormed(run.entries) && IsDir(run.entries, d)
    ensures var r := UploadStep(run, d, f, now, env);
            WellFormed(r.entries) && IsDir(r.entries, d) && Stored(run.entries, r.entries, d)
  {
    if run.halted {
      StoredRefl(run.entries, d);
    } else {
      ApplyStored(run, d, CheckUpload(f, env), f, now, env);
    }
  }

  /** `m2` is `m` with some files stored directly in `d` under uploadable
      names: nothing disappears, and whatever is new or different is such
      a file. */
  ghost predicate Stored(m: Entries, m2: Entries, d: Path) {
    && (forall p | p in m :: p in m2)
    && forall p | p in m2 && (p !in m || m2[p] != m[p]) ::
         |p| == |d| + 1 && p[..|d|] == d && Uploadable(Last(p)) && m2[p].File?
  }

  lemma StoredRefl(m: Entries, d: Path)
    ensures Stored(m, m, d)
  {
  }

  lemma StoredOne(m: Entries, d: Path, n: string, size: nat, now: int)
    requires Uploadable(n)
    ensures Stored(m, m[d + [n] := File(size, now, true)], d)
  {
    var q := d + [n];
    var m2 := m[q := File(size, now, true)];
    forall p | p in m2 && (p !in m || m2[p] != m[p])
      ensures |p| == |d| + 1 && p[..|d|] == d && Uploadable(Last(p)) && m2[p].File?
    {
      assert p == q;
      assert Last(q) == n;
    }
  }

  lemma StoredTrans(m1: Entries, m2: Entries, m3: Entries, d: Path)
    requires Stored(m1, m2, d) && Stored(m2, m3, d)
    ensures Stored(m1, m3, d)
  {
    forall p | p in m3 && (p !in m1 || m3[p] != m1[p])
      ensures |p| == |d| + 1 && p[..|d|] == d && Uploadable(Last(p)) && m3[p].File?
    {
      if p in m2 && m3[p] == m2[p] {
        assert p !in m1 || m2[p] != m1[p];
      }
    }
  }

  /** The state after the first files, in order. */
  function UploadUpTo(m: Entries, d: Path, files: seq<UploadFile>, now: int, env: UploadEnv): (r: UploadRun)
    decreases |files|
  {
    if files == [] then UploadStart(m, env)
    else UploadStep(UploadUpTo(m, d, files[..|files| - 1], now, env), d, files[|files| - 1], now, env)
  }

  /** The state after one more file is one more pass. */
  lemma UploadUpToNext(m: Entries, d: Path, files: seq<UploadFile>, i: nat, now: int, env: UploadEnv)
    requires i < |files|
    ensures UploadUpTo(m, d, files[..i + 1], now, env) == UploadStep(UploadUpTo(m, d, files[..i], now, env), d, files[i], now, env)
  {
    assert files[..i + 1][..i] == files[..i];
    assert files[..i + 1][i] == files[i];
  }

  /** Once the request has ended, the entries after it change nothing. */
  lemma {:induction false} HaltedStays(m: Entries, d: Path, pre: seq<UploadFile>, post: seq<UploadFile>, now: int, env: UploadEnv)
    requires UploadUpTo(m, d, pre, now, env).halted
    ensures UploadUpTo(m, d, pre + post, now, env) == UploadUpTo(m, d, pre, now, env)
    decreases |post|
  {
    if post == [] {
      assert pre + post == pre;
    } else {
      var shorter := post[..|post| - 1];
      HaltedStays(m, d, pre, shorter, now, env);
      var all := pre + post;
      assert all[..|all| - 1] == pre + shorter;
    }
  }

  /** The whole loop keeps the tree well formed, writes only files directly
      in `d` under names that are safe, allowed and not dangerous, and
      removes nothing. It stores at most one file per entry and reports at
      most one error per entry, plus the unwritable directory. */
  lemma {:induction false} UploadUpToStored(m: Entries, d: Path, files: seq<UploadFile>, now: int, env: UploadEnv)
    requires WellFormed(m) && IsDir(m, d)
    ensures var r := UploadUpTo(m, d, files, now, env);
            && WellFormed(r.entries) && IsDir(r.entries, d)
            && Stored(m, r.entries, d)
            && r.count + |r.errors| <= |files| + 1
            && r.count <= |files|
    decreases |files|
  {
    if files == [] {
      StoredRefl(m, d);
    } else {
      var prefix := files[..|files| - 1];
      UploadUpToStored(m, d, prefix, now, env);
      var before := UploadUpTo(m, d, prefix, now, env);
      StepStored(before, d, files[|files| - 1], now, env);
      StoredTrans(m, before.entries, UploadUpTo(m, d, files, now, env).entries, d);
    }
  }

  /** An entry whose non-empty name `safe_filename` refuses. */
  predicate EndsRequest(f: UploadFile) {
    f.name != "" && SafeFilename(f.name).Exit?
  }

  /** Some element of `s` satisfies `P`. */
  ghost predicate AnyOf<T>(s: seq<T>, P: T -> bool) {
    exists i | 0 <= i < |s| :: P(s[i])
  }

  lemma AnyOfSnoc<T>(s: seq<T>, P: T -> bool)
    requires s != []
    ensures AnyOf(s, P) <==> AnyOf(s[..|s| - 1], P) || P(s[|s| - 1])
  {
    var prefix := s[..|s| - 1];
    if AnyOf(prefix, P) {
      var i :| 0 <= i < |prefix| && P(prefix[i]);
      assert s[i] == prefix[i];
    }
    if AnyOf(s, P) {
      var i :| 0 <= i < |s| && P(s[i]);
      if i < |prefix| {
        assert prefix[i] == s[i];
      }
    }
  }

  /** A request that ends early ended at an entry with a non-empty unsafe
      name, and there is such an entry only if it ends early. */
  lemma {:induction false} HaltedMeansUnsafeName(m: Entries, d: Path, files: seq<UploadFile>, now: int, env: UploadEnv)
    ensures UploadUpTo(m, d, files, now, env).halted <==> AnyOf(files, EndsRequest)
    decreases |files|
  {
    if files != [] {
      var prefix := files[..|files| - 1];
      HaltedMeansUnsafeName(m, d, prefix, now, env);
      AnyOfSnoc(files, EndsRequest);
      var before := UploadUpTo(m, d, prefix, now, env);
      var after := UploadStep(before, d, files[|files| - 1], now, env);
      assert UploadUpTo(m, d, files, now, env) == after;
      assert after.halted <==> before.halted || EndsRequest(files[|files| - 1]);
    }
  }

  /** The upload action: no `files` field gives "No files uploaded."; an
      unsafe name ends the request with what was stored before it; any
      error gives the error report, otherwise the count is reported. */
  function UploadAction(m: Entries, d: Path, files: Option<seq<UploadFile>>, now: int, env: UploadEnv): (r: Outcome)
    requires WellFormed(m) && IsDir(m, d)
    ensures WellFormed(r.entries) && Stored(m, r.entries, d)
    ensures files.None? ==> r == Outcome(Ok(Failure("No files uploaded.")), m)
    ensures files.Some? ==>
              var run := UploadUpTo(m, d, files.value, now, env);
              && r.entries == run.entries
              && (r.response.Exit? <==> run.halted)
              && (r.response.Exit? ==> r.response == Exit(400, "Invalid name"))
              && (r.response == Ok(Uploaded(run.count)) <==> !run.halted && run.errors == [])
              && (r.response == Ok(UploadRejected(run.errors)) <==> !run.halted && run.errors != [])
  {
    match files
    case None =>
      StoredRefl(m, d);
      Outcome(Ok(Failure("No files uploaded.")), m)
    case Some(fs) =>
      var run := UploadUpTo(m, d, fs, now, env);
      UploadUpToStored(m, d, fs, now, env);
      if run.halted then Outcome(Exit(400, "Invalid name"), run.entries)
      else if run.errors != [] then Outcome(Ok(UploadRejected(run.errors)), run.entries)
      else Outcome(Ok(Uploaded(run.count)), run.entries)
  }

  /** A directory that is not writable always gives the error report, even
      when files were stored. */
  lemma {:induction false} UnwritableAlwaysReported(m: Entries, d: Path, files: seq<UploadFile>, now: int, env: UploadEnv)
    requires !env.writable
    ensures UploadUpTo(m, d, files, now, env).errors != []
    ensures UploadUpTo(m, d, files, now, env).errors[0] == DirNotWritable
    decreases |files|
  {
    if files != [] {
      UnwritableAlwaysReported(m, d, files[..|files| - 1], now, env);
    }
  }
}
