/** The file manager as an object that owns the tree below the base: each
    POST action is a method that applies the action's decision to the tree
    and answers what the decision answers. */
module Manager {
  import opened Wrappers
  import opened Names
  import opened Tree
  import Actions
  import opened Upload

  class FileManager {
    /** The directory below the base. */
    var entries: Entries

    ghost predicate Valid()
      reads this
    {
      WellFormed(entries)
    }

    constructor (m: Entries)
      requires WellFormed(m)
      ensures Valid() && entries == m
    {
      entries := m;
    }

    /** `mkdir` in the current directory `d`. */
    method Mkdir(d: Path, folderRaw: string, now: int, mkdirOk: bool) returns (response: Result<Actions.Flash>)
      requires Valid() && IsDir(entries, d)
      modifies this
      ensures Valid()
      ensures Actions.Outcome(response, entries) == Actions.Mkdir(old(entries), d, folderRaw, now, mkdirOk)
    {
      var o := Actions.Mkdir(entries, d, folderRaw, now, mkdirOk);
      response, entries := o.response, o.entries;
    }

    /** `delete` in the current directory `d`. */
    method Delete(d: Path, nameRaw: string, deleteOk: bool) returns (response: Result<Actions.Flash>)
      requires Valid() && IsDir(entries, d)
      modifies this
      ensures Valid()
      ensures Actions.Outcome(response, entries) == Actions.Delete(old(entries), d, nameRaw, deleteOk)
    {
      var o := Actions.Delete(entries, d, nameRaw, deleteOk);
      response, entries := o.response, o.entries;
    }

    /** `move` of an item of the current directory `d`. */
    method Move(d: Path, basePath: string, realpath: string -> Option<string>,
                nameRaw: string, targetRaw: string, moveOk: bool) returns (response: Result<Actions.Flash>)
      requires Valid() && IsDir(entries, d)
      modifies this
      ensures Valid()
      ensures Actions.Outcome(response, entries) == Actions.Move(old(entries), d, basePath, realpath, nameRaw, targetRaw, moveOk)
    {
      var o := Actions.Move(entries, d, basePath, realpath, nameRaw, targetRaw, moveOk);
      Actions.MoveKeepsWellFormed(entries, d, basePath, realpath, nameRaw, targetRaw, moveOk);
      response, entries := o.response, o.entries;
    }

    /** `rename` of an item of the current directory `d`. */
    method Rename(d: Path, oldRaw: string, newRaw: string, renameOk: bool) returns (response: Result<Actions.Flash>)
      requires Valid() && IsDir(entries, d)
      modifies this
      ensures Valid()
      ensures Actions.Outcome(response, entries) == Actions.Rename(old(entries), d, oldRaw, newRaw, renameOk)
    {
      var o := Actions.Rename(entries, d, oldRaw, newRaw, renameOk);
      response, entries := o.response, o.entries;
    }

    /** `upload` into the current directory `d`: the submitted files are
        processed in order, then `$errs` or `$count` is reported. */
    method Upload(d: Path, files: Option<seq<UploadFile>>, now: int, env: UploadEnv) returns (response: Result<Actions.Flash>)
      requires Valid() && IsDir(entries, d)
      modifies this
      ensures Valid()
      ensures Actions.Outcome(response, entries) == UploadAction(old(entries), d, files, now, env)
    {
      if files.None? {
        response := Ok(Actions.Failure("No files uploaded."));
        return;
      }
      ghost var m0 := entries;
      var errs, count, halted := UploadFiles(d, files.value, now, env);
      UploadActionOf(m0, d, files.value, now, env);
      if halted {
        response := Exit(400, "Invalid name");
      } else if errs != [] {
        response := Ok(Actions.UploadRejected(errs));
      } else {
        response := Ok(Actions.Uploaded(count));
      }
    }

    /** The `foreach` over the submitted files, collecting `$errs` and
        `$count` and storing every file that passes the checks; it stops at
        the first name `safe_filename` refuses, with `halted` set. */
    method UploadFiles(d: Path, fs: seq<UploadFile>, now: int, env: UploadEnv)
      returns (errs: seq<Actions.UploadError>, count: nat, halted: bool)
      requires Valid() && IsDir(entries, d)
      modifies this
      ensures Valid()
      ensures UploadRun(entries, errs, count, halted) == UploadUpTo(old(entries), d, fs, now, env)
    {
      ghost var m0 := entries;
      errs := if env.writable then [] else [Actions.DirNotWritable];
      count := 0;
      halted := false;
      for i := 0 to |fs|
        invariant WellFormed(entries) && IsDir(entries, d)
        invariant UploadUpTo(m0, d, fs[..i], now, env) == UploadRun(entries, errs, count, false)
      {
        var f := fs[i];
        ghost var run := UploadRun(entries, errs, count, false);
        var v := CheckUpload(f, env);
        LoopStep(m0, d, fs, i, now, env, run);
        if v.Exit? {
          assert fs == fs[..i + 1] + fs[i + 1..];
          HaltedStays(m0, d, fs[..i + 1], fs[i + 1..], now, env);
          halted := true;
          return;
        }
        errs, count := ApplyVerdict(d, v.value, f, now, env, errs, count);
      }
      assert fs[..|fs|] == fs;
    }

    /** The rest of the `foreach` body once the checks have given a verdict:
        a refusal is appended to `$errs`, a file that passes is moved to its
        destination and counted, and a failed move is appended. */
    method ApplyVerdict(d: Path, v: Verdict, f: UploadFile, now: int, env: UploadEnv,
                        errs: seq<Actions.UploadError>, count: nat)
      returns (errs': seq<Actions.UploadError>, count': nat)
      modifies this
      ensures UploadRun(entries, errs', count', false) ==
                Apply(UploadRun(old(entries), errs, count, false), d, Ok(v), f, now, env)
    {
      ghost var run := UploadRun(entries, errs, count, false);
      ApplyCases(run, d, Ok(v), f, now, env);
      errs', count' := errs, count;
      match v
      case Skip =>
      case Reject(e) =>
        errs' := errs + [e];
      case Store(n) =>
        if IsDir(entries, d + [n]) || !env.moveOk(f.tmp) {
          errs' := errs + [Actions.MoveFailed(n)];
        } else {
          entries := entries[d + [n] := File(f.size, now, true)];
          count' := count + 1;
        }
    }
  }

  /** One pass of the loop, from a state reached without ending the
      request: the next state is what the verdict makes of it, and the tree
      stays well formed. */
  lemma LoopStep(m: Entries, d: Path, fs: seq<UploadFile>, i: nat, now: int, env: UploadEnv, run: UploadRun)
    requires i < |fs| && WellFormed(run.entries) && IsDir(run.entries, d) && !run.halted
    requires UploadUpTo(m, d, fs[..i], now, env) == run
    ensures var next := UploadUpTo(m, d, fs[..i + 1], now, env);
            && next == Apply(run, d, CheckUpload(fs[i], env), fs[i], now, env)
            && WellFormed(next.entries) && IsDir(next.entries, d)
  {
    UploadUpToNext(m, d, fs, i, now, env);
    StepStored(run, d, fs[i], now, env);
  }

  /** The answer of the upload action in terms of the state after the
      whole loop. */
  lemma UploadActionOf(m: Entries, d: Path, fs: seq<UploadFile>, now: int, env: UploadEnv)
    requires WellFormed(m) && IsDir(m, d)
    ensures var run := UploadUpTo(m, d, fs, now, env);
            UploadAction(m, d, Some(fs), now, env) ==
              Actions.Outcome(if run.halted then Exit(400, "Invalid name")
                      else if run.errors != [] then Ok(Actions.UploadRejected(run.errors))
                      else Ok(Actions.Uploaded(run.count)), run.entries)
  {
  }
}
