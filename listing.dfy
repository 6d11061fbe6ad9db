/** `collect_items`: the depth-bounded walk that lists a directory, or
    searches below it, appending what it finds to the directory and file
    lists. */
module Listing {
  import opened Strings
  import opened Names
  import opened Tree

  /** A listed directory: its name, its time and the relative directory it
      was found in. */
  datatype DirItem = DirItem(name: string, mtime: int, rel: string)

  /** A listed file, with its size as well. */
  datatype FileItem = FileItem(name: string, mtime: int, size: nat, rel: string)

  /** `@filemtime($p) ?: time()`: a missing or zero time is replaced by the
      time of the request. */
  function ShownMtime(mtime: int, now: int): int {
    if mtime == 0 then now else mtime
  }

  /** The search filter: no needle lets everything through, otherwise the
      name must contain the needle once both are case-folded. `fold` is the
      Unicode case folding of `mb_stripos`. */
  predicate Matches(name: string, needle: string, fold: string -> string) {
    needle == "" || Contains(fold(name), fold(needle))
  }

  /** The relative directory of an entry found one level further down. */
  function ChildRel(relDir: string, name: string): string {
    TrimLeft(Trim(relDir + "/" + name, {'/'}), {'/'})
  }

  /** For a relative directory and a name with no slash at their ends, the
      child's relative directory is the two joined by '/' (or the name
      alone at the top). */
  lemma ChildRelJoin(relDir: string, name: string)
    requires relDir == "" || (relDir[0] != '/' && relDir[|relDir| - 1] != '/')
    requires ValidName(name)
    ensures ChildRel(relDir, name) == if relDir == "" then name else relDir + "/" + name
  {
    assert name[0] in name && name[|name| - 1] in name;
    var s := relDir + "/" + name;
    if relDir == "" {
      assert s == ['/'] + name;
      TrimLeftCons('/', name, {'/'});
      TrimLeftNone(name, {'/'});
      TrimRightNone(name, {'/'});
      assert Trim(s, {'/'}) == name;
    } else {
      assert s[0] == relDir[0] && s[|s| - 1] == name[|name| - 1];
      TrimOfTrimmed(s, {'/'});
      TrimLeftNone(s, {'/'});
    }
  }

  /** The relative directory reached from `relDir` by going down through the
      names of `s`. */
  function RelAt(relDir: string, s: Path): string
    decreases |s|
  {
    if s == [] then relDir else RelAt(ChildRel(relDir, s[0]), s[1..])
  }

  /** `scandir` succeeds on readable directories only. */
  predicate Scannable(m: Entries, d: Path) {
    d in m && m[d].Dir? && m[d].readable
  }

  /** A name of directory `d` that the walk looks at: not '.', '..' or
      hidden. */
  predicate Shown(m: Entries, d: Path, n: string) {
    Scannable(m, d) && d + [n] in m && n != "." && n != ".." && !Hidden(n)
  }

  /** The walk reaches the entry `d + s` and, if it is a directory, lists
      it: every name on the way is shown, every directory on the way is
      entered (only when searching recursively, one level less each time),
      and the last name matches. */
  predicate ListedDir(m: Entries, d: Path, needle: string, recursive: bool, depth: nat, fold: string -> string, s: Path)
    decreases |s|
  {
    && |s| >= 1
    && Shown(m, d, s[0])
    && if |s| == 1 then IsDir(m, d + s) && Matches(s[0], needle, fold)
       else recursive && depth > 0 && IsDir(m, d + [s[0]])
            && ListedDir(m, d + [s[0]], needle, true, depth - 1, fold, s[1..])
  }

  /** The same for files, which must not have a dangerous extension. */
  predicate ListedFile(m: Entries, d: Path, needle: string, recursive: bool, depth: nat, fold: string -> string, s: Path)
    decreases |s|
  {
    && |s| >= 1
    && Shown(m, d, s[0])
    && if |s| == 1 then IsFile(m, d + s) && !IsDangerousExt(s[0]) && Matches(s[0], needle, fold)
       else recursive && depth > 0 && IsDir(m, d + [s[0]])
            && ListedFile(m, d + [s[0]], needle, true, depth - 1, fold, s[1..])
  }

  /** The location `s` starts with one of the names `ns`. */
  predicate HeadIn(s: Path, ns: set<string>) {
    s != [] && s[0] in ns
  }

  /** `items[i]` is the directory item of the entry at `d + paths[i]`. */
  predicate DirItemsAt(m: Entries, d: Path, relDir: string, now: int, items: seq<DirItem>, paths: seq<Path>) {
    && |items| == |paths|
    && forall i | 0 <= i < |items| ::
         && paths[i] != [] && d + paths[i] in m
         && items[i] == DirItem(Last(paths[i]), ShownMtime(m[d + paths[i]].mtime, now), RelAt(relDir, Parent(paths[i])))
  }

  /** `items[i]` is the file item of the file at `d + paths[i]`. */
  predicate FileItemsAt(m: Entries, d: Path, relDir: string, now: int, items: seq<FileItem>, paths: seq<Path>) {
    && |items| == |paths|
    && forall i | 0 <= i < |items| ::
         && paths[i] != [] && IsFile(m, d + paths[i])
         && items[i] == FileItem(Last(paths[i]), ShownMtime(m[d + paths[i]].mtime, now), m[d + paths[i]].size, RelAt(relDir, Parent(paths[i])))
  }

  predicate Distinct<T(==)>(s: seq<T>) {
    forall i, j | 0 <= i < j < |s| :: s[i] != s[j]
  }

  /** The paths of a sub-walk from `d + [n]`, seen from `d`. */
  function Lift(n: string, sub: seq<Path>): (r: seq<Path>)
    ensures |r| == |sub|
    ensures forall i | 0 <= i < |sub| :: r[i] == [n] + sub[i]
  {
    seq(|sub|, i requires 0 <= i < |sub| => [n] + sub[i])
  }

  lemma LiftMembers(n: string, sub: seq<Path>, s: Path)
    ensures s in Lift(n, sub) <==> |s| >= 1 && s[0] == n && s[1..] in sub
  {
    if |s| >= 1 && s[0] == n && s[1..] in sub {
      var i :| 0 <= i < |sub| && sub[i] == s[1..];
      assert Lift(n, sub)[i] == s;
    }
    if s in Lift(n, sub) {
      var i :| 0 <= i < |sub| && Lift(n, sub)[i] == s;
      assert s[1..] == sub[i];
    }
  }

  lemma LiftDistinct(n: string, sub: seq<Path>)
    requires Distinct(sub)
    ensures Distinct(Lift(n, sub))
  {
    forall i, j | 0 <= i < j < |sub|
      ensures Lift(n, sub)[i] != Lift(n, sub)[j]
    {
      assert Lift(n, sub)[i][1..] == sub[i];
      assert Lift(n, sub)[j][1..] == sub[j];
    }
  }

  /** The items of a sub-walk from `d + [n]` are the items of the lifted
      paths from `d`. */
  lemma LiftDirItems(m: Entries, d: Path, relDir: string, n: string, now: int, items: seq<DirItem>, sub: seq<Path>)
    requires DirItemsAt(m, d + [n], ChildRel(relDir, n), now, items, sub)
    ensures DirItemsAt(m, d, relDir, now, items, Lift(n, sub))
  {
    forall i | 0 <= i < |items|
      ensures Lift(n, sub)[i] != [] && d + Lift(n, sub)[i] in m
      ensures items[i] == DirItem(Last(Lift(n, sub)[i]), ShownMtime(m[d + Lift(n, sub)[i]].mtime, now),
                                  RelAt(relDir, Parent(Lift(n, sub)[i])))
    {
      var t := sub[i];
      var s := [n] + t;
      assert Lift(n, sub)[i] == s;
      assert d + s == (d + [n]) + t;
      assert Last(s) == Last(t);
      assert Parent(s) == [n] + Parent(t);
      assert ([n] + Parent(t))[1..] == Parent(t);
    }
  }

  lemma LiftFileItems(m: Entries, d: Path, relDir: string, n: string, now: int, items: seq<FileItem>, sub: seq<Path>)
    requires FileItemsAt(m, d + [n], ChildRel(relDir, n), now, items, sub)
    ensures FileItemsAt(m, d, relDir, now, items, Lift(n, sub))
  {
    forall i | 0 <= i < |items|
      ensures Lift(n, sub)[i] != [] && IsFile(m, d + Lift(n, sub)[i])
      ensures items[i] == FileItem(Last(Lift(n, sub)[i]), ShownMtime(m[d + Lift(n, sub)[i]].mtime, now),
                                   m[d + Lift(n, sub)[i]].size, RelAt(relDir, Parent(Lift(n, sub)[i])))
    {
      var t := sub[i];
      var s := [n] + t;
      assert Lift(n, sub)[i] == s;
      assert d + s == (d + [n]) + t;
      assert Last(s) == Last(t);
      assert Parent(s) == [n] + Parent(t);
      assert ([n] + Parent(t))[1..] == Parent(t);
    }
  }

  lemma DirItemsConcat(m: Entries, d: Path, relDir: string, now: int,
                       a: seq<DirItem>, p: seq<Path>, b: seq<DirItem>, q: seq<Path>)
    requires DirItemsAt(m, d, relDir, now, a, p) && DirItemsAt(m, d, relDir, now, b, q)
    ensures DirItemsAt(m, d, relDir, now, a + b, p + q)
  {
    forall i | |a| <= i < |a| + |b|
      ensures (a + b)[i] == b[i - |a|] && (p + q)[i] == q[i - |a|]
    {
    }
  }

  lemma FileItemsConcat(m: Entries, d: Path, relDir: string, now: int,
                        a: seq<FileItem>, p: seq<Path>, b: seq<FileItem>, q: seq<Path>)
    requires FileItemsAt(m, d, relDir, now, a, p) && FileItemsAt(m, d, relDir, now, b, q)
    ensures FileItemsAt(m, d, relDir, now, a + b, p + q)
  {
    forall i | |a| <= i < |a| + |b|
      ensures (a + b)[i] == b[i - |a|] && (p + q)[i] == q[i - |a|]
    {
    }
  }

  /** What a part of the walk from `d` has appended: `dirs` and `files`
      extend `dirs0` and `files0`, the appended items are those of the
      entries `dirPaths` and `filePaths` (relative to `d`), each entry once,
      and these entries are exactly those the walk lists whose first name is
      one of `names`. */
  ghost predicate WalkPart(m: Entries, d: Path, relDir: string, needle: string, recursive: bool, depth: nat,
                           fold: string -> string, now: int, dirs0: seq<DirItem>, files0: seq<FileItem>,
                           names: set<string>, dirs: seq<DirItem>, files: seq<FileItem>,
                           dirPaths: seq<Path>, filePaths: seq<Path>)
  {
    && |dirs| >= |dirs0| && dirs[..|dirs0|] == dirs0
    && |files| >= |files0| && files[..|files0|] == files0
    && DirItemsAt(m, d, relDir, now, dirs[|dirs0|..], dirPaths)
    && FileItemsAt(m, d, relDir, now, files[|files0|..], filePaths)
    && (forall s :: s in dirPaths <==> HeadIn(s, names) && ListedDir(m, d, needle, recursive, depth, fold, s))
    && (forall s :: s in filePaths <==> HeadIn(s, names) && ListedFile(m, d, needle, recursive, depth, fold, s))
    && Distinct(dirPaths) && Distinct(filePaths)
  }

  /** `collect_items($absDir, $relDir, $needle, $recursive, $depth, $dirs,
      $files)`. The two lists are passed by reference: `dirs0` and `files0`
      come in, and the results extend them. The ghost results name the
      entry, relative to `d`, that each appended item stands for; through
      them the appended items are exactly the entries the walk lists, each
      once. The order in which `scandir` returns names is not modelled: a
      directory's names are taken in any order. */
  method CollectItems(m: Entries, d: Path, relDir: string, needle: string, recursive: bool, depth: nat,
                      fold: string -> string, now: int, dirs0: seq<DirItem>, files0: seq<FileItem>)
    returns (dirs: seq<DirItem>, files: seq<FileItem>, ghost dirPaths: seq<Path>, ghost filePaths: seq<Path>)
    ensures WalkPart(m, d, relDir, needle, recursive, depth, fold, now, dirs0, files0, Children(m, d), dirs, files, dirPaths, filePaths)
    decreases depth, 2
  {
    dirs, files, dirPaths, filePaths := dirs0, files0, [], [];
    if !Scannable(m, d) {
      NothingScanned(m, d, relDir, needle, recursive, depth, fold, now, dirs0, files0);
      return;
    }
    var names := Children(m, d);
    ghost var visited: set<string> := {};
    NothingYet(m, d, relDir, needle, recursive, depth, fold, now, dirs0, files0);
    while names != {}
      invariant visited !! names && visited + names == Children(m, d)
      invariant WalkPart(m, d, relDir, needle, recursive, depth, fold, now, dirs0, files0, visited, dirs, files, dirPaths, filePaths)
      decreases names
    {
      var it :| it in names;
      names := names - {it};
      var dirs1, files1, dp, fp := CollectChild(m, d, it, relDir, needle, recursive, depth, fold, now, dirs, files);
      WalkStep(m, d, relDir, needle, recursive, depth, fold, now, dirs0, files0, visited, dirs, files, dirPaths, filePaths,
               it, dirs1, files1, dp, fp);
      visited := visited + {it};
      dirs, files, dirPaths, filePaths := dirs1, files1, dirPaths + dp, filePaths + fp;
    }
  }

  /** Before the first name, nothing is appended. */
  lemma NothingYet(m: Entries, d: Path, relDir: string, needle: string, recursive: bool, depth: nat,
                   fold: string -> string, now: int, dirs0: seq<DirItem>, files0: seq<FileItem>)
    ensures WalkPart(m, d, relDir, needle, recursive, depth, fold, now, dirs0, files0, {}, dirs0, files0, [], [])
  {
    assert dirs0[|dirs0|..] == [] && files0[|files0|..] == [];
  }

  /** A directory `scandir` cannot read lists nothing. */
  lemma NothingScanned(m: Entries, d: Path, relDir: string, needle: string, recursive: bool, depth: nat,
                       fold: string -> string, now: int, dirs0: seq<DirItem>, files0: seq<FileItem>)
    requires !Scannable(m, d)
    ensures WalkPart(m, d, relDir, needle, recursive, depth, fold, now, dirs0, files0, Children(m, d), dirs0, files0, [], [])
  {
    assert dirs0[|dirs0|..] == [] && files0[|files0|..] == [];
  }

  /** The walk so far over the names `seen`, followed by what one more name
      `it` appends, is the walk over `seen` and `it`. */
  lemma WalkStep(m: Entries, d: Path, relDir: string, needle: string, recursive: bool, depth: nat,
                 fold: string -> string, now: int, dirs0: seq<DirItem>, files0: seq<FileItem>,
                 seen: set<string>, dirs: seq<DirItem>, files: seq<FileItem>, dirPaths: seq<Path>, filePaths: seq<Path>,
                 it: string, dirs1: seq<DirItem>, files1: seq<FileItem>, dp: seq<Path>, fp: seq<Path>)
    requires it !in seen
    requires WalkPart(m, d, relDir, needle, recursive, depth, fold, now, dirs0, files0, seen, dirs, files, dirPaths, filePaths)
    requires WalkPart(m, d, relDir, needle, recursive, depth, fold, now, dirs, files, {it}, dirs1, files1, dp, fp)
    ensures WalkPart(m, d, relDir, needle, recursive, depth, fold, now, dirs0, files0, seen + {it}, dirs1, files1,
                     dirPaths + dp, filePaths + fp)
  {
    DistinctDisjointConcat(dirPaths, dp, seen, it);
    DistinctDisjointConcat(filePaths, fp, seen, it);
    DirItemsConcat(m, d, relDir, now, dirs[|dirs0|..], dirPaths, dirs1[|dirs|..], dp);
    FileItemsConcat(m, d, relDir, now, files[|files0|..], filePaths, files1[|files|..], fp);
    assert dirs1[|dirs0|..] == dirs[|dirs0|..] + dirs1[|dirs|..];
    assert files1[|files0|..] == files[|files0|..] + files1[|files|..];
    assert dirs1[..|dirs0|] == dirs[..|dirs0|];
    assert files1[..|files0|] == files[..|files0|];
  }

  /** Appending distinct paths that all start with a new name `n` to
      distinct paths that start with names already seen keeps them
      distinct. */
  lemma DistinctDisjointConcat(a: seq<Path>, b: seq<Path>, seen: set<string>, n: string)
    requires Distinct(a) && Distinct(b) && n !in seen
    requires forall s | s in a :: HeadIn(s, seen)
    requires forall s | s in b :: HeadIn(s, {n})
    ensures Distinct(a + b)
  {
    forall i, j | 0 <= i < j < |a + b|
      ensures (a + b)[i] != (a + b)[j]
    {
      if i < |a| && j >= |a| {
        assert (a + b)[i] in a && (a + b)[j] in b;
      }
    }
  }

  /** One name of the `foreach` in `collect_items`: '.' and '..' and hidden
      names are skipped, directories and files are handled apart. */
  method CollectChild(m: Entries, d: Path, it: string, relDir: string, needle: string, recursive: bool, depth: nat,
                      fold: string -> string, now: int, dirs0: seq<DirItem>, files0: seq<FileItem>)
    returns (dirs: seq<DirItem>, files: seq<FileItem>, ghost dirPaths: seq<Path>, ghost filePaths: seq<Path>)
    requires Scannable(m, d) && d + [it] in m
    ensures WalkPart(m, d, relDir, needle, recursive, depth, fold, now, dirs0, files0, {it}, dirs, files, dirPaths, filePaths)
    decreases depth, 1
  {
    if it == "." || it == ".." {
      NotShownPart(m, d, it, relDir, needle, recursive, depth, fold, now, dirs0, files0);
      return dirs0, files0, [], [];
    }
    var hidden := IsHidden(it);
    if hidden {
      NotShownPart(m, d, it, relDir, needle, recursive, depth, fold, now, dirs0, files0);
      return dirs0, files0, [], [];
    }
    if m[d + [it]].Dir? {
      dirs, files, dirPaths, filePaths := CollectDir(m, d, it, relDir, needle, recursive, depth, fold, now, dirs0, files0);
    } else {
      dirs, files, dirPaths, filePaths := CollectFile(m, d, it, relDir, needle, recursive, depth, fold, now, dirs0, files0);
    }
  }

  /** A name that is not shown appends nothing. */
  lemma NotShownPart(m: Entries, d: Path, it: string, relDir: string, needle: string, recursive: bool, depth: nat,
                     fold: string -> string, now: int, dirs0: seq<DirItem>, files0: seq<FileItem>)
    requires !Shown(m, d, it)
    ensures WalkPart(m, d, relDir, needle, recursive, depth, fold, now, dirs0, files0, {it}, dirs0, files0, [], [])
  {
    assert dirs0[|dirs0|..] == [] && files0[|files0|..] == [];
    NotShownNotListed(m, d, it, needle, recursive, depth, fold);
  }

  /** The item a shown directory contributes itself: one when it matches. */
  ghost predicate OwnDirItem(m: Entries, d: Path, it: string, relDir: string, needle: string, fold: string -> string,
                             now: int, dirs0: seq<DirItem>, dirs: seq<DirItem>, top: seq<Path>)
    requires d + [it] in m
  {
    if Matches(it, needle, fold) then
      top == [[it]] && dirs == dirs0 + [DirItem(it, ShownMtime(m[d + [it]].mtime, now), relDir)]
    else top == [] && dirs == dirs0
  }

  /** A shown directory: listed when it matches, entered when the search is
      recursive and depth is left. */
  method CollectDir(m: Entries, d: Path, it: string, relDir: string, needle: string, recursive: bool, depth: nat,
                    fold: string -> string, now: int, dirs0: seq<DirItem>, files0: seq<FileItem>)
    returns (dirs: seq<DirItem>, files: seq<FileItem>, ghost dirPaths: seq<Path>, ghost filePaths: seq<Path>)
    requires Shown(m, d, it) && IsDir(m, d + [it])
    ensures WalkPart(m, d, relDir, needle, recursive, depth, fold, now, dirs0, files0, {it}, dirs, files, dirPaths, filePaths)
    decreases depth, 0
  {
    var p := d + [it];
    var mtime := ShownMtime(m[p].mtime, now);
    var matches := needle == "" || Contains(fold(it), fold(needle));
    dirs, files := if matches then dirs0 + [DirItem(it, mtime, relDir)] else dirs0, files0;
    ghost var top: seq<Path> := if matches then [[it]] else [];
    assert OwnDirItem(m, d, it, relDir, needle, fold, now, dirs0, dirs, top);
    if recursive && depth > 0 {
      var dirs1, files1, subDirPaths, subFilePaths := CollectItems(m, d + [it], ChildRel(relDir, it), needle, true, depth - 1, fold, now, dirs, files0);
      DescendPart(m, d, it, relDir, needle, recursive, depth, fold, now, dirs0, files0, dirs, top,
                  dirs1, files1, subDirPaths, subFilePaths);
      dirs, files, dirPaths, filePaths := dirs1, files1, top + Lift(it, subDirPaths), Lift(it, subFilePaths);
    } else {
      StayDirPart(m, d, it, relDir, needle, recursive, depth, fold, now, dirs0, files0, dirs, top);
      dirPaths, filePaths := top, [];
    }
  }

  /** A directory that is entered appends its own item, then what the walk
      one level down appends. */
  lemma DescendPart(m: Entries, d: Path, it: string, relDir: string, needle: string, recursive: bool, depth: nat,
                    fold: string -> string, now: int, dirs0: seq<DirItem>, files0: seq<FileItem>,
                    dirs: seq<DirItem>, top: seq<Path>,
                    dirs1: seq<DirItem>, files1: seq<FileItem>, sub: seq<Path>, subFiles: seq<Path>)
    requires Shown(m, d, it) && IsDir(m, d + [it]) && recursive && depth > 0
    requires OwnDirItem(m, d, it, relDir, needle, fold, now, dirs0, dirs, top)
    requires |dirs1| >= |dirs| && dirs1[..|dirs|] == dirs
    requires |files1| >= |files0| && files1[..|files0|] == files0
    requires DirItemsAt(m, d + [it], ChildRel(relDir, it), now, dirs1[|dirs|..], sub)
    requires FileItemsAt(m, d + [it], ChildRel(relDir, it), now, files1[|files0|..], subFiles)
    requires forall s :: s in sub <==> HeadIn(s, Children(m, d + [it])) && ListedDir(m, d + [it], needle, true, depth - 1, fold, s)
    requires forall s :: s in subFiles <==> HeadIn(s, Children(m, d + [it])) && ListedFile(m, d + [it], needle, true, depth - 1, fold, s)
    requires Distinct(sub) && Distinct(subFiles)
    ensures WalkPart(m, d, relDir, needle, recursive, depth, fold, now, dirs0, files0, {it}, dirs1, files1,
                     top + Lift(it, sub), Lift(it, subFiles))
  {
    OwnDirItemAt(m, d, it, relDir, needle, fold, now, dirs0, dirs, top);
    DescendItems(m, d, it, relDir, now, dirs0, dirs, top, dirs1, sub, files0, files1, subFiles);
    DescendListed(m, d, it, needle, recursive, depth, fold, top, sub, subFiles);
    LiftDistinct(it, sub);
    LiftDistinct(it, subFiles);
    TopBeforeLift(it, top, sub);
  }

  /** The items a directory that is entered appends: its own, then those
      of the walk one level down, each at its path seen from `d`. */
  lemma DescendItems(m: Entries, d: Path, it: string, relDir: string, now: int,
                     dirs0: seq<DirItem>, dirs: seq<DirItem>, top: seq<Path>, dirs1: seq<DirItem>, sub: seq<Path>,
                     files0: seq<FileItem>, files1: seq<FileItem>, subFiles: seq<Path>)
    requires |dirs| >= |dirs0| && dirs[..|dirs0|] == dirs0
    requires DirItemsAt(m, d, relDir, now, dirs[|dirs0|..], top)
    requires |dirs1| >= |dirs| && dirs1[..|dirs|] == dirs
    requires DirItemsAt(m, d + [it], ChildRel(relDir, it), now, dirs1[|dirs|..], sub)
    requires |files1| >= |files0| && files1[..|files0|] == files0
    requires FileItemsAt(m, d + [it], ChildRel(relDir, it), now, files1[|files0|..], subFiles)
    ensures |dirs1| >= |dirs0| && dirs1[..|dirs0|] == dirs0
    ensures DirItemsAt(m, d, relDir, now, dirs1[|dirs0|..], top + Lift(it, sub))
    ensures FileItemsAt(m, d, relDir, now, files1[|files0|..], Lift(it, subFiles))
  {
    assert dirs1[..|dirs0|] == dirs[..|dirs0|];
    LiftDirItems(m, d, relDir, it, now, dirs1[|dirs|..], sub);
    DirItemsConcat(m, d, relDir, now, dirs[|dirs0|..], top, dirs1[|dirs|..], Lift(it, sub));
    assert dirs1[|dirs0|..] == dirs[|dirs0|..] + dirs1[|dirs|..];
    LiftFileItems(m, d, relDir, it, now, files1[|files0|..], subFiles);
  }

  /** What a directory that is entered lists: exactly the listed paths
      below its name. */
  lemma DescendListed(m: Entries, d: Path, it: string, needle: string, recursive: bool, depth: nat,
                      fold: string -> string, top: seq<Path>, sub: seq<Path>, subFiles: seq<Path>)
    requires Shown(m, d, it) && IsDir(m, d + [it]) && recursive && depth > 0
    requires top == if Matches(it, needle, fold) then [[it]] else []
    requires forall s :: s in sub <==> HeadIn(s, Children(m, d + [it])) && ListedDir(m, d + [it], needle, true, depth - 1, fold, s)
    requires forall s :: s in subFiles <==> HeadIn(s, Children(m, d + [it])) && ListedFile(m, d + [it], needle, true, depth - 1, fold, s)
    ensures forall s :: s in top + Lift(it, sub) <==> HeadIn(s, {it}) && ListedDir(m, d, needle, recursive, depth, fold, s)
    ensures forall s :: s in Lift(it, subFiles) <==> HeadIn(s, {it}) && ListedFile(m, d, needle, recursive, depth, fold, s)
  {
    SubWalkListed(m, d + [it], needle, fold, depth - 1, sub, subFiles);
    DescendDirs(m, d, it, needle, recursive, depth, fold, top, sub);
    DescendFiles(m, d, it, needle, recursive, depth, fold, subFiles);
  }

  /** The directory's own path is not among the paths found below it. */
  lemma TopBeforeLift(it: string, top: seq<Path>, sub: seq<Path>)
    requires top == [] || top == [[it]]
    requires forall i | 0 <= i < |sub| :: sub[i] != []
    requires Distinct(Lift(it, sub))
    ensures Distinct(top + Lift(it, sub))
  {
    var l := Lift(it, sub);
    if top == [[it]] {
      forall j | 0 <= j < |l|
        ensures l[j] != [it]
      {
        assert |l[j]| == 1 + |sub[j]|;
      }
      assert forall i, j | 0 <= i < j < |top + l| :: (top + l)[i] != (top + l)[j] by {
        forall i, j | 0 <= i < j < |top + l|
          ensures (top + l)[i] != (top + l)[j]
        {
          if i == 0 {
            assert (top + l)[j] == l[j - 1];
          } else {
            assert (top + l)[i] == l[i - 1] && (top + l)[j] == l[j - 1];
          }
        }
      }
    } else {
      assert top + l == l;
    }
  }

  /** The walk from a directory lists only entries below its names. */
  lemma SubWalkListed(m: Entries, p: Path, needle: string, fold: string -> string, depth: nat,
                      sub: seq<Path>, subFiles: seq<Path>)
    requires forall s :: s in sub <==> HeadIn(s, Children(m, p)) && ListedDir(m, p, needle, true, depth, fold, s)
    requires forall s :: s in subFiles <==> HeadIn(s, Children(m, p)) && ListedFile(m, p, needle, true, depth, fold, s)
    ensures forall s :: s in sub <==> ListedDir(m, p, needle, true, depth, fold, s)
    ensures forall s :: s in subFiles <==> ListedFile(m, p, needle, true, depth, fold, s)
  {
  }

  /** The directory's own item sits at its own name. */
  lemma OwnDirItemAt(m: Entries, d: Path, it: string, relDir: string, needle: string, fold: string -> string,
                     now: int, dirs0: seq<DirItem>, dirs: seq<DirItem>, top: seq<Path>)
    requires d + [it] in m
    requires OwnDirItem(m, d, it, relDir, needle, fold, now, dirs0, dirs, top)
    ensures |dirs| >= |dirs0| && dirs[..|dirs0|] == dirs0
    ensures DirItemsAt(m, d, relDir, now, dirs[|dirs0|..], top)
    ensures Distinct(top)
  {
    var one: Path := [it];
    assert Parent(one) == [] && Last(one) == it && d + one == d + [it];
  }

  /** A directory that is not entered appends its own item only. */
  lemma StayDirPart(m: Entries, d: Path, it: string, relDir: string, needle: string, recursive: bool, depth: nat,
                    fold: string -> string, now: int, dirs0: seq<DirItem>, files0: seq<FileItem>,
                    dirs: seq<DirItem>, top: seq<Path>)
    requires Shown(m, d, it) && IsDir(m, d + [it]) && !(recursive && depth > 0)
    requires OwnDirItem(m, d, it, relDir, needle, fold, now, dirs0, dirs, top)
    ensures WalkPart(m, d, relDir, needle, recursive, depth, fold, now, dirs0, files0, {it}, dirs, files0, top, [])
  {
    OwnDirItemAt(m, d, it, relDir, needle, fold, now, dirs0, dirs, top);
    assert files0[|files0|..] == [];
    StayDir(m, d, it, needle, recursive, depth, fold, top);
  }

  /** A shown file: skipped when dangerous, listed when it matches. */
  method CollectFile(m: Entries, d: Path, it: string, relDir: string, needle: string, recursive: bool, depth: nat,
                     fold: string -> string, now: int, dirs0: seq<DirItem>, files0: seq<FileItem>)
    returns (dirs: seq<DirItem>, files: seq<FileItem>, ghost dirPaths: seq<Path>, ghost filePaths: seq<Path>)
    requires Shown(m, d, it) && IsFile(m, d + [it])
    ensures WalkPart(m, d, relDir, needle, recursive, depth, fold, now, dirs0, files0, {it}, dirs, files, dirPaths, filePaths)
  {
    dirs, files, dirPaths, filePaths := dirs0, files0, [], [];
    if IsDangerousExt(it) {
      FilePart(m, d, it, relDir, needle, recursive, depth, fold, now, dirs0, files0, files, filePaths);
      return;
    }
    var p := d + [it];
    var mtime := ShownMtime(m[p].mtime, now);
    var matches := needle == "" || Contains(fold(it), fold(needle));
    if matches {
      files := files + [FileItem(it, mtime, m[p].size, relDir)];
      filePaths := [[it]];
    }
    FilePart(m, d, it, relDir, needle, recursive, depth, fold, now, dirs0, files0, files, filePaths);
  }

  /** A file appends its own item when it is not dangerous and matches. */
  lemma FilePart(m: Entries, d: Path, it: string, relDir: string, needle: string, recursive: bool, depth: nat,
                 fold: string -> string, now: int, dirs0: seq<DirItem>, files0: seq<FileItem>,
                 files: seq<FileItem>, filePaths: seq<Path>)
    requires Shown(m, d, it) && IsFile(m, d + [it])
    requires if !IsDangerousExt(it) && Matches(it, needle, fold) then
               filePaths == [[it]] && files == files0 + [FileItem(it, ShownMtime(m[d + [it]].mtime, now), m[d + [it]].size, relDir)]
             else filePaths == [] && files == files0
    ensures WalkPart(m, d, relDir, needle, recursive, depth, fold, now, dirs0, files0, {it}, dirs0, files, [], filePaths)
  {
    var one: Path := [it];
    assert Parent(one) == [] && Last(one) == it && d + one == d + [it];
    assert dirs0[|dirs0|..] == [];
    StayFile(m, d, it, needle, recursive, depth, fold, filePaths);
  }

  /** A name that is not shown contributes nothing. */
  lemma NotShownNotListed(m: Entries, d: Path, it: string, needle: string, recursive: bool, depth: nat, fold: string -> string)
    requires !Shown(m, d, it)
    ensures forall s | s != [] && s[0] == it :: !ListedDir(m, d, needle, recursive, depth, fold, s)
    ensures forall s | s != [] && s[0] == it :: !ListedFile(m, d, needle, recursive, depth, fold, s)
  {
  }

  /** Below the first level, the walk lists what the walk from the first
      directory lists, with one level less. */
  lemma ListedDeeper(m: Entries, d: Path, needle: string, recursive: bool, depth: nat, fold: string -> string, s: Path)
    requires |s| >= 2
    ensures ListedDir(m, d, needle, recursive, depth, fold, s) <==>
              Shown(m, d, s[0]) && recursive && depth > 0 && IsDir(m, d + [s[0]]) &&
              ListedDir(m, d + [s[0]], needle, true, depth - 1, fold, s[1..])
    ensures ListedFile(m, d, needle, recursive, depth, fold, s) <==>
              Shown(m, d, s[0]) && recursive && depth > 0 && IsDir(m, d + [s[0]]) &&
              ListedFile(m, d + [s[0]], needle, true, depth - 1, fold, s[1..])
  {
  }

  /** A shown directory that is entered: its own entry when it matches, and
      everything the walk from it lists. */
  lemma DescendDirs(m: Entries, d: Path, it: string, needle: string, recursive: bool, depth: nat,
                    fold: string -> string, top: seq<Path>, sub: seq<Path>)
    requires Shown(m, d, it) && IsDir(m, d + [it]) && recursive && depth > 0
    requires top == if Matches(it, needle, fold) then [[it]] else []
    requires forall t :: t in sub <==> ListedDir(m, d + [it], needle, true, depth - 1, fold, t)
    ensures forall s | s in top + Lift(it, sub) :: s != [] && s[0] == it
    ensures forall s | s != [] && s[0] == it :: s in top + Lift(it, sub) <==> ListedDir(m, d, needle, recursive, depth, fold, s)
  {
    forall s | s in top + Lift(it, sub)
      ensures s != [] && s[0] == it
    {
      LiftMembers(it, sub, s);
    }
    forall s | s != [] && s[0] == it
      ensures s in top + Lift(it, sub) <==> ListedDir(m, d, needle, recursive, depth, fold, s)
    {
      LiftMembers(it, sub, s);
      if |s| == 1 {
        assert s == [it];
        assert !ListedDir(m, d + [it], needle, true, depth - 1, fold, s[1..]);
      } else {
        ListedDeeper(m, d, needle, recursive, depth, fold, s);
        assert s !in top;
      }
    }
  }

  /** A shown directory that is entered lists no file at its own name. */
  lemma DescendFiles(m: Entries, d: Path, it: string, needle: string, recursive: bool, depth: nat,
                     fold: string -> string, sub: seq<Path>)
    requires Shown(m, d, it) && IsDir(m, d + [it]) && recursive && depth > 0
    requires forall t :: t in sub <==> ListedFile(m, d + [it], needle, true, depth - 1, fold, t)
    ensures forall s | s in Lift(it, sub) :: s != [] && s[0] == it
    ensures forall s | s != [] && s[0] == it :: s in Lift(it, sub) <==> ListedFile(m, d, needle, recursive, depth, fold, s)
  {
    forall s | s in Lift(it, sub)
      ensures s != [] && s[0] == it
    {
      LiftMembers(it, sub, s);
    }
    forall s | s != [] && s[0] == it
      ensures s in Lift(it, sub) <==> ListedFile(m, d, needle, recursive, depth, fold, s)
    {
      LiftMembers(it, sub, s);
      if |s| == 1 {
        assert s == [it];
        assert !ListedFile(m, d + [it], needle, true, depth - 1, fold, s[1..]);
      } else {
        ListedDeeper(m, d, needle, recursive, depth, fold, s);
      }
    }
  }

  /** A shown directory that is not entered: only its own entry, when it
      matches. */
  lemma StayDir(m: Entries, d: Path, it: string, needle: string, recursive: bool, depth: nat,
                fold: string -> string, top: seq<Path>)
    requires Shown(m, d, it) && IsDir(m, d + [it]) && !(recursive && depth > 0)
    requires top == if Matches(it, needle, fold) then [[it]] else []
    ensures forall s | s != [] && s[0] == it :: s in top <==> ListedDir(m, d, needle, recursive, depth, fold, s)
    ensures forall s | s != [] && s[0] == it :: !ListedFile(m, d, needle, recursive, depth, fold, s)
  {
    forall s | s != [] && s[0] == it
      ensures s in top <==> ListedDir(m, d, needle, recursive, depth, fold, s)
      ensures !ListedFile(m, d, needle, recursive, depth, fold, s)
    {
      if |s| == 1 {
        assert s == [it];
      } else {
        ListedDeeper(m, d, needle, recursive, depth, fold, s);
      }
    }
  }

  /** A file: only its own entry, when it is not dangerous and matches. */
  lemma StayFile(m: Entries, d: Path, it: string, needle: string, recursive: bool, depth: nat,
                 fold: string -> string, top: seq<Path>)
    requires Shown(m, d, it) && IsFile(m, d + [it])
    requires top == if !IsDangerousExt(it) && Matches(it, needle, fold) then [[it]] else []
    ensures forall s | s != [] && s[0] == it :: s in top <==> ListedFile(m, d, needle, recursive, depth, fold, s)
    ensures forall s | s != [] && s[0] == it :: !ListedDir(m, d, needle, recursive, depth, fold, s)
  {
    forall s | s != [] && s[0] == it
      ensures s in top <==> ListedFile(m, d, needle, recursive, depth, fold, s)
      ensures !ListedDir(m, d, needle, recursive, depth, fold, s)
    {
      if |s| == 1 {
        assert s == [it];
      } else {
        ListedDeeper(m, d, needle, recursive, depth, fold, s);
      }
    }
  }

  /** The entry `d + s` is reached by the walk: at most `depth` levels are
      entered below `d`, and only when searching recursively, and every
      name on the way is shown in the directory above it (so every
      directory on the way is readable, and no name is '.', '..' or
      hidden). */
  ghost predicate Reachable(m: Entries, d: Path, recursive: bool, depth: nat, s: Path) {
    && 1 <= |s| <= depth + 1
    && (|s| > 1 ==> recursive)
    && forall k | 0 <= k < |s| :: Shown(m, d + s[..k], s[k])
  }

  /** Reaching `d + [a] + t` is being shown `a` in `d`, then reaching
      `t` from `d + [a]` one level less deep. */
  lemma ReachableCons(m: Entries, d: Path, recursive: bool, depth: nat, a: string, t: Path)
    requires |t| >= 1
    ensures Reachable(m, d, recursive, depth, [a] + t) <==>
              Shown(m, d, a) && recursive && depth > 0 && Reachable(m, d + [a], true, depth - 1, t)
  {
    var s := [a] + t;
    assert s[..0] == [] && s[0] == a && d + [] == d;
    forall k | 0 <= k < |t|
      ensures d + s[..k + 1] == (d + [a]) + t[..k] && s[k + 1] == t[k]
    {
      assert s[..k + 1] == [a] + t[..k];
    }
    if Shown(m, d, a) && recursive && depth > 0 && Reachable(m, d + [a], true, depth - 1, t) {
      forall k | 0 <= k < |s|
        ensures Shown(m, d + s[..k], s[k])
      {
        if k > 0 {
          assert Shown(m, (d + [a]) + t[..k - 1], t[k - 1]);
        }
      }
    }
    if Reachable(m, d, recursive, depth, s) {
      forall k | 0 <= k < |t|
        ensures Shown(m, (d + [a]) + t[..k], t[k])
      {
        assert Shown(m, d + s[..k + 1], s[k + 1]);
      }
    }
  }

  /** A single name is reached exactly when it is shown in `d`. */
  lemma ReachableSingle(m: Entries, d: Path, recursive: bool, depth: nat, s: Path)
    requires |s| == 1
    ensures Reachable(m, d, recursive, depth, s) <==> Shown(m, d, s[0])
  {
    assert s[..0] == [] && d + [] == d;
  }

  /** Whatever is reached from `p` starts in a directory that is read, so
      `p` is a directory. */
  lemma ReachableHeadDir(m: Entries, p: Path, recursive: bool, depth: nat, t: Path)
    ensures Reachable(m, p, recursive, depth, t) ==> IsDir(m, p)
  {
    if Reachable(m, p, recursive, depth, t) {
      assert t[..0] == [] && p + [] == p;
      assert Shown(m, p + t[..0], t[0]);
    }
  }

  /** The walk lists the directory `d + s` exactly when it reaches it and
      its name matches the search. */
  lemma {:induction false} ListedDirMeans(m: Entries, d: Path, needle: string, recursive: bool, depth: nat,
                                          fold: string -> string, s: Path)
    requires s != []
    ensures ListedDir(m, d, needle, recursive, depth, fold, s) <==>
              Reachable(m, d, recursive, depth, s) && IsDir(m, d + s) && Matches(Last(s), needle, fold)
    decreases |s|
  {
    var a, t := s[0], s[1..];
    if |s| == 1 {
      ReachableSingle(m, d, recursive, depth, s);
    } else {
      assert s == [a] + t;
      ListedDeeper(m, d, needle, recursive, depth, fold, s);
      ReachableCons(m, d, recursive, depth, a, t);
      assert (d + [a]) + t == d + s && Last(t) == Last(s);
      if recursive && depth > 0 {
        ListedDirMeans(m, d + [a], needle, true, depth - 1, fold, t);
        ReachableHeadDir(m, d + [a], true, depth - 1, t);
      }
    }
  }

  /** The walk lists the file `d + s` exactly when it reaches it, its
      extension is not dangerous and its name matches the search. */
  lemma {:induction false} ListedFileMeans(m: Entries, d: Path, needle: string, recursive: bool, depth: nat,
                                           fold: string -> string, s: Path)
    requires s != []
    ensures ListedFile(m, d, needle, recursive, depth, fold, s) <==>
              Reachable(m, d, recursive, depth, s) && IsFile(m, d + s) &&
              !IsDangerousExt(Last(s)) && Matches(Last(s), needle, fold)
    decreases |s|
  {
    var a, t := s[0], s[1..];
    if |s| == 1 {
      ReachableSingle(m, d, recursive, depth, s);
    } else {
      assert s == [a] + t;
      ListedDeeper(m, d, needle, recursive, depth, fold, s);
      ReachableCons(m, d, recursive, depth, a, t);
      assert (d + [a]) + t == d + s && Last(t) == Last(s);
      if recursive && depth > 0 {
        ListedFileMeans(m, d + [a], needle, true, depth - 1, fold, t);
        ReachableHeadDir(m, d + [a], true, depth - 1, t);
      }
    }
  }

  /** A shown name is never dangerous, since `is_hidden` already hides
      dangerous names: the `is_dangerous_ext` test on files (line 215)
      never skips a file. */
  lemma ShownNotDangerous(m: Entries, d: Path, n: string)
    requires Shown(m, d, n)
    ensures !IsDangerousExt(n)
  {
  }

  /** Everything the walk lists starts with a name of `d`, so the walk
      over all of `d`'s names lists all of it. */
  lemma WalkComplete(m: Entries, d: Path, relDir: string, needle: string, recursive: bool, depth: nat,
                     fold: string -> string, now: int, dirs0: seq<DirItem>, files0: seq<FileItem>,
                     dirs: seq<DirItem>, files: seq<FileItem>, dirPaths: seq<Path>, filePaths: seq<Path>)
    requires WalkPart(m, d, relDir, needle, recursive, depth, fold, now, dirs0, files0, Children(m, d),
                      dirs, files, dirPaths, filePaths)
    ensures forall s :: s in dirPaths <==> ListedDir(m, d, needle, recursive, depth, fold, s)
    ensures forall s :: s in filePaths <==> ListedFile(m, d, needle, recursive, depth, fold, s)
  {
  }
}
