/** The request inputs of the page (lines 243-253) and the listing the page
    shows (lines 415-420): the validated `sort` and `order`, the trimmed
    search text, the current directory, and the collected and sorted
    items. */
module Page {
  import opened Wrappers
  import opened Strings
  import opened Tree
  import opened Paths
  import opened Listing
  import opened Sorting

  /** `RECURSIVE_SEARCH`. */
  const RecursiveSearch: bool := true

  /** `SEARCH_MAX_DEPTH`: how many levels below the current folder a search
      descends. */
  const SearchMaxDepth: nat := 4

  /** The spelling of a sort key in the query string. */
  function SortKeyName(k: SortKey): string {
    match k
    case ByName => "name"
    case BySize => "size"
    case ByMtime => "mtime"
  }

  /** `$sort`: one of "name", "size" and "mtime"; a missing or any other
      value is "name". */
  function ParseSortKey(s: Option<string>): (r: SortKey)
    ensures r == BySize <==> s == Some("size")
    ensures r == ByMtime <==> s == Some("mtime")
    ensures r == ByName <==> s != Some("size") && s != Some("mtime")
  {
    if s == Some("size") then BySize
    else if s == Some("mtime") then ByMtime
    else ByName
  }

  /** Every key survives being written into the query string and read
      back. */
  lemma SortKeyRoundTrip(k: SortKey)
    ensures ParseSortKey(Some(SortKeyName(k))) == k
  {
  }

  /** The spelling of an order in the query string. */
  function OrderName(o: Order): string {
    match o
    case Asc => "asc"
    case Desc => "desc"
  }

  /** `$order`: "asc" or "desc"; a missing or any other value is "asc". */
  function ParseOrder(s: Option<string>): (r: Order)
    ensures r == Desc <==> s == Some("desc")
  {
    if s == Some("desc") then Desc else Asc
  }

  lemma OrderRoundTrip(o: Order)
    ensures ParseOrder(Some(OrderName(o))) == o
  {
  }

  /** `$q`: the search text with the blanks at both ends trimmed. */
  function SearchText(q: Option<string>): (r: string)
    ensures r != [] ==> r[0] !in TrimSet && r[|r| - 1] !in TrimSet
    ensures q.None? ==> r == ""
  {
    Trim(if q.Some? then q.value else "", TrimSet)
  }

  /** The search text is the query trimmed of blanks at both ends. */
  lemma SearchTextSpec(q: string)
    ensures TrimmedOf(SearchText(Some(q)), q, TrimSet)
  {
    TrimSpec(q, TrimSet);
  }

  /** Trimming the search text again changes nothing. */
  lemma SearchTextIdempotent(q: Option<string>)
    ensures SearchText(Some(SearchText(q))) == SearchText(q)
  {
    TrimOfTrimmed(SearchText(q), TrimSet);
  }

  /** `$needle`: the case-folded search text, "" when there is none. */
  function Needle(q: string, fold: string -> string): string {
    if q != "" then fold(q) else ""
  }

  /** With a folding that is idempotent on the search text, a name passes
      the filter exactly when there is no search or the folded name
      contains the folded search text. */
  lemma NeedleFilter(name: string, q: string, fold: string -> string)
    requires fold(fold(q)) == fold(q)
    ensures Matches(name, Needle(q, fold), fold) <==> q == "" || Contains(fold(name), fold(q))
  {
    if q != "" && fold(q) == "" {
      assert StartsWith(fold(name)[0..], "");
    }
  }

  /** The folder the page shows: the `dir` parameter, cleaned and resolved
      with the containment check `ResolveContained` (which may end the
      request), or the base itself when what it names is not a directory of
      the tree. The second component is `$relDir`. */
  function CurrentDir(m: Entries, basePath: string, dirRaw: string, realpath: string -> Option<string>): (r: Result<(Path, string)>)
    requires WellFormed(m)
    ensures r.Exit? <==> ResolveContained(basePath, CleanSeg(dirRaw), realpath).Exit?
    ensures r.Exit? ==> r == ResolveContained(basePath, CleanSeg(dirRaw), realpath).PropagateFailure()
    ensures r.Ok? ==> IsDir(m, r.value.0)
    ensures r.Ok? ==>
              var res := ResolveContained(basePath, CleanSeg(dirRaw), realpath).value;
              var p := Locate(res).value;
              && (IsDir(m, p) ==> r.value == (p, res.relative) && AbsOf(res.realBase, p) == res.absPath)
              && (!IsDir(m, p) ==> r.value == ([], ""))
  {
    var res :- ResolveContained(basePath, CleanSeg(dirRaw), realpath);
    var p := Locate(res).value;
    if IsDir(m, p) then
      LocateRoundTrip(res);
      Ok((p, res.relative))
    else Ok(([], ""))
  }

  /** The folder named by `dir` is resolved as if cleaned once: cleaning the
      parameter before `resolve_path` cleans it again changes nothing. */
  lemma CleanedTwice(dirRaw: string)
    ensures RelativePart(CleanSeg(dirRaw)) == RelativePart(dirRaw)
  {
    CleanSegIdempotent(dirRaw);
  }

  /** The listing of lines 415-420: `collect_items` from the current folder
      (recursive, `SEARCH_MAX_DEPTH` deep, exactly when there is a search)
      into empty lists, then `sort_items`. Each list holds every entry the
      walk lists, once (the ghost results name them), and is ordered by its
      comparator. */
  method ListDirectory(m: Entries, d: Path, relDir: string, q: string, key: SortKey, order: Order,
                       fold: string -> string, natcmp: (string, string) -> int, now: int)
    returns (dirs: seq<DirItem>, files: seq<FileItem>,
             ghost foundDirs: seq<DirItem>, ghost foundFiles: seq<FileItem>,
             ghost dirPaths: seq<Path>, ghost filePaths: seq<Path>)
    requires TotalPreorder(natcmp)
    ensures var needle := Needle(q, fold);
            var recursive := RecursiveSearch && q != "";
            && (forall s :: s in dirPaths <==> ListedDir(m, d, needle, recursive, SearchMaxDepth, fold, s))
            && (forall s :: s in filePaths <==> ListedFile(m, d, needle, recursive, SearchMaxDepth, fold, s))
            && Distinct(dirPaths) && Distinct(filePaths)
            && DirItemsAt(m, d, relDir, now, foundDirs, dirPaths)
            && FileItemsAt(m, d, relDir, now, foundFiles, filePaths)
    ensures multiset(dirs) == multiset(foundDirs) && DirsSorted(dirs, key, order, natcmp)
    ensures multiset(files) == multiset(foundFiles) && FilesSorted(files, key, order, natcmp)
  {
    var needle := Needle(q, fold);
    var recursive := RecursiveSearch && q != "";
    var collectedDirs, collectedFiles;
    collectedDirs, collectedFiles, dirPaths, filePaths :=
      CollectItems(m, d, relDir, needle, recursive, SearchMaxDepth, fold, now, [], []);
    WalkComplete(m, d, relDir, needle, recursive, SearchMaxDepth, fold, now, [], [],
                 collectedDirs, collectedFiles, dirPaths, filePaths);
    assert collectedDirs[0..] == collectedDirs;
    assert collectedFiles[0..] == collectedFiles;
    foundDirs, foundFiles := collectedDirs, collectedFiles;
    dirs, files := SortItems(collectedDirs, collectedFiles, key, order, natcmp);
  }
}
