# File manager core, modelled in Dafny

`file_manager_v3.php` is a one-file PHP file manager. It shows the folder
below a fixed base directory that the `dir` parameter names. It can search
that folder recursively, and it sorts what it shows. It lets the user
download, preview, upload, create, delete, move and rename entries. This
project models the decisions behind the page, without the HTML around them.

- How request paths are cleaned and checked against the base (`clean_seg`,
  `resolve_path`). The check is a string-prefix test that also lets
  sibling folders through (see Findings).
- How names are classified (`file_ext`, `is_dangerous_ext`, `ext_allowed`,
  `is_image_previewable`, `is_hidden`) against the fixed lists.
- How names are sanitised (`safe_filename`, `filename_base`).
- The breadcrumb trail and the parent folder.
- The depth-bounded listing and search (`collect_items`) and the sorting
  (`sort_items`).
- The guards of `download` and `preview`.
- The validate-then-act logic of the POST actions `upload`, `mkdir`,
  `delete`, `move` and `rename`, as transitions of a directory tree.

The file system is a map from paths (sequences of names below the base) to
nodes. A node is a file with a size, a modification time and a readable
flag, or a directory with a time and a readable flag. `WellFormed` says:

- the root is a directory;
- every other entry's parent is a directory of the map;
- every name on a path is a valid name.

Every action is proved to keep the tree well formed. The file-system calls
whose outcome the model cannot know become parameters:

- `realpath` is an oracle;
- whether `mkdir`, `rename`, `unlink`/`rrmdir`, `is_uploaded_file` or
  `move_uploaded_file` succeed;
- `mime_content_type` and `finfo_file`;
- the clock;
- the Unicode case folding of `mb_strtolower`/`mb_stripos`;
- `strnatcasecmp`, which is required to be a total preorder.

Modules, in dependency order:

- `Wrappers`: `Option` and `Result`. `Exit(code, message)` is PHP's
  `http_response_code(code); exit(message)`.
- `Strings`: the PHP string functions the core uses.
- `Names`: the lists of lines 44-67 and the name functions.
- `Paths`: the path functions.
- `Crumbs`: the breadcrumb and the parent folder.
- `Tree`: the file-system model.
- `Listing`: `collect_items`.
- `Sorting`: `sort_items`.
- `Actions`: the decisions of `mkdir`, `delete`, `move` and `rename`.
- `Upload`: the upload checks and loop.
- `Transfer`: `download` and `preview`.
- `Manager`: a `FileManager` class. It owns the tree, and its methods
  perform the POST actions.
- `Page`: the request inputs and the listing the page shows.

## Model

| member | source | states |
|---|---|---|
| Strings.TrimLeft | file_manager_v3.php:98 | `ltrim`: the result is a suffix of the input; everything dropped is in the character set; the result does not start with one |
| Strings.TrimRight | file_manager_v3.php:99 | `rtrim`: the result is a prefix of the input; everything dropped is in the set; the result does not end with one |
| Strings.Trim | file_manager_v3.php:94 | `trim`: no end of the result is in the set, the result is no longer than the input, and every character of it comes from the input |
| Strings.TrimSpec | file_manager_v3.php:94 | `trim` cuts a run of characters of the set from each end and keeps the middle: the result is a contiguous piece of the input, everything before and after it is in the set, and neither end of it is |
| Strings.TrimmedUnique | file_manager_v3.php:94 | only one string is the input trimmed of the set in that sense, so `TrimSpec` determines `trim` |
| Strings.TrimOfTrimmed | file_manager_v3.php:94 | a string whose ends are not in the set is its own trim, so trimming is idempotent |
| Strings.ReplaceChar | file_manager_v3.php:93 | `str_replace` of one character: same length; every occurrence replaced, all else kept |
| Strings.RemoveChar | file_manager_v3.php:93 | removing NULs: none is left, every other character keeps its count, a string without the character is unchanged |
| Strings.RemoveCharConcat | file_manager_v3.php:93 | removing a character distributes over concatenation, so the other characters keep their order |
| Strings.RemoveCharOne | file_manager_v3.php:93 | a single character is dropped when it is the one removed and kept otherwise |
| Strings.Lower | file_manager_v3.php:114 | `strtolower`: same length, each ASCII capital lowered, no capital left |
| Strings.Split | file_manager_v3.php:142 | `explode('/')`: at least one part, no part contains the separator, and joining the parts gives the input back |
| Strings.SplitJoin | file_manager_v3.php:142 | `explode` inverts `implode` for parts without the separator |
| Names.Basename | file_manager_v3.php:348 | `basename`: no '/' in the result; a name without '/' is its own basename |
| Names.BasenameSpec | file_manager_v3.php:348 | once trailing slashes are dropped, the base name is the suffix after the last '/' (or the whole path when there is none) |
| Names.BasenameOfJoin | file_manager_v3.php:348 | the base name of a directory, '/' and a name without '/' is that name |
| Names.FilenameOf | file_manager_v3.php:179 | `pathinfo(PATHINFO_FILENAME)`: with a dot, the name is the filename, '.', then the extension; without one, the whole name and no extension |
| Names.FileExt | file_manager_v3.php:114 | `file_ext`: the extension has no '.' or '/', is lower case, and is empty when the base name has no dot |
| Names.FileExtOfDotted | file_manager_v3.php:114 | the extension of a stem, '.' and an extension without '.' or '/' is that extension lower-cased |
| Names.DangerousAndAllowedDisjoint | file_manager_v3.php:44-58 | no name is both dangerous and allowed for upload |
| Names.ExtensionListsDisjoint | file_manager_v3.php:44-58 | no extension of `ALLOWED_UPLOAD_EXTS` is in `DANGEROUS_EXTS` |
| Names.ImageExtsAllowed | file_manager_v3.php:44-67 | every preview image extension may also be uploaded |
| Names.PreviewableIsSafe | file_manager_v3.php:117-120 | a previewable name has an allowed extension and is never dangerous |
| Names.IsHidden | file_manager_v3.php:121-127 | the loop over `HIDE_PATTERNS` answers exactly `Hidden`: a dotfile, a case-insensitive match of a pattern, or a dangerous name |
| Names.HiddenIsDotfileOrDangerous | file_manager_v3.php:121-127 | since every pattern begins with '.', a name is hidden exactly when it is a dotfile or dangerous |
| Names.ReplaceUnsafe | file_manager_v3.php:172 | the `preg_replace`: same length; each control character, DEL, '/' and '\' becomes '_', all else is kept |
| Names.ReplaceUnsafeConcat | file_manager_v3.php:172 | the replacement works character by character, so it distributes over concatenation |
| Names.SafeFilename | file_manager_v3.php:171-176 | the request ends with 400 "Invalid name", or the result is a safe name (not '', '.' or '..'; no control character, DEL, '/' or '\'; trimmed) no longer than the input |
| Names.SafeFilenameFixedPoints | file_manager_v3.php:171-176 | a name is returned unchanged exactly when it is already safe |
| Names.SafeFilenameNeverEmpty | file_manager_v3.php:174 | an empty result is impossible |
| Names.SafeFilenameSpec | file_manager_v3.php:171-176 | the result is the name with unsafe characters replaced, trimmed of blanks at both ends; the request ends exactly when that leaves '', '.' or '..' |
| Names.SafeFilenameTrimsBlank | file_manager_v3.php:173 | a blank in front of a safe name is trimmed away, not refused |
| Names.SafeFilenameReplacesSlash | file_manager_v3.php:172 | a '/' between two safe names becomes '_', not refused |
| Names.FilenameBase | file_manager_v3.php:178-181 | `filename_base` ends the request or returns a safe name |
| Names.FilenameBaseOfDotted | file_manager_v3.php:177-181 | `filename_base` strips the typed extension: a safe stem, '.' and an extension without '.' or '/' give the stem |
| Names.FilenameBaseUndotted | file_manager_v3.php:177-181 | a name whose base name has no dot gives `safe_filename` of that whole base name |
| Names.RenameKeepsExtension | file_manager_v3.php:397 | for a file with an extension, the renamed name has the same extension |
| Paths.CleanSeg | file_manager_v3.php:92-95 | `clean_seg`: no NUL, no '\', and no blank at either end |
| Paths.CleanSegSpec | file_manager_v3.php:92-95 | the cleaned segment is the segment with its NULs removed and each '\' turned into '/', trimmed of blanks at both ends; a segment with no NUL and no blank end only has its backslashes turned |
| Paths.TrimOfPlain | file_manager_v3.php:93-94 | turning backslashes into '/' brings no blank to an end, so the `trim` after it leaves a segment without blank ends alone |
| Paths.CleanSegIdempotent | file_manager_v3.php:92-95 | cleaning twice is cleaning once |
| Paths.RelativePart | file_manager_v3.php:97-98 | the relative part has no NUL, no '\' and no leading '/' |
| Paths.RelativePartSpec | file_manager_v3.php:97-98 | the relative part is the cleaned segment with its leading slashes, and only those, cut off |
| Paths.LeadingSlashesCut | file_manager_v3.php:98 | `ltrim($c, '/')` is a suffix of its input and everything it cut is '/' |
| Paths.Canonical | file_manager_v3.php:96-105 | a base that does not resolve ends with 500; otherwise the relative part is as cleaned; neither path has a '\'; the base has no trailing '/'; an unresolved candidate is kept as written, backslashes turned |
| Paths.CanonicalOracle | file_manager_v3.php:99-104 | for a base that resolves, the real base is its canonical form with '/' separators and no trailing '/', and a candidate that resolves is replaced by its canonical form with '/' separators |
| Paths.ResolvePath | file_manager_v3.php:96-108 | `resolve_path` as written: it ends with 500 exactly when the base does not resolve and with 403 "Forbidden path" exactly when the resolution succeeded but the absolute path does not begin with the base as a string; when it does, the resolution is returned |
| Paths.ResolveContained | file_manager_v3.php:96-108 | the corrected check: a request `resolve_path` ends is ended the same way; a path it accepts is returned when equal to the base or below "base/" and ends with 403 "Forbidden path" otherwise |
| Paths.InsidePassesPrefixTest | file_manager_v3.php:106 | every path the corrected check accepts also passes the string-prefix test |
| Paths.SiblingPassesPrefixTest | file_manager_v3.php:106 | a candidate that resolves to "base" + tail, with the tail not starting with '/', passes the test although it is outside the base |
| Paths.SiblingDirectoryExample | file_manager_v3.php:106 | "../www-evil" under "/srv/www" is accepted as "/srv/www-evil" and refused by the corrected check |
| Paths.SlashPrefixIsAncestor | file_manager_v3.php:353 | the "dst/" against "src/" string test of `move` holds exactly when the destination lies at or below the source |
| Paths.Locate | file_manager_v3.php:106 | an absolute path has a location in the tree exactly when it is the base itself or lies below "base/"; the base is the root, and no name of a location holds a '/' |
| Paths.LocateRoundTrip | file_manager_v3.php:106 | the located path, written out again below the base, is the absolute path |
| Paths.LocateOfAbsOf | file_manager_v3.php:106 | a location of '/'-free names, written out below the base, is located as itself, so with `LocateRoundTrip` every path has exactly one location |
| Crumbs.BreadcrumbAsWritten | file_manager_v3.php:139-146 | `breadcrumb` as written: no crumb at the top; otherwise one crumb per name, carrying the path accumulated with PHP's truthiness test |
| Crumbs.Breadcrumb | file_manager_v3.php:139-146 | the intended breadcrumb: crumb `i` carries the first `i + 1` names joined by '/' |
| Crumbs.CrumbsAreAncestors | file_manager_v3.php:139-146 | every crumb is a prefix of the trimmed path, and the last crumb is the whole path |
| Crumbs.AccumAgrees | file_manager_v3.php:144 | when the first name is not "0", the as-written accumulation is the '/'-join |
| Crumbs.ZeroFolderLosesSeparator | file_manager_v3.php:144 | below a folder named "0", the separator is lost ("0" then "a" gives "0a") |
| Crumbs.ParentRel | file_manager_v3.php:424-425 | the parent is "" at the top and for a single name; otherwise the parent, '/', and the last name give the trimmed path back |
| Tree.Children | file_manager_v3.php:194 | the names `scandir` lists are exactly the entries directly below |
| Tree.AncestorsAreDirs | file_manager_v3.php:193-222 | every proper ancestor of an entry is a directory |
| Tree.RemoveSubtree | file_manager_v3.php:128-138 | the subtree below the target is gone and everything else is kept |
| Tree.RemoveKeepsWellFormed | file_manager_v3.php:128-138 | deleting a subtree keeps the tree well formed |
| Tree.AddKeepsWellFormed | file_manager_v3.php:320 | adding a valid name to a directory keeps the tree well formed |
| Tree.Relocate | file_manager_v3.php:362 | `rename`: everything outside source and destination is kept, and every entry below the source appears below the destination |
| Tree.RelocateKeepsWellFormed | file_manager_v3.php:362 | moving an entry to a free valid name in a directory that is not below it keeps the tree well formed; the source is gone and the destination holds its node |
| Listing.ChildRelJoin | file_manager_v3.php:211 | the child's relative folder is the parent's and the name joined by '/' |
| Listing.CollectItems | file_manager_v3.php:193-222 | `collect_items` keeps the lists it is given and appends, once each, exactly the items of the entries the walk lists, each at its path |
| Listing.ListedDirMeans | file_manager_v3.php:193-222 | a directory is listed exactly when every name on its path is shown, it lies at most `depth` levels down (deeper only when recursive), and its name matches |
| Listing.ListedFileMeans | file_manager_v3.php:193-222 | a file is listed exactly when it is reachable in the same way, is not dangerous, and its name matches |
| Listing.ShownNotDangerous | file_manager_v3.php:199 | nothing shown is hidden, so nothing shown is dangerous |
| Listing.WalkComplete | file_manager_v3.php:193-222 | the walk from the folder lists exactly the listed directories and files |
| Sorting.Spaceship | file_manager_v3.php:226 | `<=>`: negative, zero or positive as the first is smaller, equal or larger |
| Sorting.DescNegatesAsc | file_manager_v3.php:229 | the descending comparators are the negation of the ascending ones |
| Sorting.DirSizeIsName | file_manager_v3.php:224-228 | directories asked to sort by size compare by name |
| Sorting.DirCmpPreorder | file_manager_v3.php:224-229 | `$dirCmp` is a total preorder in every key and order when the name comparison is one |
| Sorting.FileCmpPreorder | file_manager_v3.php:230-235 | `$fileCmp` is a total preorder in every key and order |
| Sorting.Sort | file_manager_v3.php:236-237 | `usort` returns a permutation ordered by its comparator |
| Sorting.SortItems | file_manager_v3.php:223-238 | both lists come back as permutations of themselves, ordered by `$dirCmp` and `$fileCmp` |
| Actions.Mkdir | file_manager_v3.php:314-322 | an unsafe name ends with 400; an existing folder or a failure is reported with the tree unchanged; "Folder created." exactly when the name is free and `mkdir` succeeds, and then the folder is added |
| Actions.Delete | file_manager_v3.php:324-330 | an unsafe name ends with 400; "Item not found." exactly when missing; "Folder deleted." and "File deleted." exactly when the entry is of that kind and the deletion succeeds, and then its subtree is removed; otherwise the tree is unchanged |
| Actions.MoveInto | file_manager_v3.php:347-364 | a folder moved into itself or below is refused with the tree unchanged; otherwise the item keeps its name and the outcome is `MoveTo` (an existing name refused, "Moved." exactly when `rename` succeeds); the tree stays well formed |
| Actions.TargetFolder | file_manager_v3.php:343 | the target resolves below the base or the request ends as the resolution says; the folder is the resolved path's location, its names hold no '/', and written out it is the resolved path |
| Actions.Move | file_manager_v3.php:333-368 | an unsafe name ends with 400; "Item not found.", "Target folder required." and "Target folder does not exist." exactly in their cases; a target outside the base ends the request; otherwise the outcome is `MoveInto` |
| Actions.RenameTo | file_manager_v3.php:386-388 | "Target name exists." exactly when the new name is taken, "Renamed." exactly when it is free and `rename` succeeds (then the entry moves), "Rename failed." otherwise |
| Actions.NewName | file_manager_v3.php:382-397 | a folder takes the new base; a file with an extension gets a name with that same extension; a file without one takes the new base; the name is valid |
| Actions.Rename | file_manager_v3.php:372-408 | an unsafe old name ends with 400; a missing entry gives "Item not found." with the tree unchanged; otherwise the outcome is `RenameEntry` |
| Actions.RenameEntry | file_manager_v3.php:380-406 | an unsafe new base ends with 400; "Target name not allowed." exactly when a file's new name is dangerous, with the tree unchanged; otherwise the outcome is `RenameTo` with the computed name |
| Actions.RenameKeepsFileExtension | file_manager_v3.php:391-404 | a renamed file keeps its extension, its new name is not dangerous, and exactly that entry moved |
| Actions.RenamedFile | file_manager_v3.php:391-404 | a file that `RenameEntry` renames gets the new base with its old extension, a name that is not dangerous, and exactly that entry moves |
| Upload.CheckUpload | file_manager_v3.php:283-304 | an empty name is skipped; an unsafe name ends with 400; a file is stored exactly when its name is safe, not dangerous, allowed, within 50 MiB, without an upload error, a real temporary file and of no refused MIME type, and then under its safe name, which is uploadable |
| Upload.UploadStart | file_manager_v3.php:274-277 | nothing is stored yet, and the error list holds "Directory not writable." exactly when the folder is not writable |
| Upload.StoreFile | file_manager_v3.php:306-307 | `move_uploaded_file` succeeds exactly when the name is not a directory and the move works |
| Upload.StoreFileKeepsWellFormed | file_manager_v3.php:306-307 | storing an uploadable name keeps the tree well formed and puts the new file there |
| Upload.UploadStep | file_manager_v3.php:281-308 | one pass adds at most one error or one count, keeps earlier errors, and ends the request exactly when the name is unsafe; after the end nothing changes |
| Upload.UploadStepCases | file_manager_v3.php:283-308 | a pass counts one exactly when the checks let the file through and the move succeeds, and then stores exactly that file; a refused file appends the check's error, a failed move appends `MoveFailed`, a skipped entry or an unsafe name appends nothing |
| Upload.ApplyCases | file_manager_v3.php:283-308 | what each verdict does to the run: an unsafe name ends it, a skip changes nothing, a refusal appends its error, a store puts the file in the tree and counts it unless the name is a folder or the move fails |
| Upload.HaltedStays | file_manager_v3.php:284 | once the request has ended, the files after it change nothing |
| Upload.StoredTrans | file_manager_v3.php:281-308 | what uploads change accumulates: only uploadable files directly in the folder are added or replaced |
| Upload.UploadUpToStored | file_manager_v3.php:281-308 | after any number of files, the tree is well formed, only uploadable files in the folder changed, and there are no more counts and errors than files plus one |
| Upload.HaltedMeansUnsafeName | file_manager_v3.php:282-284 | the request ends exactly when some non-empty name is unsafe |
| Upload.UploadAction | file_manager_v3.php:273-311 | no files gives "No files uploaded."; an unsafe name ends with 400 and keeps what was already stored; otherwise the count when there is no error, the error list when there is one |
| Upload.UnwritableAlwaysReported | file_manager_v3.php:277 | in a folder that is not writable, "Directory not writable." is always the first error |
| Manager.FileManager.Mkdir | file_manager_v3.php:314-322 | the tree and the answer after `mkdir` are those `Actions.Mkdir` decides |
| Manager.FileManager.Delete | file_manager_v3.php:324-330 | the tree and the answer after `delete` are those `Actions.Delete` decides |
| Manager.FileManager.Move | file_manager_v3.php:333-368 | the tree and the answer after `move` are those `Actions.Move` decides |
| Manager.FileManager.Rename | file_manager_v3.php:372-408 | the tree and the answer after `rename` are those `Actions.Rename` decides |
| Manager.FileManager.Upload | file_manager_v3.php:273-311 | the loop over the files leaves the tree and answer that `UploadAction` describes |
| Manager.FileManager.UploadFiles | file_manager_v3.php:282-309 | the `foreach` leaves the tree, `$errs`, `$count` and whether the request ended as `UploadUpTo` says, and keeps the tree well formed |
| Manager.FileManager.ApplyVerdict | file_manager_v3.php:285-308 | the loop body after the checks changes the tree, `$errs` and `$count` as `ApplyCases` says |
| Transfer.DownloadType | file_manager_v3.php:150 | the download type is what `mime_content_type` says, or "application/octet-stream" when that is falsy ("" or "0") |
| Transfer.Download | file_manager_v3.php:258-262 | an unsafe name ends with 400; a dangerous name with 403; anything but a readable file with 404; otherwise the file is sent as an attachment with its size |
| Transfer.DownloadOnlySafeFiles | file_manager_v3.php:147-157 | whatever is downloaded is a readable, non-dangerous file directly in the current folder |
| Transfer.FileSize | file_manager_v3.php:160 | `filesize` fails exactly for a missing entry, gives a file's size, and gives `dirSize` for a directory |
| Transfer.PreviewType | file_manager_v3.php:163-164 | the preview type is the detected type when that starts with "image/" (ignoring case), and exactly "image/*" otherwise |
| Transfer.Preview | file_manager_v3.php:263-267 | an unsafe name ends with 400; a missing entry with 404; a name or size that may not be previewed with 403; otherwise the entry is sent inline |
| Transfer.PreviewOnlyImages | file_manager_v3.php:158-170 | whatever is previewed has an image extension, is at most 8 MiB, is not dangerous and is labelled as an image |
| Page.ParseSortKey | file_manager_v3.php:245 | `size` and `mtime` are taken as given; anything else, or nothing, is `name` |
| Page.SortKeyRoundTrip | file_manager_v3.php:245 | every key written into the query string is read back unchanged |
| Page.ParseOrder | file_manager_v3.php:246 | `desc` exactly when the parameter says so, `asc` otherwise |
| Page.OrderRoundTrip | file_manager_v3.php:246 | every order is read back unchanged |
| Page.SearchText | file_manager_v3.php:244 | the search text has no blank at either end, and is empty when missing |
| Page.SearchTextSpec | file_manager_v3.php:244 | the search text is the query trimmed of blanks at both ends, in the sense of `TrimSpec` |
| Page.SearchTextIdempotent | file_manager_v3.php:244 | trimming the search text again changes nothing |
| Page.NeedleFilter | file_manager_v3.php:416 | with an idempotent folding, a name passes the filter exactly when there is no search or the folded name contains the folded search |
| Page.CurrentDir | file_manager_v3.php:243-253 | the `dir` parameter ends the request exactly when its resolution by the corrected containment check does; the folder shown is a directory: the resolved one when it is, the base otherwise |
| Page.CleanedTwice | file_manager_v3.php:243 | cleaning `dir` before `resolve_path` cleans it again makes no difference |
| Page.ListDirectory | file_manager_v3.php:415-420 | the page lists exactly the directories and files the walk lists, once each, at depth at most 4 and recursively only when searching, each list ordered by its comparator |

## Left out

- The HTML, CSS and JavaScript of the page, `link_here`, `http_build_query` and `htmlspecialchars` (lines 182-188, 427-747): presentation only.
- The session, the CSRF token and its check (lines 85-91). They depend on `random_bytes` and session state.
- The `DEBUG` switch and the polyfills (lines 18-27, 72-80).
- The switches `ALLOW_UPLOADS`, `ALLOW_DELETE`, `ALLOW_RENAME` and `ALLOW_CREATE_DIR` (lines 36-39, tested at 273, 314, 324 and 372). All four are true, so every action is always enabled and the model has no disabled branch.
- Header emission, `rawurlencode` of download names and the streaming of bytes in `respond_download` and `respond_preview_image`. Only their guards and the chosen type and length are modelled.
- `format_bytes` (lines 109-113): it uses floating-point division, `round` and `number_format`.
- `realpath` is an oracle. Symlinks, `..` segments and the unresolved-candidate fallback (line 103) are therefore not interpreted. `Paths.Locate` only recognises a path inside the base as written.
- The listing order of `scandir` is not modelled: the walk visits the names of a directory in any order. Its items are specified by the set of paths they stand for.
- `usort` is not stable. The model uses its own insertion sort and claims only a permutation that is ordered, never stability.
- `strnatcasecmp` and the Unicode case folding of `mb_strtolower`/`mb_stripos` are parameters. `natcmp` is required to be a total preorder. `strtolower`, `strcasecmp` and `stripos` are modelled on ASCII.
- `rrmdir` either succeeds or fails as a whole (the `deleteOk` parameter). A partial deletion before a failure is not modelled.
- `move` and `rename` use the `moveOk` and `renameOk` oracles. `realpath` of the source is taken to succeed for an existing entry, so the guard of line 352 always runs. `is_writable` does not affect them.
- Actions.Move, Actions.TargetFolder: `move` resolves its target with the corrected containment check, `Paths.ResolveContained`, rather than the string-prefix test, so a sibling target such as /srv/www-evil ends with 403 here (see Findings).
- Page.CurrentDir: resolves `dir` with the corrected containment check `Paths.ResolveContained`, not `resolve_path` as written (line 252). A sibling such as /srv/www-evil, which the source accepts and lists, ends with 403 here: the tree holds only what lies below the base (see Findings).
- Strings.StartsWith: follows PHP 8, where the empty needle is found at offset 0. On PHP 7 `strpos` with "" returns false, so a base that resolves to "/" would refuse every path.
- Uploads. `$_FILES['files']` is modelled as a sequence of records:
  - each record holds a name, a size, a temporary name and an error code;
  - the `?? ''`, `?? 0` and `?? UPLOAD_ERR_OK` defaults for missing indexes are not modelled;
  - `finfo` is an optional MIME oracle, `None` when `finfo_open` is unavailable or fails.
- Non-string query values (arrays in `$_GET`) are not modelled: every parameter is a string or absent.
- The messages "Folder name required." and "File name required." (lines 384, 395) cannot be produced. `filename_base` never returns an empty name: it ends the request first. The model has no such branch.
- Actions.RenameEntry: a folder is renamed to `filename_base` of the new name, so a typed extension is dropped ("a.b" becomes "a"). This follows the code, though the design says folders rename freely. A file without an extension keeps whatever the new base is.
- Transfer.FileSize: `filesize` of a directory is the parameter `dirSize`, since the file system decides it.

## Findings

| source | as written | input that shows it | evidently intended | confidence | as-written member | corrected member |
|---|---|---|---|---|---|---|
| file_manager_v3.php:106 | `strpos($realCand, $realBase) !== 0` accepts any path that begins with the base as a string | base "/srv/www", `dir=../www-evil`, resolved to "/srv/www-evil" | accept only the base itself or paths below "base/" | not executed | Paths.SiblingDirectoryExample | Paths.ResolveContained |
| file_manager_v3.php:144 | `$accum .= ($accum ? '/' : '') . $p` tests PHP truthiness, for which "0" is false | `dir=0/a` gives the crumb "0a" for `a` | put '/' between every two names | not executed | Crumbs.ZeroFolderLosesSeparator | Crumbs.Breadcrumb |
