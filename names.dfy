/** Name classification and sanitisation: the fixed extension lists, the
    extension of a name, the hidden/dangerous/previewable tests and the
    repair of user-supplied file names. */
module Names {
  import opened Strings
  import opened Wrappers

  /** PHP's `in_array($x, $list, true)`: some element of the list is `x`. */
  predicate InArray(x: string, list: seq<string>) {
    exists i | 0 <= i < |list| :: list[i] == x
  }

  /** ALLOWED_UPLOAD_EXTS: document, image and archive types an upload may have. */
  const AllowedUploadExts: seq<string> := [
    "jpg", "jpeg", "png", "gif", "webp",
    "pdf", "txt", "csv",
    "zip", "7z", "tar", "gz",
    "doc", "docx", "xls", "xlsx", "ppt", "pptx"
  ]

  /** DANGEROUS_EXTS: script and executable types, hidden from the listing and
      refused for upload, download and rename targets. */
  const DangerousExts: seq<string> := [
    "php", "phtml", "php3", "php4", "php5", "php7", "php8", "phps", "phar",
    "cgi", "pl", "asp", "aspx", "jsp",
    "js", "mjs", "ts",
    "sh", "bash", "zsh", "ksh", "ps1", "bat", "cmd",
    "exe", "dll", "com", "msi", "scr"
  ]

  /** HIDE_DOTFILES. */
  const HideDotfiles: bool := true

  /** HIDE_PATTERNS: names hidden whatever their case. */
  const HidePatterns: seq<string> := [".htaccess", ".env", ".env.local", ".git", ".gitignore", ".DS_Store"]

  /** PREVIEW_IMAGE_EXTS and PREVIEW_MAX_BYTES (8 MiB). */
  const PreviewImageExts: seq<string> := ["jpg", "jpeg", "png", "gif", "webp"]
  const PreviewMaxBytes: int := 8 * 1024 * 1024

  /** MAX_UPLOAD_BYTES (50 MiB). */
  const MaxUploadBytes: int := 50 * 1024 * 1024

  /** PHP's `basename` on a path with '/' separators: trailing slashes are
      dropped and whatever follows the last remaining slash is kept. */
  function Basename(path: string): (r: string)
    ensures '/' !in r
    ensures '/' !in path ==> r == path
  {
    var t := TrimRight(path, {'/'});
    assert '/' !in path ==> t == path;
    t[LastIndexOf(t, '/') + 1..]
  }

  /** The base name is the last component once trailing slashes are dropped:
      a suffix with no '/', preceded by a '/' or by nothing. */
  lemma BasenameSpec(path: string)
    ensures var t := TrimRight(path, {'/'});
            var r := Basename(path);
            && |r| <= |t|
            && r == t[|t| - |r|..]
            && (|r| < |t| ==> t[|t| - |r| - 1] == '/')
  {
  }

  /** The base name of a path joined from a directory and a name is the
      name. */
  lemma BasenameOfJoin(dir: string, name: string)
    requires name != "" && '/' !in name
    ensures Basename(dir + "/" + name) == name
  {
    var p := dir + "/" + name;
    assert p[|p| - 1] == name[|name| - 1];
    TrimRightNone(p, {'/'});
    var i := LastIndexOf(p, '/');
    assert p[|dir|] == '/';
    assert p[i + 1..] == name;
  }

  /** `pathinfo($base, PATHINFO_EXTENSION)` once the base name is known: what
      follows the last dot, or '' when there is no dot. */
  function ExtensionOf(base: string): (r: string)
    ensures '.' !in r
    ensures forall c | c in r :: c in base
  {
    var i := LastIndexOf(base, '.');
    if i < 0 then "" else base[i + 1..]
  }

  /** `pathinfo($base, PATHINFO_FILENAME)`: what precedes the last dot, or the
      whole name when there is no dot. With the extension it gives back the
      name. */
  function FilenameOf(base: string): (r: string)
    ensures forall c | c in r :: c in base
    ensures '.' in base ==> base == r + "." + ExtensionOf(base)
    ensures '.' !in base ==> r == base && ExtensionOf(base) == ""
  {
    var i := LastIndexOf(base, '.');
    if i < 0 then base
    else
      assert base == base[..i] + "." + base[i + 1..];
      base[..i]
  }

  /** `file_ext`: the lower-cased extension of the last path component. */
  function FileExt(name: string): (r: string)
    ensures '.' !in r && '/' !in r
    ensures Lower(r) == r
    ensures '.' !in Basename(name) ==> r == ""
  {
    var e := ExtensionOf(Basename(name));
    LowerIdempotent(e);
    LowerKeepsAbsent(e, '.');
    LowerKeepsAbsent(e, '/');
    Lower(e)
  }

  /** The extension of `stem.ext`, for a stem with no '/' and an extension
      with no dot, is the extension lower-cased. */
  lemma FileExtOfDotted(stem: string, ext: string)
    requires '/' !in stem && '.' !in ext && '/' !in ext
    ensures FileExt(stem + "." + ext) == Lower(ext)
  {
    var n := stem + "." + ext;
    assert '/' !in n by {
      assert forall k | 0 <= k < |n| :: n[k] == (if k < |stem| then stem[k] else if k == |stem| then '.' else ext[k - |stem| - 1]);
    }
    var i := LastIndexOf(n, '.');
    assert n[|stem|] == '.';
    assert n[i + 1..] == ext;
  }

  /** `is_dangerous_ext`. */
  predicate IsDangerousExt(name: string) {
    var ext := FileExt(name);
    ext != "" && InArray(ext, DangerousExts)
  }

  /** `ext_allowed`. */
  predicate ExtAllowed(name: string) {
    var ext := FileExt(name);
    ext != "" && InArray(ext, AllowedUploadExts)
  }

  /** `is_image_previewable`. */
  predicate IsImagePreviewable(name: string, size: int) {
    InArray(FileExt(name), PreviewImageExts) && size <= PreviewMaxBytes
  }

  /** No name is both dangerous and allowed for upload: the two lists are
      disjoint. */
  lemma DangerousAndAllowedDisjoint(name: string)
    ensures !(IsDangerousExt(name) && ExtAllowed(name))
  {
    var e := FileExt(name);
    if InArray(e, AllowedUploadExts) {
      AllowedNotDangerous(e);
    }
  }

  /** An allowed extension is not dangerous. */
  lemma AllowedNotDangerous(e: string)
    requires InArray(e, AllowedUploadExts)
    ensures !InArray(e, DangerousExts)
  {
    ExtensionListsDisjoint();
  }

  /** A previewable name is an allowed upload type and is never dangerous. */
  lemma PreviewableIsSafe(name: string, size: int)
    requires IsImagePreviewable(name, size)
    ensures ExtAllowed(name) && !IsDangerousExt(name)
  {
    var e := FileExt(name);
    ImageExtAllowed(e);
    AllowedNotDangerous(e);
  }

  /** An image extension is a non-empty allowed upload extension. */
  lemma ImageExtAllowed(e: string)
    requires InArray(e, PreviewImageExts)
    ensures e != "" && InArray(e, AllowedUploadExts)
  {
    ImageExtsAllowed();
  }

  /** No allowed extension is dangerous. */
  lemma ExtensionListsDisjoint()
    ensures forall e | InArray(e, AllowedUploadExts) :: !InArray(e, DangerousExts)
  {
    DisjointUpTo(9);
    DisjointFrom(9);
  }

  /** Two different extensions differ in length or in their first, second
      or last letter. */
  predicate Distinguished(a: string, b: string) {
    |a| != |b| || (|a| >= 2 && |b| >= 2 && (a[0] != b[0] || a[1] != b[1] || a[|a| - 1] != b[|b| - 1]))
  }

  /** The first nine allowed extensions are not dangerous. */
  lemma DisjointUpTo(k: nat)
    requires k == 9
    ensures forall i, j | 0 <= i < k && 0 <= j < |DangerousExts| :: AllowedUploadExts[i] != DangerousExts[j]
  {
    forall i, j | 0 <= i < k && 0 <= j < |DangerousExts|
      ensures AllowedUploadExts[i] != DangerousExts[j]
    {
      assert Distinguished(AllowedUploadExts[i], DangerousExts[j]);
    }
  }

  /** The allowed extensions from the tenth on are not dangerous. */
  lemma DisjointFrom(k: nat)
    requires k == 9
    ensures forall i, j | k <= i < |AllowedUploadExts| && 0 <= j < |DangerousExts| :: AllowedUploadExts[i] != DangerousExts[j]
  {
    forall i, j | k <= i < |AllowedUploadExts| && 0 <= j < |DangerousExts|
      ensures AllowedUploadExts[i] != DangerousExts[j]
    {
      assert Distinguished(AllowedUploadExts[i], DangerousExts[j]);
    }
  }

  /** Every image extension is an allowed upload extension. */
  lemma ImageExtsAllowed()
    ensures forall e | InArray(e, PreviewImageExts) :: InArray(e, AllowedUploadExts)
  {
    forall e | InArray(e, PreviewImageExts)
      ensures InArray(e, AllowedUploadExts)
    {
      var i :| 0 <= i < |PreviewImageExts| && PreviewImageExts[i] == e;
      assert AllowedUploadExts[i] == e;
    }
  }

  /** What `is_hidden` decides: a dot-file, one of the hidden names in any
      case, or a dangerous name. */
  predicate Hidden(name: string) {
    || (HideDotfiles && |name| > 0 && name[0] == '.')
    || (exists j | 0 <= j < |HidePatterns| :: EqualsIgnoreCase(name, HidePatterns[j]))
    || IsDangerousExt(name)
  }

  /** `is_hidden`, with its loop over the hidden names. */
  method IsHidden(name: string) returns (h: bool)
    ensures h == Hidden(name)
  {
    if HideDotfiles && |name| > 0 && name[0] == '.' {
      return true;
    }
    for j := 0 to |HidePatterns|
      invariant forall k | 0 <= k < j :: !EqualsIgnoreCase(name, HidePatterns[k])
    {
      if EqualsIgnoreCase(name, HidePatterns[j]) {
        return true;
      }
    }
    h := IsDangerousExt(name);
    NoPatternHidden(name);
  }

  /** A name that is neither a dot-file nor one of the hidden names is
      hidden exactly when it is dangerous. */
  lemma NoPatternHidden(name: string)
    requires !(HideDotfiles && |name| > 0 && name[0] == '.')
    requires forall k | 0 <= k < |HidePatterns| :: !EqualsIgnoreCase(name, HidePatterns[k])
    ensures Hidden(name) == IsDangerousExt(name)
  {
  }

  /** Every hidden name begins with '.', so the pattern loop never hides a
      name the dot-file rule has not hidden already: a name is hidden exactly
      when it is a dot-file or dangerous. */
  lemma HiddenIsDotfileOrDangerous(name: string)
    ensures Hidden(name) <==> (|name| > 0 && name[0] == '.') || IsDangerousExt(name)
  {
    if j :| 0 <= j < |HidePatterns| && EqualsIgnoreCase(name, HidePatterns[j]) {
      var pat := HidePatterns[j];
      assert pat[0] == '.';
      assert Lower(name)[0] == Lower(pat)[0] == '.';
    }
  }

  /** The characters `safe_filename` replaces by '_': bytes 0x00-0x1F, 0x7F,
      '/' and '\'. */
  predicate Unsafe(c: char) {
    c as int <= 0x1F || c as int == 0x7F || c == '/' || c == '\\'
  }

  /** The `preg_replace` step of `safe_filename`. */
  function ReplaceUnsafe(s: string): (r: string)
    ensures |r| == |s|
    ensures forall i | 0 <= i < |s| :: r[i] == (if Unsafe(s[i]) then '_' else s[i])
    decreases |s|
  {
    if s == [] then [] else [if Unsafe(s[0]) then '_' else s[0]] + ReplaceUnsafe(s[1..])
  }

  /** After the replacement no unsafe character is left. */
  lemma NoUnsafeLeft(s: string)
    ensures forall c | c in ReplaceUnsafe(s) :: !Unsafe(c)
  {
    var r := ReplaceUnsafe(s);
    forall c | c in r
      ensures !Unsafe(c)
    {
      var i :| 0 <= i < |r| && r[i] == c;
    }
  }

  /** A name `safe_filename` hands back unchanged. */
  predicate IsSafeName(n: string) {
    && n != "" && n != "." && n != ".."
    && (forall i | 0 <= i < |n| :: !Unsafe(n[i]))
    && n[0] !in TrimSet && n[|n| - 1] !in TrimSet
  }

  /** `safe_filename`: unsafe characters become '_', the ends are trimmed, and
      '', '.' or '..' stop the request with 400. */
  function SafeFilename(name: string): (r: Result<string>)
    ensures r.Ok? ==> IsSafeName(r.value)
    ensures r.Ok? ==> |r.value| <= |name|
    ensures r.Exit? ==> r == Exit(400, "Invalid name")
  {
    var replaced := ReplaceUnsafe(name);
    NoUnsafeLeft(name);
    var n := Trim(replaced, TrimSet);
    if n == "" || n == "." || n == ".." then Exit(400, "Invalid name")
    else
      assert forall i | 0 <= i < |n| :: !Unsafe(n[i]) by {
        forall i | 0 <= i < |n| ensures !Unsafe(n[i]) {
          assert n[i] in n;
        }
      }
      Ok(n)
  }

  /** The names `safe_filename` keeps unchanged are exactly the safe ones; in
      particular it is idempotent. */
  lemma SafeFilenameFixedPoints(n: string)
    ensures SafeFilename(n) == Ok(n) <==> IsSafeName(n)
  {
    if IsSafeName(n) {
      assert ReplaceUnsafe(n) == n;
      TrimOfTrimmed(n, TrimSet);
    }
  }

  /** `safe_filename` never yields ''; the `=== ''` tests after it (folder
      name, rename base) can never succeed. */
  lemma SafeFilenameNeverEmpty(name: string)
    ensures SafeFilename(name) != Ok("")
  {
  }

  /** What `safe_filename` returns is the name with every unsafe character
      turned into '_' and trimmed of blanks at both ends; it ends the
      request exactly when that leaves '', '.' or '..'. */
  lemma SafeFilenameSpec(name: string)
    ensures var t := Trim(ReplaceUnsafe(name), TrimSet);
            SafeFilename(name).Exit? <==> t == "" || t == "." || t == ".."
    ensures SafeFilename(name).Ok? ==> TrimmedOf(SafeFilename(name).value, ReplaceUnsafe(name), TrimSet)
  {
    TrimSpec(ReplaceUnsafe(name), TrimSet);
  }

  /** A name that needs cleaning is cleaned rather than refused: blanks in
      front of a safe name are trimmed away. */
  lemma SafeFilenameTrimsBlank(n: string)
    requires IsSafeName(n)
    ensures SafeFilename(" " + n) == Ok(n)
  {
    ReplaceUnsafeBlank(n);
    BlankTrimmed(n);
  }

  /** A blank in front of a name without unsafe characters is kept by the
      replacement. */
  lemma ReplaceUnsafeBlank(n: string)
    requires forall i | 0 <= i < |n| :: !Unsafe(n[i])
    ensures ReplaceUnsafe(" " + n) == " " + n
  {
    assert (" " + n)[1..] == n;
    assert ReplaceUnsafe(n) == n;
  }

  /** `trim` of a blank and a name without blank ends is the name. */
  lemma BlankTrimmed(n: string)
    requires n != [] && n[0] !in TrimSet && n[|n| - 1] !in TrimSet
    ensures Trim(" " + n, TrimSet) == n
  {
    TrimLeftBlank(n);
    TrimOfTrimmed(n, TrimSet);
  }

  /** `ltrim` passes over a leading blank. */
  lemma TrimLeftBlank(n: string)
    ensures TrimLeft(" " + n, TrimSet) == TrimLeft(n, TrimSet)
  {
    var s := " " + n;
    assert s[1..] == n;
  }

  /** A '/' between two safe names is turned into '_' rather than refused. */
  lemma SafeFilenameReplacesSlash(a: string, b: string)
    requires IsSafeName(a) && IsSafeName(b)
    ensures SafeFilename(a + "/" + b) == Ok(a + "_" + b)
  {
    ReplaceUnsafeSlash(a, b);
    SafeJoin(a, b);
    TrimOfTrimmed(a + "_" + b, TrimSet);
  }

  /** The replacement turns the '/' between two names without unsafe
      characters into '_' and keeps the rest. */
  lemma ReplaceUnsafeSlash(a: string, b: string)
    requires forall i | 0 <= i < |a| :: !Unsafe(a[i])
    requires forall i | 0 <= i < |b| :: !Unsafe(b[i])
    ensures ReplaceUnsafe(a + "/" + b) == a + "_" + b
  {
    ReplaceUnsafeConcat(a + "/", b);
    ReplaceUnsafeConcat(a, "/");
    assert ReplaceUnsafe(a) == a;
    assert ReplaceUnsafe(b) == b;
    assert ReplaceUnsafe("/") == "_";
  }

  /** The replacement works character by character, so it distributes over
      concatenation. */
  lemma ReplaceUnsafeConcat(a: string, b: string)
    ensures ReplaceUnsafe(a + b) == ReplaceUnsafe(a) + ReplaceUnsafe(b)
  {
    var r := ReplaceUnsafe(a) + ReplaceUnsafe(b);
    assert forall i | 0 <= i < |a + b| :: r[i] == ReplaceUnsafe(a + b)[i];
  }

  /** Two safe names joined by '_' make a safe name. */
  lemma SafeJoin(a: string, b: string)
    requires IsSafeName(a) && IsSafeName(b)
    ensures IsSafeName(a + "_" + b)
  {
    var t := a + "_" + b;
    forall i | 0 <= i < |t|
      ensures !Unsafe(t[i])
    {
      if i < |a| {
        assert t[i] == a[i];
      } else if i > |a| {
        assert t[i] == b[i - |a| - 1];
      }
    }
    assert t[0] == a[0] && t[|t| - 1] == b[|b| - 1];
  }

  /** `filename_base`: the last path component without its extension, made
      safe. */
  function FilenameBase(name: string): (r: Result<string>)
    ensures r.Ok? ==> IsSafeName(r.value)
  {
    SafeFilename(FilenameOf(Basename(name)))
  }

  /** A name whose base name has no dot keeps its whole base name:
      `filename_base` is then `safe_filename` of the last path component. */
  lemma FilenameBaseUndotted(name: string)
    requires '.' !in Basename(name)
    ensures FilenameBase(name) == SafeFilename(Basename(name))
  {
  }

  /** `filename_base` strips the typed extension: a safe stem followed by a
      dot and an extension without '.' or '/' gives back the stem. */
  lemma FilenameBaseOfDotted(stem: string, ext: string)
    requires IsSafeName(stem) && '.' !in ext && '/' !in ext
    ensures FilenameBase(stem + "." + ext) == Ok(stem)
  {
    var n := stem + "." + ext;
    assert '/' !in stem by {
      forall i | 0 <= i < |stem| ensures stem[i] != '/' {
        assert !Unsafe(stem[i]);
      }
    }
    NoSlashInDotted(stem, ext);
    assert Basename(n) == n;
    ExtensionOfDotted(stem, ext);
    assert n[|stem|] == '.';
    assert FilenameOf(n) == stem;
    SafeFilenameFixedPoints(stem);
  }

  /** The name a file gets when renamed to base `newBase` (line 397): the
      original, lower-cased extension is appended when there is one. */
  function RenamedFileName(newBase: string, origExt: string): string {
    if origExt != "" then newBase + "." + origExt else newBase
  }

  /** Rename keeps a file's extension: when the old name has one, the new name
      built from any safe base has the same extension. */
  lemma RenameKeepsExtension(oldName: string, newBase: string)
    requires '/' !in newBase
    requires FileExt(oldName) != ""
    ensures FileExt(RenamedFileName(newBase, FileExt(oldName))) == FileExt(oldName)
  {
    var e := FileExt(oldName);
    var n := newBase + "." + e;
    NoSlashInDotted(newBase, e);
    assert Basename(n) == n;
    ExtensionOfDotted(newBase, e);
  }

  /** Joining two slash-free strings with a dot gives a slash-free string. */
  lemma NoSlashInDotted(b: string, e: string)
    requires '/' !in b && '/' !in e
    ensures '/' !in b + "." + e
  {
    assert forall i | 0 <= i < |b + "." + e| :: (b + "." + e)[i] in b || (b + "." + e)[i] == '.' || (b + "." + e)[i] in e;
  }

  /** The extension of `b + "." + e` is `e` when `e` holds no dot. */
  lemma ExtensionOfDotted(b: string, e: string)
    requires '.' !in e
    ensures ExtensionOf(b + "." + e) == e
  {
    var n := b + "." + e;
    assert n[|b|] == '.';
    assert forall i | |b| < i < |n| :: n[i] == e[i - |b| - 1];
    assert LastIndexOf(n, '.') == |b|;
    assert n[|b| + 1..] == e;
  }
}
