/** The two GET actions that end the request by sending a file:
    `download` (lines 258-262 with `respond_download`, lines 147-157) and
    `preview` (lines 263-267 with `respond_preview_image`, lines 158-170).
    Only their guards and the headers they choose are modelled; the bytes
    are not. `mime_content_type` is the parameter `mimeOf`, giving "" where
    it fails. */
module Transfer {
  import opened Wrappers
  import opened Strings
  import opened Names
  import opened Tree

  /** A file sent to the browser: where it is, its `Content-Type`, its
      `Content-Length`, and whether it is shown inline (the preview) or as
      an attachment (the download). */
  datatype Sent = Sent(path: Path, contentType: string, length: nat, inline: bool)

  /** The type a download is sent with: what `mime_content_type` says, or
      "application/octet-stream" when the answer is falsy in PHP ("" or
      "0"). */
  function DownloadType(mime: string): (r: string)
    ensures r != "" && r != "0"
    ensures mime != "" && mime != "0" ==> r == mime
    ensures mime == "" || mime == "0" ==> r == "application/octet-stream"
  {
    if mime == "" || mime == "0" then "application/octet-stream" else mime
  }

  /** `download`: the name is made safe (which may end the request with
      400), a dangerous name is refused with 403, anything that is not a
      readable file gives 404, and otherwise the file is sent. */
  function Download(m: Entries, d: Path, nameRaw: string, mimeOf: Path -> string): (r: Result<Sent>)
    ensures SafeFilename(nameRaw).Exit? ==> r == Exit(400, "Invalid name")
    ensures SafeFilename(nameRaw).Ok? ==>
              var file := SafeFilename(nameRaw).value;
              var t := d + [file];
              && (r == Exit(403, "Download blocked.") <==> IsDangerousExt(file))
              && (r == Exit(404, "File not found") <==> !IsDangerousExt(file) && !(IsFile(m, t) && m[t].readable))
              && (r.Ok? <==> !IsDangerousExt(file) && IsFile(m, t) && m[t].readable)
              && (r.Ok? ==> r.value == Sent(t, DownloadType(mimeOf(t)), m[t].size, false))
  {
    var file :- SafeFilename(nameRaw);
    var t := d + [file];
    if IsDangerousExt(file) then Exit(403, "Download blocked.")
    else if !(IsFile(m, t) && m[t].readable) then Exit(404, "File not found")
    else Ok(Sent(t, DownloadType(mimeOf(t)), m[t].size, false))
  }

  /** What is downloaded is a readable file directly in the current
      directory, under a safe name that is not dangerous. */
  lemma DownloadOnlySafeFiles(m: Entries, d: Path, nameRaw: string, mimeOf: Path -> string)
    requires Download(m, d, nameRaw, mimeOf).Ok?
    ensures var s := Download(m, d, nameRaw, mimeOf).value;
            && s.path != [] && Parent(s.path) == d
            && IsSafeName(Last(s.path)) && !IsDangerousExt(Last(s.path))
            && IsFile(m, s.path) && m[s.path].readable
            && !s.inline && s.length == m[s.path].size
  {
    var file := SafeFilename(nameRaw).value;
    var t := d + [file];
    assert Parent(t) == d && Last(t) == file;
  }

  /** `@filesize($p)`: the size of a file, `dirSize` for a directory (what
      the file system reports for one), nothing for a missing entry. */
  function FileSize(m: Entries, t: Path, dirSize: nat): (r: Option<nat>)
    ensures r.Some? <==> t in m
    ensures IsFile(m, t) ==> r == Some(m[t].size)
    ensures IsDir(m, t) ==> r == Some(dirSize)
  {
    if t !in m then None
    else match m[t]
      case File(size, _, _) => Some(size)
      case Dir(_, _) => Some(dirSize)
  }

  /** The type a preview is sent with: what `mime_content_type` says when
      it starts with "image/" (ignoring case), or else the generic image
      type. */
  function PreviewType(mime: string): (r: string)
    ensures StartsWithIgnoreCase(r, "image/")
    ensures StartsWithIgnoreCase(mime, "image/") ==> r == mime
    ensures !StartsWithIgnoreCase(mime, "image/") ==> r == "image/*"
  {
    if mime == "" || !StartsWithIgnoreCase(mime, "image/") then "image/*" else mime
  }

  /** `preview`: the name is made safe (which may end the request with
      400), a missing entry gives 404, a name or size that may not be
      previewed gives 403, and otherwise the entry is sent inline. */
  function Preview(m: Entries, d: Path, nameRaw: string, dirSize: nat, mimeOf: Path -> string): (r: Result<Sent>)
    ensures SafeFilename(nameRaw).Exit? ==> r == Exit(400, "Invalid name")
    ensures SafeFilename(nameRaw).Ok? ==>
              var file := SafeFilename(nameRaw).value;
              var t := d + [file];
              && (r == Exit(404, "File not found") <==> t !in m)
              && (r == Exit(403, "Preview not allowed") <==>
                    t in m && !IsImagePreviewable(file, FileSize(m, t, dirSize).value))
              && (r.Ok? <==> t in m && IsImagePreviewable(file, FileSize(m, t, dirSize).value))
              && (r.Ok? ==> r.value == Sent(t, PreviewType(mimeOf(t)), FileSize(m, t, dirSize).value, true))
  {
    var file :- SafeFilename(nameRaw);
    var t := d + [file];
    match FileSize(m, t, dirSize)
    case None => Exit(404, "File not found")
    case Some(size) =>
      if !IsImagePreviewable(file, size) then Exit(403, "Preview not allowed")
      else Ok(Sent(t, PreviewType(mimeOf(t)), size, true))
  }

  /** What is previewed has an image extension, is within the preview
      limit, is never a dangerous name, and is labelled as an image. */
  lemma PreviewOnlyImages(m: Entries, d: Path, nameRaw: string, dirSize: nat, mimeOf: Path -> string)
    requires Preview(m, d, nameRaw, dirSize, mimeOf).Ok?
    ensures var s := Preview(m, d, nameRaw, dirSize, mimeOf).value;
            && s.path != [] && Parent(s.path) == d && s.path in m
            && InArray(FileExt(Last(s.path)), PreviewImageExts)
            && s.length <= PreviewMaxBytes
            && !IsDangerousExt(Last(s.path))
            && StartsWithIgnoreCase(s.contentType, "image/")
            && s.inline
  {
    var file := SafeFilename(nameRaw).value;
    var t := d + [file];
    assert Parent(t) == d && Last(t) == file;
    PreviewableIsSafe(file, FileSize(m, t, dirSize).value);
  }
}
