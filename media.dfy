/** The image-upload rules shared by both backends: what counts as an
    upload, which images are accepted, how a stored file is named and how a
    stored URL leads back to its file. */
module Media {
  import opened Php
  import Config

  /** An entry of `$_FILES`: the upload error code, the client's file name and
      the size in bytes (the temporary path is abstracted away). */
  datatype Upload = Upload(error: int, clientName: string, size: int)

  const UploadErrOk: int := 0
  const MaxImageBytes: int := 5 * 1024 * 1024
  const AllowedExtensions: set<string> := {"jpg", "jpeg", "png", "gif"}

  /** `$file && $file['error'] === UPLOAD_ERR_OK`. */
  predicate Uploaded(file: Option<Upload>) {
    file.Some? && file.value.error == UploadErrOk
  }

  datatype ImageVerdict = Accepted | BadType | TooLarge

  /** The image check: the type is checked first, then the size; exactly
      5 MiB is still accepted. */
  function CheckImage(ext: string, size: int): (v: ImageVerdict)
    ensures v == Accepted <==> ext in AllowedExtensions && size <= MaxImageBytes
    ensures v == BadType <==> ext !in AllowedExtensions
    ensures v == TooLarge <==> ext in AllowedExtensions && size > MaxImageBytes
  {
    if ext !in AllowedExtensions then BadType
    else if size > MaxImageBytes then TooLarge
    else Accepted
  }

  lemma SizeLimitBoundary()
    ensures CheckImage("png", 5 * 1024 * 1024) == Accepted
    ensures CheckImage("png", 5 * 1024 * 1024 + 1) == TooLarge
    ensures CheckImage("bmp", 0) == BadType
  {
  }

  /** What `md5()` returns: 32 lower-case hexadecimal digits. */
  predicate IsMd5Digest(d: string) {
    |d| == 32 && forall i :: 0 <= i < |d| ==> d[i] in "0123456789abcdef"
  }

  /** The generated name `md5(...) . '.' . $ext` of a stored upload. */
  function StoredFileName(digest: string, ext: string): (n: string)
    ensures |n| > |digest| && n[|digest|] == '.' && n[|digest| + 1..] == ext
  {
    digest + "." + ext
  }

  /** The URL stored in an item for a file in the upload directory. */
  function StoredUrl(fileName: string): (u: string)
    ensures Config.UploadDirRelative <= u
  {
    Config.UploadDirRelative + fileName
  }

  /** The upload-directory entry a stored URL refers to, as both backends
      compute it before unlinking: nothing for a null, "" or "0" URL,
      otherwise the URL's basename. */
  function ImageFile(url: Option<string>): (f: Option<string>)
    ensures f.Some? <==> Truthy(url)
    ensures f.Some? ==> f.value == Basename(url.value)
  {
    match url
    case Some(u) => if IsEmptyString(u) then None else Some(Basename(u))
    case None => None
  }

  /** A generated name never contains a slash. */
  lemma StoredFileNameHasNoSlash(digest: string, ext: string)
    requires IsMd5Digest(digest) && ext in AllowedExtensions
    ensures '/' !in StoredFileName(digest, ext)
  {
    var n := StoredFileName(digest, ext);
    forall i | 0 <= i < |n| ensures n[i] != '/' {
      if i < |digest| {
        assert n[i] == digest[i];
        assert digest[i] in "0123456789abcdef";
      } else if i > |digest| {
        assert n[i] == ext[i - |digest| - 1];
      }
    }
  }

  /** The round trip between a stored file and its URL: the file an item's
      URL points at is exactly the file that was written for it, so delete
      and replace remove what add stored. */
  lemma StoredUrlRoundTrip(digest: string, ext: string)
    requires IsMd5Digest(digest) && ext in AllowedExtensions
    ensures ImageFile(Some(StoredUrl(StoredFileName(digest, ext)))) == Some(StoredFileName(digest, ext))
  {
    var n := StoredFileName(digest, ext);
    StoredFileNameHasNoSlash(digest, ext);
    BasenameOfJoin(Config.UploadDirRelative, n);
    assert |StoredUrl(n)| > 1;
  }
}
