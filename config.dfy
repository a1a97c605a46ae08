/** Application constants and the two path builders. */
module Config {
  import opened Php

  /** The shared admin secret. */
  const AdminPasswordSecret: string := "1234"

  /** Where uploaded images live, relative to the document root; also the URL prefix. */
  const UploadDirRelative: string := "/uploads/"

  /** Where the SQLite database lives, relative to the document root. */
  const DbFileRelative: string := "/data/items.sqlite"

  /** The absolute upload directory: the document root followed by the
      relative upload directory, so it ends in a slash. */
  function UploadDirPath(docRoot: string): (p: string)
    ensures docRoot <= p && p[|docRoot|..] == UploadDirRelative
    ensures p[|p| - 1] == '/'
  {
    docRoot + UploadDirRelative
  }

  /** The absolute database file: the document root followed by the relative
      database path. */
  function DbFilePath(docRoot: string): (p: string)
    ensures docRoot <= p && p[|docRoot|..] == DbFileRelative
  {
    docRoot + DbFileRelative
  }

  /** Appending a slash-free file name to the upload directory gives a path
      whose basename is that name: a file in the upload directory is
      identified by its name alone. */
  lemma UploadPathNamesEntry(docRoot: string, f: string)
    requires f != "" && '/' !in f
    ensures Basename(UploadDirPath(docRoot) + f) == f
  {
    BasenameOfJoin(UploadDirPath(docRoot), f);
  }

  /** Whatever the document root, the database file is called "items.sqlite". */
  lemma DbFileName(docRoot: string)
    ensures Basename(DbFilePath(docRoot)) == "items.sqlite"
  {
    assert DbFilePath(docRoot) == (docRoot + "/data/") + "items.sqlite";
    BasenameOfJoin(docRoot + "/data/", "items.sqlite");
  }
}
