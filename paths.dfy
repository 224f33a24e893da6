/** Where the two table-creating routines put their database file.
    `create_file_database` and `create_overlaps_table` each turn a database
    name into a path under one fixed storage directory, by two slightly
    different rules. */
module Paths {
  import opened Text

  /** The hard-wired storage directory both routines use, written by its
      components. The lemmas below rely only on `StorageDirShape`: it is
      non-empty, ends with `/`, and has no `.`. */
  const StorageDir: string := "/home/" + "users/" + "mberkeley/" + "PAH_Project/" + "sqlite_dbs/"

  lemma StorageDirShape()
    ensures |StorageDir| > 0 && StorageDir[|StorageDir| - 1] == '/'
    ensures '.' !in StorageDir
  {
    assert '.' !in "/home/" && '.' !in "users/" && '.' !in "mberkeley/";
    assert '.' !in "PAH_Project/" && '.' !in "sqlite_dbs/";
  }

  /** `create_file_database`: the directory part of the name is thrown away and
      the last `/` segment is placed in the storage directory. */
  function FileDbPath(dbName: string): (path: string)
    ensures |StorageDir| <= |path| && path[..|StorageDir|] == StorageDir
    ensures '/' !in path[|StorageDir|..]
    ensures var file := path[|StorageDir|..];
      |file| <= |dbName| && dbName[|dbName| - |file|..] == file
    ensures '/' !in dbName ==> path == StorageDir + dbName
    ensures '/' in dbName ==>
      |path| - |StorageDir| < |dbName| && dbName[|dbName| - (|path| - |StorageDir|) - 1] == '/'
  {
    LastSegmentIsSuffix(dbName, '/');
    var path := StorageDir + LastSegment(dbName, '/');
    assert path[|StorageDir|..] == LastSegment(dbName, '/');
    path
  }

  /** `create_overlaps_table`: a bare name goes into the storage directory; a
      name containing `./` has its last segment placed there; any other name
      containing `/` is used as it is. Either way the result is a path (it
      contains `/`), and it is the name itself or the path
      `create_file_database` would use. */
  function OverlapsDbPath(dbName: string): (path: string)
    ensures '/' in path
    ensures path == dbName || path == FileDbPath(dbName)
  {
    StorageDirShape();
    assert StorageDir[0] == (StorageDir + dbName)[0];
    assert StorageDir[0] == (StorageDir + LastSegment(dbName, '/'))[0];
    if '/' !in dbName then StorageDir + dbName
    else if Contains(dbName, "./") then StorageDir + LastSegment(dbName, '/')
    else dbName
  }

  /** A storage-directory path to a file with no `/` in its name never
      contains `./`: the only `/` characters are the directory's own, and none
      of them follows a `.`. */
  lemma StoredPathHasNoDotSlash(file: string)
    requires '/' !in file
    ensures !Contains(StorageDir + file, "./")
  {
    StorageDirShape();
    var p := StorageDir + file;
    forall i ensures !OccursAt("./", p, i) {
      if 0 <= i && i + 2 <= |p| {
        if i + 1 < |StorageDir| {
          assert p[i] == StorageDir[i] && StorageDir[i] in StorageDir;
        } else {
          assert p[i + 1] == file[i + 1 - |StorageDir|];
        }
        assert p[i..i + 2] == [p[i], p[i + 1]];
      }
    }
  }

  /** Resolving a name for `create_file_database` twice is the same as once. */
  lemma FileDbPathIdempotent(dbName: string)
    ensures FileDbPath(FileDbPath(dbName)) == FileDbPath(dbName)
  {
    StorageDirShape();
    LastSegmentIsSuffix(dbName, '/');
    LastSegmentAfterSeparator(StorageDir, LastSegment(dbName, '/'), '/');
  }

  /** Resolving a name for `create_overlaps_table` twice is the same as once:
      every result is a path with a `/` and without `./`, or a path that was
      already used as it is. */
  lemma OverlapsDbPathIdempotent(dbName: string)
    ensures OverlapsDbPath(OverlapsDbPath(dbName)) == OverlapsDbPath(dbName)
  {
    StorageDirShape();
    var p := OverlapsDbPath(dbName);
    if '/' !in dbName {
      StoredPathHasNoDotSlash(dbName);
      assert StorageDir[0] == p[0];
    } else if Contains(dbName, "./") {
      LastSegmentIsSuffix(dbName, '/');
      StoredPathHasNoDotSlash(LastSegment(dbName, '/'));
      assert StorageDir[0] == p[0];
    }
  }

  /** The two rules agree on a bare name and on a name containing `./`; any
      other name containing `/` is used by the overlaps rule as it is. */
  lemma PathRulesAgreement(dbName: string)
    ensures ('/' !in dbName || Contains(dbName, "./")) ==> OverlapsDbPath(dbName) == FileDbPath(dbName)
    ensures '/' in dbName && !Contains(dbName, "./") ==> OverlapsDbPath(dbName) == dbName
  {
    if '/' !in dbName {
      SplitNoSeparator(dbName, '/');
    }
  }
}
