/** The file-system front end (`FileSystem`): it asks the local file system
    first and the archive (`.big`) file system second, and tests whether a
    path lies inside a directory. The two underlying file systems are given
    as their answers for the file in question. */
module FileSystem {
  import opened Common
  import opened Strings
  import opened EngineStrings
  import opened AsciiStrings

  /** `openFile`: the result, and whether the archive file system was asked.
      A missing file system (a NULL singleton) is `None`; one that does not
      have the file answers `None` inside. */
  datatype Opened<F> = Opened(file: Option<F>, askedArchive: bool)

  function OpenFile<F>(local: Option<Option<F>>, archive: Option<Option<F>>): (r: Opened<F>)
    ensures r.askedArchive <==> archive.Some? && (local.None? || local.value.None?)
    ensures local.Some? && local.value.Some? ==> r.file == local.value
    ensures !r.askedArchive && !(local.Some? && local.value.Some?) ==> r.file.None?
    ensures r.askedArchive ==> r.file == archive.value
  {
    var fromLocal := if local.Some? then local.value else None;
    if archive.Some? && fromLocal.None? then Opened(archive.value, true)
    else Opened(fromLocal, false)
  }

  /** A file is found when either file system has it, the local one
      preferred. */
  lemma OpenFindsEither<F>(local: Option<F>, archive: Option<F>)
    ensures OpenFile(Some(local), Some(archive)).file.Some? <==> local.Some? || archive.Some?
    ensures local.Some? ==> OpenFile(Some(local), Some(archive)).file == local
  {
  }

  /** `doesFileExist` as it reads without the existence cache that
      `ENABLE_FILESYSTEM_EXISTENCE_CACHE` compiles in: the local file
      system's answer, else the archive's. */
  function DoesFileExist(inLocal: bool, inArchive: bool): (r: bool)
    ensures r <==> inLocal || inArchive
  {
    if inLocal then true else if inArchive then true else false
  }

  /** Existence agrees with opening: a file exists exactly when opening it
      from the same two file systems would succeed. */
  lemma ExistsIffOpens<F>(local: Option<F>, archive: Option<F>)
    ensures DoesFileExist(local.Some?, archive.Some?) <==> OpenFile(Some(local), Some(archive)).file.Some?
  {
  }

  /** The record `getFileInfo` fills. */
  datatype FileInfo = FileInfo(sizeHigh: int, sizeLow: int, timestampHigh: int, timestampLow: int)

  const ZeroInfo := FileInfo(0, 0, 0, 0)

  /** `getFileInfo`: FALSE without a record to fill; otherwise the record is
      cleared and then takes the local answer, else the archive's. The
      second component is the record afterwards (`None` for a NULL one). */
  function GetFileInfo(hasRecord: bool, local: Option<FileInfo>, archive: Option<FileInfo>): (r: (bool, Option<FileInfo>))
    ensures !hasRecord ==> r == (false, None)
    ensures hasRecord ==> r.1.Some?
    ensures hasRecord ==> (r.0 <==> local.Some? || archive.Some?)
    ensures hasRecord && local.Some? ==> r.1.value == local.value
    ensures hasRecord && local.None? && archive.Some? ==> r.1.value == archive.value
    ensures hasRecord && !r.0 ==> r.1.value == ZeroInfo
  {
    if !hasRecord then (false, None)
    else if local.Some? then (true, local)
    else if archive.Some? then (true, archive)
    else (false, Some(ZeroInfo))
  }

  /** Information is found exactly for the files that exist. */
  lemma InfoIffExists(local: Option<FileInfo>, archive: Option<FileInfo>)
    ensures GetFileInfo(true, local, archive).0 == DoesFileExist(local.Some?, archive.Some?)
  {
  }

  /** The path separator of the platform. */
  function PathSep(windows: bool): string {
    if windows then "\\" else "/"
  }

  /** The base directory with the separator appended if it does not end in
      one. */
  function WithTrailingSep(base: string, windows: bool): (r: string)
    ensures EndsWith(r, PathSep(windows))
    ensures EndsWith(base, PathSep(windows)) ==> r == base
    ensures !EndsWith(base, PathSep(windows)) ==> r == base + PathSep(windows)
  {
    if EndsWith(base, PathSep(windows)) then base else base + PathSep(windows)
  }

  /** `isPathInDirectory` on the two normalised paths (normalisation belongs
      to the local file system and is not modelled): false when either is
      empty, else whether the test path starts with the base directory and a
      separator, ignoring case on Windows. In terms of prefixes: the base
      with its separator is a prefix of the test path, compared as written
      on other systems and lower-cased on Windows. */
  function IsPathInDirectory(test: string, base: string, windows: bool): (r: bool)
    ensures r <==> |base| > 0 && |test| > 0 &&
                   (if windows then LowerString(WithTrailingSep(base, true)) <= LowerString(test)
                    else WithTrailingSep(base, false) <= test)
  {
    if |base| == 0 then false
    else if |test| == 0 then false
    else
      var dir := WithTrailingSep(base, windows);
      if windows then
        NoCaseIsLowered(test, dir);
        StartsWithNoCase(test, dir)
      else StartsWith(test, dir)
  }

  /** A name under a directory written without a trailing separator is in it;
      the directory itself is not. */
  lemma ChildIsInDirectory(base: string, name: string, windows: bool)
    requires |base| > 0 && !EndsWith(base, PathSep(windows))
    ensures IsPathInDirectory(base + PathSep(windows) + name, base, windows)
    ensures !IsPathInDirectory(base, base, windows)
  {
    var dir := base + PathSep(windows);
    var test := dir + name;
    assert test[..|dir|] == dir;
    if windows {
      assert LowerString(test[..|dir|]) == LowerString(dir);
    }
  }

  /** A sibling that merely shares the directory's name as a prefix
      ("Maps" and "MapsOld/x") is not inside it on a case-sensitive
      system. */
  lemma SiblingNotInDirectory(base: string, test: string)
    requires |base| > 0 && !EndsWith(base, "/") && |test| > |base|
    requires test[|base|] != '/'
    ensures !IsPathInDirectory(test, base, false)
  {
    var dir := base + "/";
    assert dir[|base|] == '/';
  }

  /** A path whose base directory is given with the trailing separator is
      judged the same way as without it. */
  lemma TrailingSepIrrelevant(test: string, base: string, windows: bool)
    requires |base| > 0 && !EndsWith(base, PathSep(windows))
    ensures IsPathInDirectory(test, base + PathSep(windows), windows) == IsPathInDirectory(test, base, windows)
  {
    assert EndsWith(base + PathSep(windows), PathSep(windows));
  }
}
