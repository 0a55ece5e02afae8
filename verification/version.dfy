/** The game's version information (`Version`): the packed version number,
    the version text shown to players and the strings describing the git
    revision the game was built from. */
module Version {
  import opened Decimal

  /** `getVersionNumber`: the major number shifted into the high half and
      or-ed with the minor number, over the 32-bit patterns of both. Major
      and minor numbers below 65536 come back out of the two halves. */
  function VersionNumber(major: bv32, minor: bv32): (r: bv32)
    ensures major < 0x1_0000 && minor < 0x1_0000 ==> r >> 16 == major && r & 0xFFFF == minor
  {
    if minor < 0x1_0000 then
      HighHalf(major, minor);
      LowHalf(major, minor);
      (major << 16) | minor
    else (major << 16) | minor
  }

  lemma HighHalf(major: bv32, minor: bv32)
    requires minor < 0x1_0000
    ensures ((major << 16) | minor) >> 16 == major & 0xFFFF
  {
  }

  lemma LowHalf(major: bv32, minor: bv32)
    requires minor < 0x1_0000
    ensures ((major << 16) | minor) & 0xFFFF == minor
  {
  }

  /** A minor number of 65536 or more spills into the major half. */
  lemma LargeMinorCollides()
    ensures VersionNumber(0, 0x1_0000) == VersionNumber(1, 0)
  {
  }

  /** The version fields `setVersion` stores, and the build's display mode. */
  datatype VersionInfo = VersionInfo(
    major: int, minor: int, buildNum: int, localBuildNum: int,
    buildUser: string, gitAuthor: string,
    showFullVersion: bool, debugBuild: bool)

  /** `getAsciiBuildUserOrGitCommitAuthorName`: the build user, or the git
      author when the build user is empty. */
  function BuildUserOrAuthor(v: VersionInfo): (r: string)
    ensures |v.buildUser| > 0 ==> r == v.buildUser
    ensures |v.buildUser| == 0 ==> r == v.gitAuthor
  {
    if |v.buildUser| == 0 then v.gitAuthor else v.buildUser
  }

  /** The user name with "xx" appended when shorter than two characters. */
  function PaddedUser(user: string): (r: string)
    ensures |r| >= 2
    ensures |user| >= 2 ==> r == user
    ensures |user| < 2 ==> r[..|user|] == user && r[|user|..] == "xx"
  {
    if |user| < 2 then user + "xx" else user
  }

  /** `getAsciiVersion`. */
  function AsciiVersion(v: VersionInfo): (r: string)
    ensures !v.showFullVersion ==>
              r == IntText(v.major) + "." + IntText(v.minor) + (if v.debugBuild then " Debug" else "")
    ensures v.showFullVersion && v.localBuildNum == 0 ==>
              r == IntText(v.major) + "." + IntText(v.minor) + "." + IntText(v.buildNum)
                   + (if v.debugBuild then " Debug" else "")
    ensures v.showFullVersion && v.localBuildNum != 0 ==>
              var u := PaddedUser(BuildUserOrAuthor(v));
              r == IntText(v.major) + "." + IntText(v.minor) + "." + IntText(v.buildNum) + "."
                   + IntText(v.localBuildNum) + [u[0], u[1]] + (if v.debugBuild then " Debug" else "")
  {
    var base :=
      if !v.showFullVersion then IntText(v.major) + "." + IntText(v.minor)
      else if v.localBuildNum == 0 then IntText(v.major) + "." + IntText(v.minor) + "." + IntText(v.buildNum)
      else
        var u := PaddedUser(BuildUserOrAuthor(v));
        IntText(v.major) + "." + IntText(v.minor) + "." + IntText(v.buildNum) + "."
          + IntText(v.localBuildNum) + [u[0], u[1]];
    base + (if v.debugBuild then " Debug" else "")
  }

  /** The index of the first `.`, or `|s|`. */
  function FirstDot(s: string): (k: nat)
    ensures k <= |s| && (forall i :: 0 <= i < k ==> s[i] != '.') && (k < |s| ==> s[k] == '.')
  {
    if s == [] then 0 else if s[0] == '.' then 0 else 1 + FirstDot(s[1..])
  }

  /** Reading a short version text "major.minor" back. */
  function ParseShortVersion(s: string): (r: (int, int))
    requires var k := FirstDot(s);
             0 < k < |s| - 1 && AllDigits(s[..k]) && AllDigits(s[k + 1..])
  {
    var k := FirstDot(s);
    (DigitsValue(s[..k]), DigitsValue(s[k + 1..]))
  }

  /** The short version text of a release build names the major and minor
      numbers unambiguously: reading it back gives both. */
  lemma ShortVersionRoundTrip(v: VersionInfo)
    requires !v.showFullVersion && !v.debugBuild && v.major >= 0 && v.minor >= 0
    ensures var s := AsciiVersion(v);
            var k := FirstDot(s);
            0 < k < |s| - 1 && AllDigits(s[..k]) && AllDigits(s[k + 1..]) &&
            ParseShortVersion(s) == (v.major, v.minor)
  {
    var a, b := NatText(v.major), NatText(v.minor);
    var s := AsciiVersion(v);
    assert s == a + "." + b;
    assert s[..|a|] == a && s[|a| + 1..] == b;
    assert s[|a|] == '.';
    NatTextRoundTrip(v.major);
    NatTextRoundTrip(v.minor);
  }

  /** `buildAsciiGitCommitCount`: "~" for uncommitted changes, then the
      revision number. */
  function GitCommitCount(uncommitted: bool, revision: int): (r: string)
    ensures uncommitted ==> r == "~" + IntText(revision)
    ensures !uncommitted ==> r == IntText(revision)
  {
    (if uncommitted then "~" else "") + IntText(revision)
  }

  /** The count starts with "~" exactly when there are uncommitted changes. */
  lemma CommitCountMarksChanges(uncommitted: bool, revision: int)
    ensures GitCommitCount(uncommitted, revision)[0] == '~' <==> uncommitted
  {
    var t := IntText(revision);
    assert t[0] == '-' || IsDigitChar(t[0]);
  }

  /** `buildAsciiGitTagOrHash`: "~" for uncommitted changes, then the tag
      when there is one, else the short hash. */
  function GitTagOrHash(uncommitted: bool, tag: string, shortSha: string): (r: string)
    ensures var name := if |tag| > 0 then tag else shortSha;
            r == (if uncommitted then "~" + name else name)
  {
    (if uncommitted then "~" else "") + (if |tag| > 0 then tag else shortSha)
  }

  /** A hash is all lower-case hex digits, so with an untagged build the
      "~" marks exactly the uncommitted changes. */
  lemma UntaggedMarksChanges(uncommitted: bool, shortSha: string)
    requires |shortSha| > 0 && shortSha[0] != '~'
    ensures GitTagOrHash(uncommitted, [], shortSha)[0] == '~' <==> uncommitted
  {
  }

  /** `getAsciiGitVersion`: count and tag in full mode, the count alone
      otherwise. */
  function GitVersion(showFullVersion: bool, count: string, tagOrHash: string): (r: string)
    ensures showFullVersion ==> r == count + " " + tagOrHash
    ensures !showFullVersion ==> r == count
  {
    if showFullVersion then count + " " + tagOrHash else count
  }
}
