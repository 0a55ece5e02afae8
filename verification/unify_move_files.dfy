/** The helper script that moves a source file from one game's tree into the
    shared `Core` tree and comments out (or back in) the matching lines of the
    `CMakeLists.txt` files. File-system effects are returned as a plan of
    actions instead of being performed. */
module UnifyMoveFiles {
  import opened Common
  import opened Strings

  datatype Game = Generals | ZeroHour | Core

  /** Each game's code directory, relative to the repository root. */
  function GamePath(g: Game): (r: string)
    ensures |r| > 0
  {
    match g
    case Generals => "Generals/Code"
    case ZeroHour => "GeneralsMD/Code"
    case Core => "Core"
  }

  /** The code directories of different games are different. */
  lemma GamePathInjective(a: Game, b: Game)
    requires a != b
    ensures GamePath(a) != GamePath(b)
  {
    assert GamePath(Generals)[0] == 'G' && GamePath(ZeroHour)[0] == 'G' && GamePath(Core)[0] == 'C';
    assert |GamePath(Generals)| != |GamePath(ZeroHour)|;
  }

  /** `get_opposite_game`; the script asserts for `Core`, modelled as `None`. */
  function OppositeGame(g: Game): (r: Option<Game>)
    ensures r.None? <==> g == Core
    ensures r.Some? ==> r.value != g && r.value != Core
  {
    match g
    case Generals => Some(ZeroHour)
    case ZeroHour => Some(Generals)
    case Core => None
  }

  /** Taking the opposite twice gives the game back. */
  lemma OppositeIsInvolution(g: Game)
    requires g != Core
    ensures OppositeGame(OppositeGame(g).value) == Some(g)
  {
  }

  datatype CmakeModifyType = AddComment | RemoveComment

  /** Python's `line.replace("#", "", 1)`: delete the first `#`, wherever it is. */
  function RemoveFirstHash(line: string): (r: string)
    ensures Find(line, "#") < 0 ==> r == line
    ensures Find(line, "#") >= 0 ==>
              var i := Find(line, "#");
              |r| == |line| - 1 && r[..i] == line[..i] && r[i..] == line[i + 1..] && line[i] == '#'
  {
    var i := Find(line, "#");
    if i < 0 then line else line[..i] + line[i + 1..]
  }

  /** The per-line rule of `modify_cmakelists`. */
  function ModifyLine(line: string, search: string, ty: CmakeModifyType): (r: string)
    ensures !Contains(line, search) ==> r == line
    ensures Contains(line, search) && ty == AddComment ==> r == "#" + line
    ensures Contains(line, search) && ty == RemoveComment ==> r == RemoveFirstHash(line)
  {
    if !Contains(line, search) then line
    else match ty
      case AddComment => "#" + line
      case RemoveComment => RemoveFirstHash(line)
  }

  /** `modify_cmakelists` on the file's lines. */
  function ModifyCmakeLines(lines: seq<string>, search: string, ty: CmakeModifyType): (r: seq<string>)
    ensures |r| == |lines|
    ensures forall i :: 0 <= i < |lines| ==> r[i] == ModifyLine(lines[i], search, ty)
  {
    if lines == [] then [] else [ModifyLine(lines[0], search, ty)] + ModifyCmakeLines(lines[1..], search, ty)
  }

  /** Lines not mentioning the search string are untouched. */
  lemma OtherLinesUnchanged(lines: seq<string>, search: string, ty: CmakeModifyType, i: nat)
    requires i < |lines| && !Contains(lines[i], search)
    ensures ModifyCmakeLines(lines, search, ty)[i] == lines[i]
  {
  }

  /** A string containing `pat` still contains it after a prefix is added. */
  lemma ContainsAfterPrefix(pre: string, s: string, pat: string)
    requires Contains(s, pat)
    ensures Contains(pre + s, pat)
  {
    var i := Find(s, pat);
    assert (pre + s)[|pre| + i..|pre| + i + |pat|] == s[i..i + |pat|];
    assert OccursAt(pre + s, pat, |pre| + i);
  }

  /** Removing the comment marker undoes adding it, line by line. */
  lemma RemoveUndoesAddLine(line: string, search: string)
    ensures ModifyLine(ModifyLine(line, search, AddComment), search, RemoveComment) == line
  {
    if Contains(line, search) {
      var c := "#" + line;
      ContainsAfterPrefix("#", line, search);
      assert OccursAt(c, "#", 0);
      FindIsFirst(c, "#", 0);
      assert c[1..] == line;
    }
  }

  /** ... and for the whole file. */
  lemma RemoveUndoesAdd(lines: seq<string>, search: string)
    ensures ModifyCmakeLines(ModifyCmakeLines(lines, search, AddComment), search, RemoveComment) == lines
  {
    forall i | 0 <= i < |lines|
      ensures ModifyLine(ModifyLine(lines[i], search, AddComment), search, RemoveComment) == lines[i]
    {
      RemoveUndoesAddLine(lines[i], search);
    }
  }

  /** Adding is not idempotent: a second run adds a second `#`. */
  lemma AddTwiceDiffers(line: string, search: string)
    requires Contains(line, search)
    ensures ModifyLine(ModifyLine(line, search, AddComment), search, AddComment) == "##" + line
  {
    ContainsAfterPrefix("#", line, search);
  }

  /** Removing from a line with no `#` leaves it alone. */
  lemma RemoveWithoutHashIsIdentity(line: string, search: string)
    requires forall i :: 0 <= i < |line| ==> line[i] != '#'
    ensures ModifyLine(line, search, RemoveComment) == line
  {
    forall j ensures !OccursAt(line, "#", j) {
      if 0 <= j < |line| {
        assert line[j..j + 1][0] == line[j];
      }
    }
  }

  /** A relative path split at its first `/`: the top folder (which holds the
      `CMakeLists.txt`) and the path inside it. */
  datatype SplitPath = SplitPath(folder: string, inCmake: string)

  /** The split both unify functions do; `None` where their `assert` fails
      (no `/`, or a `/` at index 0). */
  function SplitAtFirstFolder(path: string): (r: Option<SplitPath>)
    ensures r.Some? <==> Find(path, "/") > 0
    ensures r.Some? ==> r.value.folder + "/" + r.value.inCmake == path
    ensures r.Some? ==> |r.value.folder| > 0 && forall i :: 0 <= i < |r.value.folder| ==> r.value.folder[i] != '/'
  {
    var i := Find(path, "/");
    if i <= 0 then None
    else
      var sp := SplitPath(path[..i], path[i + 1..]);
      assert path[i..i + 1] == "/";
      forall k | 0 <= k < i ensures path[k] != '/' {
        assert !OccursAt(path, "/", k);
        assert path[k..k + 1][0] == path[k];
      }
      assert path[..i] + "/" + path[i + 1..] == path;
      Some(sp)
  }

  /** A file-system or build-file effect of the script. */
  datatype Action =
    | ModifyCmake(game: Game, folder: string, search: string, ty: CmakeModifyType)
    | DeleteFile(game: Game, path: string)
    | MoveFile(fromGame: Game, fromPath: string, toGame: Game, toPath: string)

  /** `unify_file`: comment the file out of both games' CMake lists, comment it
      in for `Core`, delete the opposite game's copy and move this game's copy.
      `None` where one of the script's assertions fails. */
  function UnifyFile(fromGame: Game, fromFile: string, toGame: Game, toFile: string): (r: Option<seq<Action>>)
    ensures r.Some? <==> toGame == Core && fromGame != Core && Find(fromFile, "/") > 0 && Find(toFile, "/") > 0
    ensures r.Some? ==>
              var opp := OppositeGame(fromGame).value;
              var f := SplitAtFirstFolder(fromFile).value;
              var t := SplitAtFirstFolder(toFile).value;
              r.value == [ModifyCmake(opp, f.folder, f.inCmake, AddComment),
                          ModifyCmake(fromGame, f.folder, f.inCmake, AddComment),
                          ModifyCmake(Core, t.folder, t.inCmake, RemoveComment),
                          DeleteFile(opp, fromFile),
                          MoveFile(fromGame, fromFile, Core, toFile)]
  {
    if toGame != Core then None
    else match OppositeGame(fromGame)
      case None => None
      case Some(opp) =>
        match (SplitAtFirstFolder(fromFile), SplitAtFirstFolder(toFile))
        case (Some(f), Some(t)) =>
          Some([ModifyCmake(opp, f.folder, f.inCmake, AddComment),
                ModifyCmake(fromGame, f.folder, f.inCmake, AddComment),
                ModifyCmake(toGame, t.folder, t.inCmake, RemoveComment),
                DeleteFile(opp, fromFile),
                MoveFile(fromGame, fromFile, toGame, toFile)])
        case _ => None
  }

  /** `unify_move_file`: as `UnifyFile` but only for the source game, with no
      copy in the opposite game to delete. */
  function UnifyMoveFile(fromGame: Game, fromFile: string, toGame: Game, toFile: string): (r: Option<seq<Action>>)
    ensures r.Some? <==> toGame == Core && Find(fromFile, "/") > 0 && Find(toFile, "/") > 0
    ensures r.Some? ==>
              var f := SplitAtFirstFolder(fromFile).value;
              var t := SplitAtFirstFolder(toFile).value;
              r.value == [ModifyCmake(fromGame, f.folder, f.inCmake, AddComment),
                          ModifyCmake(Core, t.folder, t.inCmake, RemoveComment),
                          MoveFile(fromGame, fromFile, Core, toFile)]
  {
    if toGame != Core then None
    else match (SplitAtFirstFolder(fromFile), SplitAtFirstFolder(toFile))
      case (Some(f), Some(t)) =>
        Some([ModifyCmake(fromGame, f.folder, f.inCmake, AddComment),
              ModifyCmake(toGame, t.folder, t.inCmake, RemoveComment),
              MoveFile(fromGame, fromFile, toGame, toFile)])
      case _ => None
  }

  /** In both plans the CMake search string is the path below the top folder,
      which rebuilds the full path when joined to the folder. */
  lemma PlansUseCmakeRelativePaths(fromGame: Game, fromFile: string, toFile: string)
    requires UnifyMoveFile(fromGame, fromFile, Core, toFile).Some?
    ensures var p := UnifyMoveFile(fromGame, fromFile, Core, toFile).value;
            p[0].folder + "/" + p[0].search == fromFile && p[1].folder + "/" + p[1].search == toFile
  {
  }
}
