/** Command-line handling of the game: the quote-aware tokenizer `nextParam`,
    the table dispatch of `parseCommandLine`, the map-path rewriting done for
    `-mapName` and `-file`, and the path classification of `-mod`. The
    tokenizer's static `source` pointer is an explicit state value. */
module CommandLine {
  import opened Common
  import opened Strings
  import opened EngineStrings
  import AsciiStrings

  // ---------------------------------------------------------------------------
  // nextParam

  /** What one call of `nextParam` returns and the `source` it leaves behind;
      `None` is a NULL pointer. */
  datatype ParamResult = ParamResult(token: Option<string>, next: Option<string>)

  /** Characters skipped before the token: when the current character is a
      separator, the whole run of that same character; otherwise none. */
  function LeadSkip(s: string, seps: string): (i: nat)
    ensures i <= |s|
    ensures |s| == 0 || s[0] !in seps ==> i == 0
    ensures |s| > 0 && s[0] in seps ==>
              i > 0 && (forall k :: 0 <= k < i ==> s[k] == s[0]) && (i == |s| || s[i] != s[0])
  {
    if |s| > 0 && s[0] in seps then Span(s, [s[0]], true, 0) else 0
  }

  /** The characters that end the token: the skipped character when there was
      one (so a quoted argument may contain blanks), otherwise any separator. */
  function Stops(s: string, seps: string): string {
    if |s| > 0 && s[0] in seps then [s[0]] else seps
  }

  /** `nextParam(newSource, seps)` with the saved pointer `source`. A token
      it returns is never empty, and the text it saves is strictly shorter
      than the text it read, so the tokenizing loop ends. */
  function NextParam(source: Option<string>, newSource: Option<string>, seps: string): (r: ParamResult)
    ensures var src := if newSource.Some? then newSource else source;
            src.None? ==> r == ParamResult(None, None)
    ensures r.token.Some? ==> |r.token.value| > 0
    ensures var src := if newSource.Some? then newSource else source;
            src.Some? && r.next.Some? ==> |r.next.value| < |src.value|
  {
    var src := if newSource.Some? then newSource else source;
    if src.None? then ParamResult(None, None)
    else
      var s := src.value;
      var i := LeadSkip(s, seps);
      var e := Span(s, Stops(s, seps), false, i);
      ParamResult(if e == i then None else Some(s[i..e]),
                  if e + 1 < |s| then Some(s[e + 1..]) else None)
  }

  /** What `nextParam` returns for a saved text: the token runs from after
      the leading run to the first stop character, and the saved text moves
      past that stop, becoming NULL when nothing is left after it. */
  lemma NextParamToken(s: string, newSource: Option<string>, seps: string)
    ensures var r := NextParam(Some(s), newSource, seps);
            newSource.None? ==>
              var i := LeadSkip(s, seps);
              var tok := if r.token.Some? then r.token.value else [];
              var e := i + |tok|;
              e <= |s| && s[i..e] == tok &&
              (forall k :: 0 <= k < |tok| ==> tok[k] !in Stops(s, seps)) &&
              (e < |s| ==> s[e] in Stops(s, seps)) &&
              r.next == (if e + 1 < |s| then Some(s[e + 1..]) else None)
  {
    if newSource.None? {
      var i := LeadSkip(s, seps);
      var e := Span(s, Stops(s, seps), false, i);
      forall k | i <= k < e
        ensures s[k] !in Stops(s, seps)
      {
      }
    }
  }

  /** A quoted argument keeps its blanks: `"a b" rest` yields `a b` and leaves
      ` rest`. */
  lemma QuotedArgument(word: string, rest: string)
    requires |word| > 0 && word[0] != '"' && forall k :: 0 <= k < |word| ==> word[k] != '"'
    requires |rest| > 0
    ensures NextParam(Some("\"" + word + "\"" + rest), None, "\" ") == ParamResult(Some(word), Some(rest))
  {
    var s := "\"" + word + "\"" + rest;
    assert s[0] == '"' && s[1] == word[0];
    assert LeadSkip(s, "\" ") == 1;
    assert Stops(s, "\" ") == "\"";
    forall k | 1 <= k < 1 + |word| ensures s[k] !in "\"" {
      assert s[k] == word[k - 1];
    }
    assert s[1 + |word|] == '"';
    assert Span(s, "\"", false, 1) == 1 + |word|;
    assert s[1..1 + |word|] == word;
    assert s[2 + |word|..] == rest;
  }

  /** An unquoted word ends at the first blank. */
  lemma PlainArgument(word: string, rest: string)
    requires |word| > 0 && forall k :: 0 <= k < |word| ==> word[k] != '"' && word[k] != ' '
    requires |rest| > 0
    ensures NextParam(Some(word + " " + rest), None, "\" ") == ParamResult(Some(word), Some(rest))
  {
    var s := word + " " + rest;
    assert s[0] == word[0];
    assert LeadSkip(s, "\" ") == 0;
    forall k | 0 <= k < |word| ensures s[k] !in "\" " {
      assert s[k] == word[k];
    }
    assert s[|word|] == ' ';
    assert Span(s, "\" ", false, 0) == |word|;
    assert s[..|word|] == word;
    assert s[|word| + 1..] == rest;
  }

  /** `parseCommandLine`'s first loop: call `nextParam` until it returns NULL.
      (`strtrim`, applied to each token, is not part of this model.) Every
      collected token is non-empty; the first is what `nextParam` returns
      for the whole line, and there is one exactly when it returns a token. */
  function CollectParams(source: Option<string>, seps: string): (argv: seq<string>)
    ensures AllNonEmpty(argv)
    ensures |argv| > 0 <==> NextParam(source, None, seps).token.Some?
    ensures |argv| > 0 ==> argv[0] == NextParam(source, None, seps).token.value
    decreases if source.Some? then |source.value| + 1 else 0
  {
    var r := NextParam(source, None, seps);
    if r.token.None? then []
    else
      var rest := CollectParams(r.next, seps);
      ConsNonEmpty(r.token.value, rest);
      [r.token.value] + rest
  }

  /** A non-empty token in front of non-empty tokens. */
  lemma ConsNonEmpty(t: string, rest: seq<string>)
    requires |t| > 0 && AllNonEmpty(rest)
    ensures AllNonEmpty([t] + rest)
  {
    assert forall k :: 1 <= k < |[t] + rest| ==> ([t] + rest)[k] == rest[k - 1];
  }

  predicate AllNonEmpty(argv: seq<string>) {
    forall k :: 0 <= k < |argv| ==> |argv[k]| > 0
  }

  // ---------------------------------------------------------------------------
  // Table dispatch

  /** A table entry matches an argument only with equal length and equality up
      to case (`strlen` test, then `strnicmp`). */
  predicate Matches(arg: string, name: string) {
    |arg| == |name| && EqualsNoCase(arg, name)
  }

  /** Index of the first matching table entry, or the table size. */
  function FirstMatch(arg: string, names: seq<string>): (k: nat)
    ensures k <= |names|
    ensures forall j :: 0 <= j < k ==> !Matches(arg, names[j])
    ensures k < |names| ==> Matches(arg, names[k])
  {
    if |names| == 0 then 0
    else if Matches(arg, names[0]) then 0
    else 1 + FirstMatch(arg, names[1..])
  }

  /** One handler invocation: argument index and table index. */
  datatype Call = Call(arg: nat, param: nat)

  /** A handler's return value: how many arguments it consumed, given the table
      index and the arguments from the matched one on. All handlers of the game
      return 1, 2 or 3. */
  type Handler = (nat, seq<string>) -> int

  /** The `while (arg < argc)` loop from index `arg`. */
  function Dispatch(argv: seq<string>, names: seq<string>, consume: Handler, arg: nat): (calls: seq<Call>)
    requires forall k, args :: consume(k, args) >= 1
    ensures forall c :: 0 <= c < |calls| ==>
              arg <= calls[c].arg < |argv| && calls[c].param < |names| &&
              calls[c].param == FirstMatch(argv[calls[c].arg], names)
    ensures forall c, d :: 0 <= c < d < |calls| ==> calls[c].arg < calls[d].arg
    decreases |argv| - arg
  {
    if arg >= |argv| then []
    else
      var k := FirstMatch(argv[arg], names);
      if k == |names| then Dispatch(argv, names, consume, arg + 1)
      else [Call(arg, k)] + Dispatch(argv, names, consume, arg + consume(k, argv[arg..]))
  }

  /** `parseCommandLine`: matching starts at index 1, so `argv[0]` (the program)
      is never dispatched. */
  function ParseCommandLine(argv: seq<string>, names: seq<string>, consume: Handler): (calls: seq<Call>)
    requires forall k, args :: consume(k, args) >= 1
    ensures forall c :: 0 <= c < |calls| ==> 1 <= calls[c].arg < |argv| && calls[c].param < |names|
  {
    Dispatch(argv, names, consume, 1)
  }

  /** An argument that matches no entry only advances the loop by one. */
  lemma UnmatchedArgumentSkipped(argv: seq<string>, names: seq<string>, consume: Handler, arg: nat)
    requires forall k, args :: consume(k, args) >= 1
    requires arg < |argv| && FirstMatch(argv[arg], names) == |names|
    ensures Dispatch(argv, names, consume, arg) == Dispatch(argv, names, consume, arg + 1)
  {
  }

  /** The first argument from `arg` that matches is dispatched first. */
  lemma {:induction false} FirstMatchingArgumentDispatched(argv: seq<string>, names: seq<string>, consume: Handler, arg: nat, j: nat)
    requires forall k, args :: consume(k, args) >= 1
    requires arg <= j < |argv| && FirstMatch(argv[j], names) < |names|
    requires forall m :: arg <= m < j ==> FirstMatch(argv[m], names) == |names|
    ensures var calls := Dispatch(argv, names, consume, arg);
            |calls| > 0 && calls[0] == Call(j, FirstMatch(argv[j], names))
    decreases j - arg
  {
    if arg < j {
      FirstMatchingArgumentDispatched(argv, names, consume, arg + 1, j);
    }
  }

  // ---------------------------------------------------------------------------
  // ConvertShortMapPathToLongMapPath

  const MapSeps: string := "\\/"

  predicate HasMapSuffix(t: string) {
    AsciiStrings.EndsWithNoCase(t, ".map")
  }

  /** The components of a path, as repeated `nextToken` calls split it. */
  function PathTokens(s: string): (ts: seq<string>)
    ensures forall k :: 0 <= k < |ts| ==> |ts[k]| > 0
    decreases |s|
  {
    var r := SplitToken(s, MapSeps);
    if !r.found then [] else [r.tok] + PathTokens(r.rest)
  }

  /** Each component followed by a backslash. */
  function JoinDirs(ts: seq<string>): string {
    if ts == [] then [] else ts[0] + "\\" + JoinDirs(ts[1..])
  }

  lemma JoinDirsAppend(a: seq<string>, t: string)
    ensures JoinDirs(a + [t]) == JoinDirs(a) + t + "\\"
  {
    if a != [] {
      assert (a + [t])[1..] == a[1..] + [t];
    }
  }

  /** Index of the first component satisfying `isMap`, or the count. */
  function FirstMapToken(ts: seq<string>, isMap: string -> bool): (k: nat)
    ensures k <= |ts|
    ensures forall j :: 0 <= j < k ==> !isMap(ts[j])
    ensures k < |ts| ==> isMap(ts[k])
  {
    if ts == [] then 0 else if isMap(ts[0]) then 0 else 1 + FirstMapToken(ts[1..], isMap)
  }

  predicate HasPathSep(s: string) {
    exists k :: 0 <= k < |s| && s[k] in MapSeps
  }

  /** The loop state: the remaining path, the current token, the path built. */
  datatype MapLoop = MapLoop(path: string, token: string, actual: string)

  predicate LoopDone(st: MapLoop) {
    HasMapSuffix(st.token) || |st.token| == 0
  }

  /** One pass of the loop body AS WRITTEN: append the token and a backslash,
      then call `nextToken` -- which, on an empty remaining path, returns at
      once and leaves the token as it was. */
  function LoopBodyAsWritten(st: MapLoop): (next: MapLoop)
    ensures |st.path| == 0 ==> next == MapLoop(st.path, st.token, st.actual + st.token + "\\")
  {
    var r := AsciiStrings.NextToken(st.path, st.token, Some(MapSeps), false);
    MapLoop(r.rest, r.tok, st.actual + st.token + "\\")
  }

  /** The loop as written, run for at most `fuel` passes; `None` when it has not
      stopped by then. When it stops, the current token is a map name or
      empty, and the path built so far has only grown. */
  function RunAsWritten(st: MapLoop, fuel: nat): (r: Option<MapLoop>)
    ensures r.Some? ==> LoopDone(r.value) && st.actual <= r.value.actual
    decreases fuel
  {
    if LoopDone(st) then Some(st)
    else if fuel == 0 then None
    else RunAsWritten(LoopBodyAsWritten(st), fuel - 1)
  }

  /** Once the path is used up while the current component lacks `.map`, the
      loop as written repeats forever: every bound on the passes runs out. */
  lemma {:induction false} AsWrittenNeverStops(token: string, actual: string, fuel: nat)
    requires |token| > 0 && !HasMapSuffix(token)
    ensures RunAsWritten(MapLoop([], token, actual), fuel) == None
    decreases fuel
  {
    if fuel > 0 {
      AsWrittenNeverStops(token, actual + token + "\\", fuel - 1);
    }
  }

  /** `Maps` and `Foo` are not map file names. */
  lemma NeitherIsMapFile()
    ensures !HasMapSuffix("Maps") && !HasMapSuffix("Foo")
  {
    assert LowerString("Maps")[0] == ToLower('M') == 'm';
    assert LowerString(".map")[0] == '.';
  }

  lemma FirstTokenMaps()
    ensures AsciiStrings.NextToken("Maps/Foo", [], Some(MapSeps), false) == TokenResult(true, "Maps", "/Foo")
  {
    var s := "Maps/Foo";
    assert s == s[..0] + "Maps" + "/Foo";
    SplitTokenUnique(s, MapSeps, "Maps", "/Foo");
  }

  lemma SecondTokenFoo()
    ensures LoopBodyAsWritten(MapLoop("/Foo", "Maps", [])) == MapLoop([], "Foo", "Maps\\")
  {
    var t := "/Foo";
    assert t == t[..1] + "Foo" + [];
    SplitTokenUnique(t, MapSeps, "Foo", []);
    assert AsciiStrings.NextToken(t, "Maps", Some(MapSeps), false) == TokenResult(true, "Foo", []);
    assert [] + "Maps" + "\\" == "Maps\\";
  }

  /** Concretely: for `-file Maps/Foo` the first `nextToken` yields `Maps`, the
      loop's call yields `Foo` and uses up the path, and from there the loop
      never stops. */
  lemma MapPathWithoutExtensionHangs(fuel: nat)
    ensures AsciiStrings.NextToken("Maps/Foo", [], Some(MapSeps), false) == TokenResult(true, "Maps", "/Foo")
    ensures RunAsWritten(MapLoop("/Foo", "Maps", []), fuel + 1) == None
  {
    FirstTokenMaps();
    SecondTokenFoo();
    NeitherIsMapFile();
    AsWrittenNeverStops("Foo", "Maps\\", fuel);
  }

  /** The loop as evidently intended: a failed `nextToken` ends the loop with an
      empty token (as it does when only separators are left). The test for the
      `.map` suffix is the parameter `isMap`. It ends on a map name or an
      empty token, with the path built so far only grown. */
  function RunLoop(path: string, token: string, actual: string, isMap: string -> bool): (r: (string, string))
    ensures isMap(r.0) || |r.0| == 0
    ensures actual <= r.1
    decreases |path| + (if |token| > 0 then 1 else 0)
  {
    if isMap(token) || |token| == 0 then (token, actual)
    else
      var t := SplitToken(path, MapSeps);
      RunLoop(t.rest, t.tok, actual + token + "\\", isMap)
  }

  /** The components the loop visits: the current token, then the rest of the
      path's components (none when the token is empty). */
  function LoopTokens(path: string, token: string): seq<string> {
    if |token| > 0 then [token] + PathTokens(path) else []
  }

  /** A reference definition of the corrected loop over its list of components:
      walk them, appending each non-map one and a backslash, and stop at the
      first map one. */
  function Collect(all: seq<string>, actual: string, isMap: string -> bool): (string, string) {
    if all == [] then ([], actual)
    else if isMap(all[0]) then (all[0], actual)
    else Collect(all[1..], actual + all[0] + "\\", isMap)
  }

  /** The corrected loop computes `Collect` over the components it visits. */
  lemma {:induction false} RunLoopCollects(path: string, token: string, actual: string, isMap: string -> bool)
    ensures RunLoop(path, token, actual, isMap) == Collect(LoopTokens(path, token), actual, isMap)
    decreases |path| + (if |token| > 0 then 1 else 0)
  {
    if |token| > 0 && !isMap(token) {
      var t := SplitToken(path, MapSeps);
      RunLoopCollects(t.rest, t.tok, actual + token + "\\", isMap);
      assert PathTokens(path) == LoopTokens(t.rest, t.tok);
      var all := LoopTokens(path, token);
      assert all[0] == token && all[1..] == PathTokens(path);
    }
  }

  /** `Collect` stops on the first map component with the earlier ones joined,
      or on none after all of them. */
  lemma {:induction false} CollectClosedForm(all: seq<string>, actual: string, isMap: string -> bool)
    ensures var k := FirstMapToken(all, isMap);
            Collect(all, actual, isMap) == (if k < |all| then all[k] else [], actual + JoinDirs(all[..k]))
  {
    if all == [] || isMap(all[0]) {
      assert all[..0] == [] && JoinDirs([]) == [];
      assert actual + [] == actual;
    } else {
      var rest := all[1..];
      CollectClosedForm(rest, actual + all[0] + "\\", isMap);
      var k' := FirstMapToken(rest, isMap);
      assert FirstMapToken(all, isMap) == 1 + k';
      var pre := all[..1 + k'];
      assert pre[0] == all[0] && pre[1..] == rest[..k'];
      assert JoinDirs(pre) == all[0] + "\\" + JoinDirs(rest[..k']);
      assert actual + all[0] + "\\" + JoinDirs(rest[..k']) == actual + JoinDirs(pre);
      assert 1 + k' < |all| ==> all[1 + k'] == rest[k'];
    }
  }

  /** The loop collects the components before the first `.map` one and stops on
      that one, or on none after the last component. */
  lemma RunLoopClosedForm(path: string, token: string, actual: string, isMap: string -> bool)
    ensures var all := LoopTokens(path, token);
            var k := FirstMapToken(all, isMap);
            RunLoop(path, token, actual, isMap) == (if k < |all| then all[k] else [], actual + JoinDirs(all[..k]))
  {
    RunLoopCollects(path, token, actual, isMap);
    CollectClosedForm(LoopTokens(path, token), actual, isMap);
  }

  /** `ConvertShortMapPathToLongMapPath` with the loop corrected: a name with no
      separator is kept; otherwise the `.map` component `name.map` becomes
      `name\name.map` under the preceding components joined by backslashes. */
  function ConvertMapPath(mapName: string): (r: string)
    ensures !HasPathSep(mapName) ==> r == mapName
  {
    if !HasPathSep(mapName) then mapName
    else
      var first := SplitToken(mapName, MapSeps);
      var (token, actual) := RunLoop(first.rest, first.tok, [], HasMapSuffix);
      var base := TruncateBy(token, 4);
      actual + base + "\\" + base + ".map"
  }

  /** The corrected conversion in terms of the path's components. */
  lemma ConvertMapPathClosedForm(mapName: string)
    requires HasPathSep(mapName)
    ensures var ts := PathTokens(mapName);
            var k := FirstMapToken(ts, HasMapSuffix);
            var base := if k < |ts| then ts[k][..|ts[k]| - 4] else [];
            ConvertMapPath(mapName) == JoinDirs(ts[..k]) + base + "\\" + base + ".map"
  {
    var first := SplitToken(mapName, MapSeps);
    RunLoopClosedForm(first.rest, first.tok, [], HasMapSuffix);
    var ts := PathTokens(mapName);
    assert ts == LoopTokens(first.rest, first.tok);
    var k := FirstMapToken(ts, HasMapSuffix);
    var (token, actual) := RunLoop(first.rest, first.tok, [], HasMapSuffix);
    assert actual == JoinDirs(ts[..k]);
    assert token == if k < |ts| then ts[k] else [];
    if k < |ts| {
      MapSuffixLength(ts[k]);
    }
    assert ConvertMapPath(mapName) == actual + TruncateBy(token, 4) + "\\" + TruncateBy(token, 4) + ".map";
  }

  lemma MapSuffixLength(t: string)
    requires HasMapSuffix(t)
    ensures |t| >= 4 && TruncateBy(t, 4) == t[..|t| - 4]
  {
  }

  // ---------------------------------------------------------------------------
  // parseMod

  /** What one `-mod` sets: nothing, the mod directory or the mod archive
      file. The global data keeps the two as separate fields, so a later
      `-mod` of the other kind leaves the earlier one in place. */
  datatype ModSetting = ModUnset | ModDir(dir: string) | ModBig(file: string)

  /** A path is taken as given when it contains a drive colon or starts with a
      slash or a backslash; any other path is relative to the user data folder. */
  predicate IsAbsoluteModPath(p: string) {
    ':' in p || StartsWith(p, "/") || StartsWith(p, "\\")
  }

  /** The path `-mod` looks at. */
  function ModPath(arg: string, userData: string): (r: string)
    ensures IsAbsoluteModPath(arg) ==> r == arg
    ensures !IsAbsoluteModPath(arg) ==> r == userData + arg
  {
    if IsAbsoluteModPath(arg) then arg else userData + arg
  }

  /** A directory path with a backslash added unless it already ends in a
      separator. */
  function WithDirSep(p: string): (r: string)
    ensures EndsWith(p, "\\") || EndsWith(p, "/") ==> r == p
    ensures !(EndsWith(p, "\\") || EndsWith(p, "/")) ==> r == p + "\\"
  {
    if EndsWith(p, "\\") || EndsWith(p, "/") then p else p + "\\"
  }

  /** `parseMod(args, num)`: `fileExists` is the local file system's
      `doesFileExist` and `stat` the C library's `_stat`, giving `None` on
      failure and otherwise whether the path is a directory. The result is the
      number of arguments consumed and the new setting. */
  function ParseMod(args: seq<string>, num: int, userData: string,
                    fileExists: string -> bool, stat: string -> Option<bool>): (r: (int, ModSetting))
    requires num <= |args|
    ensures num <= 1 ==> r == (1, ModUnset)
    ensures num > 1 ==> r.0 == 2
    ensures num > 1 ==>
              var p := ModPath(args[1], userData);
              (r.1 == ModUnset <==> !fileExists(p) || stat(p).None?) &&
              (r.1.ModBig? <==> fileExists(p) && stat(p) == Some(false)) &&
              (r.1.ModBig? ==> r.1.file == p) &&
              (r.1.ModDir? ==> r.1.dir == WithDirSep(p))
  {
    if num <= 1 then (1, ModUnset)
    else
      var p := ModPath(args[1], userData);
      if !fileExists(p) then (2, ModUnset)
      else match stat(p)
        case None => (2, ModUnset)
        case Some(isDir) =>
          if isDir then
            (2, ModDir(WithDirSep(p)))
          else (2, ModBig(p))
  }

  /** A directory setting already ends in a separator, so adding the separator
      again changes nothing. */
  lemma WithDirSepIdempotent(p: string)
    ensures WithDirSep(WithDirSep(p)) == WithDirSep(p)
  {
    if !(EndsWith(p, "\\") || EndsWith(p, "/")) {
      var q := p + "\\";
      assert q[|q| - 1..] == "\\";
    }
  }

  /** A relative mod name is looked up under the user data folder and keeps its
      name at the end. */
  lemma RelativeModUnderUserData(arg: string, userData: string)
    requires |arg| > 0 && ':' !in arg && arg[0] != '/' && arg[0] != '\\'
    ensures ModPath(arg, userData) == userData + arg
  {
    assert !StartsWith(arg, "/") && !StartsWith(arg, "\\") by {
      assert arg[..1][0] == arg[0];
    }
  }
}
