/** Replay simulation from the command line (`ReplaySimulation`): expanding
    wildcard file names, and checking the replays either one after another in
    this process or in a pool of worker processes whose results are reported
    in the order the replays were given. Playback itself, the file listing
    and the worker processes are inputs: their outcomes are parameters. */
module ReplaySimulation {
  import opened Common
  import opened Strings

  /** `find('*') || find('?')`. */
  predicate HasWildcard(name: string) {
    '*' in name || '?' in name
  }

  /** The loop of `resolveFilenameWildcards` that strips characters off the
      end of a copy of the name until it ends in a separator; the pattern is
      what it stripped. */
  method SplitWildcard(name: string) returns (dir: string, pattern: string)
    ensures dir + pattern == name
    ensures dir == [] || IsPathSep(dir[|dir| - 1])
    ensures forall i :: 0 <= i < |pattern| ==> !IsPathSep(pattern[i])
    ensures dir == name[..DirEnd(name)]
  {
    dir := name;
    pattern := name;
    var len := |dir|;
    while len > 0
      invariant 0 <= len == |dir| <= |name| && dir == name[..len]
      invariant forall i :: len <= i < |name| ==> !IsPathSep(name[i])
      invariant pattern == name
      decreases len
    {
      var c := dir[len - 1];
      if c == '/' || c == '\\' {
        pattern := pattern[len..];
        DirEndIsLastSep(name, len);
        return;
      }
      dir := dir[..len - 1];
      len := len - 1;
    }
    DirEndIsLastSep(name, 0);
  }

  /** A name of the listing with the replay directory's length cut off the
      front (the listing names start with that directory): putting the
      directory back in front gives the listed name. */
  function StripDir(file: string, replayDir: string): (r: string)
    ensures |r| <= |file|
    ensures replayDir <= file ==> replayDir + r == file
  {
    file[Min(|replayDir|, |file|)..]
  }

  /** `resolveFilenameWildcards`: each name without wildcards as it is, each
      one with wildcards replaced by the matching files, in the listing's
      order. `list(dir, pattern)` is the local file system's listing of the
      files under the replay directory and `dir` that match `pattern`. */
  function Resolve(names: seq<string>, replayDir: string, list: (string, string) -> seq<string>): (r: seq<string>)
    ensures (forall i :: 0 <= i < |names| ==> !HasWildcard(names[i])) ==> r == names
  {
    if names == [] then []
    else ResolveOne(names[0], replayDir, list) + Resolve(names[1..], replayDir, list)
  }

  /** What one argument contributes: the matching files, each stripped of the
      replay directory, for a wildcard; the name itself otherwise. */
  function ResolveOne(name: string, replayDir: string, list: (string, string) -> seq<string>): (r: seq<string>)
    ensures !HasWildcard(name) ==> r == [name]
  {
    if HasWildcard(name) then
      var k := DirEnd(name);
      var files := list(name[..k], name[k..]);
      seq(|files|, i requires 0 <= i < |files| => StripDir(files[i], replayDir))
    else [name]
  }

  /** The listed files come back without the replay directory in front. */
  lemma ResolvedLoseReplayDir(name: string, replayDir: string, list: (string, string) -> seq<string>, rests: seq<string>)
    requires HasWildcard(name)
    requires list(name[..DirEnd(name)], name[DirEnd(name)..]) == seq(|rests|, i requires 0 <= i < |rests| => replayDir + rests[i])
    ensures Resolve([name], replayDir, list) == rests
  {
    assert Resolve([name][1..], replayDir, list) == [];
  }

  /** A list resolves piece by piece. */
  lemma {:induction false} ResolveAppend(a: seq<string>, b: seq<string>, replayDir: string, list: (string, string) -> seq<string>)
    ensures Resolve(a + b, replayDir, list) == Resolve(a, replayDir, list) + Resolve(b, replayDir, list)
    decreases |a|
  {
    if a != [] {
      AppendTail(a, b);
      ResolveAppend(a[1..], b, replayDir, list);
      ResolveStep(a + b, replayDir, list);
      ResolveStep(a, replayDir, list);
    } else {
      assert a + b == b;
    }
  }

  /** One step of the expansion loop. */
  lemma ResolveStep(names: seq<string>, replayDir: string, list: (string, string) -> seq<string>)
    requires |names| > 0
    ensures Resolve(names, replayDir, list) == ResolveOne(names[0], replayDir, list) + Resolve(names[1..], replayDir, list)
  {
  }

  // ---------------------------------------------------------------------
  // Running the replays

  /** `return numErrors != 0 ? 1 : 0`. */
  function ExitCode(numErrors: nat): (code: int)
    ensures code == 1 <==> numErrors > 0
    ensures code == 0 <==> numErrors == 0
  {
    if numErrors != 0 then 1 else 0
  }

  /** How one headless replay ended: it could not be opened, its CRC did not
      match, or it played through. */
  datatype Outcome = CannotOpen | Mismatch | Clean

  function CountErrors(outcomes: seq<Outcome>): (n: nat)
    ensures n <= |outcomes|
    ensures n == 0 <==> forall i :: 0 <= i < |outcomes| ==> outcomes[i] == Clean
  {
    if outcomes == [] then 0
    else (if outcomes[0] != Clean then 1 else 0) + CountErrors(outcomes[1..])
  }

  /** The headless branch of `simulateReplaysInThisProcess`: every replay is
      tried; the exit code is 1 iff any failed. */
  function SimulateHeadless(outcomes: seq<Outcome>): (code: int)
    ensures code == 1 <==> exists i :: 0 <= i < |outcomes| && outcomes[i] != Clean
    ensures code == 0 || code == 1
  {
    ExitCode(CountErrors(outcomes))
  }

  /** One replay in the windowed branch: whether its CRC mismatched and
      whether the simulation was still running after it (the user may quit). */
  datatype Played = Played(mismatch: bool, stillRunning: bool)

  /** The windowed branch: replays in order until one leaves the simulation
      stopped; the errors are the mismatches of the replays played. */
  function WindowedErrors(played: seq<Played>): (n: nat)
    ensures n <= |played|
  {
    if played == [] then 0
    else (if played[0].mismatch then 1 else 0) + (if played[0].stillRunning then WindowedErrors(played[1..]) else 0)
  }

  /** The number of replays the windowed branch plays. */
  function WindowedCount(played: seq<Played>): (n: nat)
    ensures n <= |played|
    ensures n < |played| ==> n > 0 && !played[n - 1].stillRunning
    ensures forall i :: 0 <= i < n - 1 ==> played[i].stillRunning
  {
    if played == [] then 0
    else if !played[0].stillRunning then 1
    else 1 + WindowedCount(played[1..])
  }

  /** Only the replays played count: the errors are the mismatches among
      them. */
  lemma {:induction false} WindowedErrorsArePlayed(played: seq<Played>)
    ensures WindowedErrors(played) == MismatchCount(played[..WindowedCount(played)])
  {
    if played != [] {
      WindowedErrorsArePlayed(played[1..]);
      var n := WindowedCount(played);
      if played[0].stillRunning {
        assert played[..n][1..] == played[1..][..n - 1];
      } else {
        assert played[..n] == [played[0]];
      }
    }
  }

  function MismatchCount(played: seq<Played>): nat {
    if played == [] then 0 else (if played[0].mismatch then 1 else 0) + MismatchCount(played[1..])
  }

  /** How `simulateReplays` runs the resolved files. */
  datatype Dispatch = InThisProcess | InWorkers(maxProcesses: int)

  /** In this process exactly for the sequential setting, else in workers. */
  function Dispatched(maxProcesses: int, sequential: int): (d: Dispatch)
    ensures d == InThisProcess <==> maxProcesses == sequential
    ensures d.InWorkers? ==> d.maxProcesses == maxProcesses
  {
    if maxProcesses == sequential then InThisProcess else InWorkers(maxProcesses)
  }

  // ---------------------------------------------------------------------
  // The worker pool

  /** A worker as `update()` last saw it: still running, done with an exit
      code, or `Failed`: `startProcess` could not create the pipe or the
      process, so the worker has no process handle. `update()` then does
      nothing, so a failed worker is never done and never running again. */
  datatype Worker = Running | Done(exitCode: int) | Failed

  /** `countProcessesRunning`. */
  function CountRunning(ps: seq<Worker>): (n: nat)
    ensures n <= |ps|
    ensures n == |ps| <==> forall i :: 0 <= i < |ps| ==> ps[i].Running?
  {
    if ps == [] then 0 else (if ps[0].Running? then 1 else 0) + CountRunning(ps[1..])
  }

  lemma {:induction false} CountRunningAppend(a: seq<Worker>, b: seq<Worker>)
    ensures CountRunning(a + b) == CountRunning(a) + CountRunning(b)
    decreases |a|
  {
    if a != [] {
      assert (a + b)[0] == a[0] && (a + b)[1..] == a[1..] + b;
      CountRunningAppend(a[1..], b);
    } else {
      assert a + b == b;
    }
  }

  /** The counting loop of `countProcessesRunning`. */
  method CountProcessesRunning(ps: seq<Worker>) returns (n: nat)
    ensures n == CountRunning(ps)
  {
    n := 0;
    var i := 0;
    while i < |ps|
      invariant 0 <= i <= |ps|
      invariant n == CountRunning(ps[..i])
    {
      CountRunningAppend(ps[..i], [ps[i]]);
      assert ps[..i + 1] == ps[..i] + [ps[i]];
      if ps[i].Running? {
        n := n + 1;
      }
      i := i + 1;
    }
    assert ps[..i] == ps;
  }

  /** The state of `simulateReplaysInWorkerProcesses` between iterations:
      the workers in start order, the two file positions, the error count and
      the reports printed so far (file position and exit code). */
  datatype Pool = Pool(workers: seq<Worker>, started: nat, done: nat, errors: nat, reports: seq<(nat, int)>)

  function NonZero(reports: seq<(nat, int)>): nat {
    if reports == [] then 0 else (if reports[0].1 != 0 then 1 else 0) + NonZero(reports[1..])
  }

  /** What holds between iterations: the workers are those of the files
      started and not yet reported; the reports are for files 0, 1, ... in
      order; the errors are the reports with a non-zero exit code. */
  predicate PoolInvariant(p: Pool, files: nat) {
    p.started == p.done + |p.workers| && p.started <= files &&
    |p.reports| == p.done && (forall k :: 0 <= k < |p.reports| ==> p.reports[k].0 == k) &&
    p.errors == NonZero(p.reports)
  }

  /** Report and drop the finished workers at the front, stopping at the
      first one not done: still running, or failed to start. */
  function ReportDone(p: Pool): (r: Pool)
    ensures |r.workers| <= |p.workers| && r.workers == p.workers[|p.workers| - |r.workers|..]
    ensures r.workers == [] || !r.workers[0].Done?
    ensures r.started == p.started && r.done == p.done + (|p.workers| - |r.workers|)
    decreases |p.workers|
  {
    if p.workers == [] || !p.workers[0].Done? then p
    else
      var code := p.workers[0].exitCode;
      ReportDone(Pool(p.workers[1..], p.started, p.done + 1,
                      p.errors + (if code != 0 then 1 else 0), p.reports + [(p.done, code)]))
  }

  lemma {:induction false} NonZeroAppend(a: seq<(nat, int)>, x: (nat, int))
    ensures NonZero(a + [x]) == NonZero(a) + (if x.1 != 0 then 1 else 0)
    decreases |a|
  {
    if a != [] {
      assert (a + [x])[1..] == a[1..] + [x];
      NonZeroAppend(a[1..], x);
    }
  }

  lemma {:induction false} ReportDoneKeeps(p: Pool, files: nat)
    requires PoolInvariant(p, files)
    ensures PoolInvariant(ReportDone(p), files)
    decreases |p.workers|
  {
    if p.workers != [] && p.workers[0].Done? {
      var code := p.workers[0].exitCode;
      NonZeroAppend(p.reports, (p.done, code));
      ReportDoneKeeps(Pool(p.workers[1..], p.started, p.done + 1,
                           p.errors + (if code != 0 then 1 else 0), p.reports + [(p.done, code)]), files);
    }
  }

  /** Start workers for the next files while fewer than `maxProcesses` run. */
  function StartWorkers(p: Pool, running: nat, files: nat, maxProcesses: int): (r: Pool)
    ensures r.done == p.done && r.errors == p.errors && r.reports == p.reports
    ensures r.started >= p.started && r.workers == p.workers + seq(r.started - p.started, _ => Running)
    ensures r.started - p.started == Max(0, Min(maxProcesses - running, files - p.started))
    decreases files - p.started
  {
    if running < maxProcesses && p.started < files then
      StartWorkers(p.(workers := p.workers + [Running], started := p.started + 1), running + 1, files, maxProcesses)
    else p
  }

  /** One iteration of the loop: `update()` reports `seen` for the current
      workers; the finished ones at the front are reported, new ones are
      started, and the loop ends when no worker is left. */
  function Iterate(p: Pool, seen: seq<Worker>, files: nat, maxProcesses: int): (r: (Pool, bool))
    requires |seen| == |p.workers|
    ensures r.0.started >= p.started && r.0.done >= p.done
    ensures r.1 && maxProcesses >= 1 ==> r.0.started >= files
  {
    var reported := ReportDone(p.(workers := seen));
    var started := StartWorkers(reported, CountRunning(reported.workers), files, maxProcesses);
    (started, started.workers == [])
  }

  /** Each iteration keeps the invariant, starts workers only while fewer
      than `maxProcesses` are running, and ends the loop only when every
      file has been started and reported. `maxProcesses` is at least 1 on
      this path, as the command-line parser rejects 0 and the values below
      the sequential setting. */
  lemma IterateKeeps(p: Pool, seen: seq<Worker>, files: nat, maxProcesses: int)
    requires PoolInvariant(p, files) && |seen| == |p.workers| && maxProcesses >= 1
    ensures var (r, stop) := Iterate(p, seen, files, maxProcesses);
            PoolInvariant(r, files) &&
            CountRunning(r.workers) <= Max(CountRunning(ReportDone(p.(workers := seen)).workers), maxProcesses) &&
            (stop ==> r.started == files && r.done == files && |r.reports| == files)
  {
    var reported := ReportDone(p.(workers := seen));
    ReportDoneKeeps(p.(workers := seen), files);
    var running := CountRunning(reported.workers);
    var r := StartWorkers(reported, running, files, maxProcesses);
    var added := seq(r.started - reported.started, _ => Running);
    CountRunningAppend(reported.workers, added);
    assert CountRunning(added) == |added|;
  }

  /** A worker that failed to start blocks the loop: while `update()` sees
      it at the front, no later file is reported and the loop goes on, so
      the source never leaves it. */
  lemma FailedFrontBlocks(p: Pool, seen: seq<Worker>, files: nat, maxProcesses: int)
    requires |seen| == |p.workers| && seen != [] && seen[0].Failed?
    ensures var (r, stop) := Iterate(p, seen, files, maxProcesses);
            !stop && r.done == p.done && r.reports == p.reports && r.workers[0].Failed?
  {
  }

  /** The pool's exit code is 1 iff some worker exited with an error. */
  lemma PoolExitCode(p: Pool, files: nat)
    requires PoolInvariant(p, files)
    ensures ExitCode(p.errors) == 1 <==> exists k :: 0 <= k < |p.reports| && p.reports[k].1 != 0
  {
    NonZeroPositive(p.reports);
  }

  lemma {:induction false} NonZeroPositive(reports: seq<(nat, int)>)
    ensures NonZero(reports) > 0 <==> exists k :: 0 <= k < |reports| && reports[k].1 != 0
    decreases |reports|
  {
    if reports != [] {
      NonZeroPositive(reports[1..]);
      if NonZero(reports[1..]) > 0 {
        var k :| 0 <= k < |reports[1..]| && reports[1..][k].1 != 0;
        assert reports[k + 1].1 != 0;
      }
      if exists k :: 0 <= k < |reports| && reports[k].1 != 0 {
        var k :| 0 <= k < |reports| && reports[k].1 != 0;
        if k > 0 {
          assert reports[1..][k - 1].1 != 0;
        }
      }
    }
  }
}
