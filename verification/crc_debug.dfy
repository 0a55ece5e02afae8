/** The CRC debug log (`CRCDebug.cpp`): a ring buffer of the last 64000
    formatted lines, dumped oldest first, optionally flushed to a file of its
    own each time the logic frame changes. */
module CrcDebug {
  import opened Common
  import opened Decimal
  import Bytes

  const MaxStrings := 64000
  const MaxStringLen := 1024

  /** The buffer (`DebugStrings`), the write slot and the line count since
      the last reset, and the per-frame numbering state. */
  datatype CrcLog = CrcLog(slots: seq<string>, next: int, num: int, lastFrame: int, lastIndex: nat)

  /** The buffer always has its 64000 slots, the write slot is the line
      count modulo their number, and the count never goes negative. */
  predicate Valid(log: CrcLog) {
    |log.slots| == MaxStrings && log.num >= 0 && log.next == log.num % MaxStrings
  }

  /** The state at program start. */
  function Initial(): (log: CrcLog)
    ensures Valid(log) && log.num == 0
  {
    CrcLog(seq(MaxStrings, _ => ""), 0, 0, 0, 0)
  }

  /** `CRCDebugStartNewGame`: both counters and the frame numbering start
      over; the old text stays in the slots but is no longer dumped. */
  function StartNewGame(log: CrcLog): (r: CrcLog)
    requires Valid(log)
    ensures Valid(r) && r.num == 0 && r.next == 0 && r.lastFrame == 0 && r.lastIndex == 0
    ensures r.slots == log.slots
  {
    log.(next := 0, num := 0, lastFrame := 0, lastIndex := 0)
  }

  /** While fewer lines than slots were written, the write slot is the count. */
  lemma NextIsCountUntilFull(log: CrcLog)
    requires Valid(log) && log.num < MaxStrings
    ensures log.next == log.num && 0 <= log.next < MaxStrings
  {
  }

  /** The indices `outputCRCDebugLines` walks: from `next - MaxStrings` once
      the buffer has wrapped, else from 0, up to `next`. */
  function DumpStart(log: CrcLog): int {
    if log.num >= MaxStrings then log.next - MaxStrings else 0
  }

  /** `outputCRCDebugLines`: the slots `(i + MaxStrings) % MaxStrings` for the
      indices above. */
  function Dump(log: CrcLog): (r: seq<string>)
    requires Valid(log)
    ensures |r| == Min(log.num, MaxStrings)
  {
    var start := DumpStart(log);
    seq(log.next - start, j => log.slots[(start + j + MaxStrings) % MaxStrings])
  }

  /** Writing one line into the ring: slot `next`, then both counters step
      and `next` wraps at the end of the buffer. */
  function Store(log: CrcLog, line: string): (r: CrcLog)
    requires Valid(log)
    ensures Valid(r) && r.num == log.num + 1
    ensures r.lastFrame == log.lastFrame && r.lastIndex == log.lastIndex
    ensures r.slots[log.next] == line
    ensures forall i :: 0 <= i < MaxStrings && i != log.next ==> r.slots[i] == log.slots[i]
  {
    var next := if log.next + 1 == MaxStrings then 0 else log.next + 1;
    log.(slots := log.slots[log.next := line], next := next, num := log.num + 1)
  }

  /** The log holds `hs`, the lines written since the last reset: the count
      is their number and each of the last 64000 sits in the slot its
      position names modulo the buffer size. */
  predicate Holds(log: CrcLog, hs: seq<string>) {
    Valid(log) && log.num == |hs| &&
    forall k :: 0 <= k < |hs| && |hs| - MaxStrings <= k ==> log.slots[k % MaxStrings] == hs[k]
  }

  lemma ResetHoldsNothing(log: CrcLog)
    requires Valid(log)
    ensures Holds(StartNewGame(log), [])
  {
  }

  lemma {:induction false} StoreExtends(log: CrcLog, hs: seq<string>, line: string)
    requires Holds(log, hs)
    ensures Holds(Store(log, line), hs + [line])
  {
    var r := Store(log, line);
    var hs' := hs + [line];
    forall k | 0 <= k < |hs'| && |hs'| - MaxStrings <= k
      ensures r.slots[k % MaxStrings] == hs'[k]
    {
      if k < |hs| {
        SlotsDiffer(k, |hs|);
        assert r.slots[k % MaxStrings] == log.slots[k % MaxStrings];
      }
    }
  }

  /** Two positions less than a buffer apart use different slots. */
  lemma SlotsDiffer(k: nat, n: nat)
    requires k < n < k + MaxStrings
    ensures k % MaxStrings != n % MaxStrings
  {
  }

  /** The dump gives the last `min(num, 64000)` lines written, oldest first. */
  lemma {:induction false} DumpIsRecent(log: CrcLog, hs: seq<string>)
    requires Holds(log, hs)
    ensures Dump(log) == hs[|hs| - Min(|hs|, MaxStrings)..]
  {
    var d := Dump(log);
    var tail := hs[|hs| - Min(|hs|, MaxStrings)..];
    forall j | 0 <= j < |d| ensures d[j] == tail[j] {
      var k := |hs| - Min(|hs|, MaxStrings) + j;
      SameSlot(log.num, log.next, j);
      assert tail[j] == hs[k];
    }
  }

  /** The dump's `j`-th index lands in the slot of history position
      `num - min(num, 64000) + j`. */
  lemma SameSlot(num: nat, next: int, j: nat)
    requires next == num % MaxStrings && j < Min(num, MaxStrings)
    ensures var start := if num >= MaxStrings then next - MaxStrings else 0;
            (start + j + MaxStrings) % MaxStrings == (num - Min(num, MaxStrings) + j) % MaxStrings
  {
  }

  /** `IS_FRAME_OK_TO_LOG` together with the check for a game logic. The
      first frame to log is a signed `Int`, -1 when unset; the last one is an
      `UnsignedInt`, so `lastFrame` is its unsigned value. */
  datatype LogWindow = LogWindow(
    haveLogic: bool, inGame: bool, inShellGame: bool, ignoreSyncErrors: bool,
    firstFrame: int, lastFrame: nat)

  /** The last frame when no `-debugCRCUntilFrame` is given: the largest
      unsigned 32-bit value. */
  const DefaultLastFrame: nat := 0xffff_ffff

  /** `-debugCRCUntilFrame n` stores `atoi(n)`, a signed `Int`, into the
      unsigned last frame: a negative value wraps round modulo 2^32. */
  function UntilFrame(n: int): (r: nat)
    requires -0x8000_0000 <= n < 0x8000_0000
    ensures r < 0x1_0000_0000 && (r - n) % 0x1_0000_0000 == 0
  {
    Bytes.Unsigned32(n)
  }

  /** Only frames from 0 on are ever logged, and an empty window logs
      nothing. */
  predicate FrameOkToLog(w: LogWindow, frame: int)
    ensures FrameOkToLog(w, frame) ==> frame >= 0
    ensures w.lastFrame < w.firstFrame ==> !FrameOkToLog(w, frame)
  {
    w.haveLogic && w.inGame && !w.inShellGame && !w.ignoreSyncErrors &&
    w.firstFrame >= 0 && w.firstFrame <= frame && frame <= w.lastFrame
  }

  /** `-debugCRCUntilFrame -1` wraps round to the default last frame, so it
      logs every frame of the 32-bit frame counter from the first one on,
      instead of none. */
  lemma UntilMinusOneLogsAll(w: LogWindow, frame: int)
    requires w.lastFrame == UntilFrame(-1)
    requires 0 <= w.firstFrame <= frame < 0x1_0000_0000
    ensures UntilFrame(-1) == DefaultLastFrame
    ensures FrameOkToLog(w, frame) <==> w.haveLogic && w.inGame && !w.inShellGame && !w.ignoreSyncErrors
  {
  }

  /** `%05d` of a non-negative number: padded with zeros to five digits. */
  function Pad5(n: nat): (r: string)
    ensures |r| >= 5 && AllDigits(r)
    ensures |NatText(n)| >= 5 ==> r == NatText(n)
    ensures |NatText(n)| < 5 ==> r[5 - |NatText(n)|..] == NatText(n) &&
                                 forall i :: 0 <= i < 5 - |NatText(n)| ==> r[i] == '0'
  {
    var t := NatText(n);
    if |t| >= 5 then t else seq(5 - |t|, _ => '0') + t
  }

  /** The counted prefix "frame:index " of `addCRCDebugLine`. */
  function Prefix(frame: int, index: nat): string {
    IntText(frame) + ":" + Pad5(index) + " "
  }

  /** A stored line: at most `MaxStringLen - 1` characters (what
      `_vsnprintf` plus the forced terminator keep), with every CR and LF
      turned into a space. */
  function Clean(s: string): (r: string)
    ensures |r| == Min(|s|, MaxStringLen - 1)
    ensures forall i :: 0 <= i < |r| ==> r[i] != '\r' && r[i] != '\n'
    ensures forall i :: 0 <= i < |r| ==> r[i] == (if s[i] == '\r' || s[i] == '\n' then ' ' else s[i])
  {
    var t := if |s| <= MaxStringLen - 1 then s else s[..MaxStringLen - 1];
    seq(|t|, i requires 0 <= i < |t| => if t[i] == '\r' || t[i] == '\n' then ' ' else t[i])
  }

  /** What `addCRCDebugLineInternal` did: the new state and the lines the
      per-frame file received, if it was written. */
  datatype AddResult = AddResult(log: CrcLog, flushed: seq<string>)

  /** `addCRCDebugLineInternal`. `text` is the formatted message (without
      NUL characters); `count` distinguishes `addCRCDebugLine` from
      `addCRCDebugLineNoCounter`; `perFrame` is whether per-frame files are
      saved. A new frame first flushes the lines of the previous one when
      there are any, and restarts the numbering. */
  function AddLine(log: CrcLog, w: LogWindow, frame: int, perFrame: bool, count: bool, text: string): (r: AddResult)
    requires Valid(log)
    ensures Valid(r.log)
    ensures !FrameOkToLog(w, frame) ==> r == AddResult(log, [])
    ensures FrameOkToLog(w, frame) ==> r.log.lastFrame == frame
  {
    if !FrameOkToLog(w, frame) then AddResult(log, [])
    else
      var flush := log.lastFrame != frame && perFrame && log.num != 0;
      var flushed := if flush then Dump(log) else [];
      var l1 := if flush then log.(next := 0, num := 0) else log;
      var l2 := if log.lastFrame != frame then l1.(lastFrame := frame, lastIndex := 0) else l1;
      var line := Clean((if count then Prefix(frame, l2.lastIndex) else "") + text);
      var l3 := l2.(lastIndex := if count then l2.lastIndex + 1 else l2.lastIndex);
      AddResult(Store(l3, line), flushed)
  }

  /** The line `AddLine` stores for a given index. */
  function LineFor(frame: int, index: nat, count: bool, text: string): (r: string)
    ensures |r| < MaxStringLen && forall i :: 0 <= i < |r| ==> r[i] != '\r' && r[i] != '\n'
  {
    Clean((if count then Prefix(frame, index) else "") + text)
  }

  /** The numbering: a new frame starts again at 0; a counted line takes the
      current index and advances it; an uncounted line has no prefix and
      leaves the index alone. */
  lemma LineNumbering(log: CrcLog, w: LogWindow, frame: int, perFrame: bool, count: bool, text: string)
    requires Valid(log) && FrameOkToLog(w, frame)
    ensures var index := if log.lastFrame == frame then log.lastIndex else 0;
            var r := AddLine(log, w, frame, perFrame, count, text);
            r.log.lastIndex == (if count then index + 1 else index) &&
            r.log.num >= 1 && r.log.slots[(r.log.num - 1) % MaxStrings] == LineFor(frame, index, count, text)
    ensures !count ==> LineFor(frame, log.lastIndex, count, text) == Clean(text)
  {
  }

  /** Within one frame, or without per-frame files, a line extends the
      history by its formatted text. */
  lemma AddExtendsHistory(log: CrcLog, hs: seq<string>, w: LogWindow, frame: int, perFrame: bool,
                          count: bool, text: string)
    requires Holds(log, hs) && FrameOkToLog(w, frame)
    requires log.lastFrame == frame || !perFrame || log.num == 0
    ensures var index := if log.lastFrame == frame then log.lastIndex else 0;
            var r := AddLine(log, w, frame, perFrame, count, text);
            r.flushed == [] && Holds(r.log, hs + [LineFor(frame, index, count, text)])
  {
    var index := if log.lastFrame == frame then log.lastIndex else 0;
    var l2 := if log.lastFrame != frame then log.(lastFrame := frame, lastIndex := 0) else log;
    var l3 := l2.(lastIndex := if count then l2.lastIndex + 1 else l2.lastIndex);
    assert Holds(l3, hs);
    StoreExtends(l3, hs, LineFor(frame, index, count, text));
  }

  /** On a new frame with per-frame files, the previous frame's recent lines
      go to its file and the history starts over with the new line. */
  lemma AddFlushesOnNewFrame(log: CrcLog, hs: seq<string>, w: LogWindow, frame: int, count: bool, text: string)
    requires Holds(log, hs) && FrameOkToLog(w, frame)
    requires log.lastFrame != frame && |hs| > 0
    ensures var r := AddLine(log, w, frame, true, count, text);
            r.flushed == hs[|hs| - Min(|hs|, MaxStrings)..] &&
            Holds(r.log, [LineFor(frame, 0, count, text)])
  {
    DumpIsRecent(log, hs);
    var l3 := log.(next := 0, num := 0, lastFrame := frame, lastIndex := if count then 1 else 0);
    assert Holds(l3, []);
    StoreExtends(l3, [], LineFor(frame, 0, count, text));
  }
}
