/** The replay recorder shared by both games (`Generals` and `ZeroHour`, whose
    `Recorder.cpp` files agree on everything modelled here except how a
    character is read): the fixed replay-header layout and the in-place
    updates of it, the CRC queue used during playback, the strings of the
    header, the checks when a header is read back, the version match and the
    culling of network commands. File contents are byte sequences. */
module Recorder {
  import opened Common
  import opened Bytes

  /** Which game's recorder. Zero Hour reads through `File::readChar`, which
      returns a signed `char` widened to `Int`, so the byte 0xFF reads as -1,
      which is `EOF`. Generals uses `fgetc`, which keeps 0xFF apart from `EOF`. */
  datatype Variant = Generals | ZeroHour

  /** The number of player slots (`MAX_SLOTS`, defined in a header that is not
      part of this model). */
  const MaxSlots: nat := 8

  /** The first bytes of every replay file, the text `GENREP` without its NUL. */
  const Magic: seq<Byte> := [0x47, 0x45, 0x4E, 0x52, 0x45, 0x50]

  /** Field sizes: the two times are 32-bit (`replay_time_t`), the frame count
      is an `UnsignedInt`, and a `Bool` takes one byte. */
  const TimeSize: nat := 4
  const UIntSize: nat := 4
  const BoolSize: nat := 1

  /** The offsets of the header fields, each the previous one plus its size. */
  const StartTimeOffset: nat := |Magic|
  const EndTimeOffset: nat := StartTimeOffset + TimeSize
  const FrameCountOffset: nat := EndTimeOffset + TimeSize
  const DesyncOffset: nat := FrameCountOffset + UIntSize
  const QuitEarlyOffset: nat := DesyncOffset + BoolSize
  const DisconOffset: nat := QuitEarlyOffset + BoolSize
  const FixedHeaderSize: nat := DisconOffset + MaxSlots * BoolSize

  // ---------------------------------------------------------------------------
  // The fixed part of the header

  /** The statistics at the start of a replay: times, length in frames, the
      desync and quit-early flags, and one disconnect flag per slot. */
  datatype FixedHeader = FixedHeader(startTime: int, endTime: int, frameCount: nat,
                                     desync: bool, quitEarly: bool, discons: seq<bool>)

  /** Every field fits its width and there is one flag per slot. */
  predicate ValidFixedHeader(h: FixedHeader) {
    -0x8000_0000 <= h.startTime < 0x8000_0000 && -0x8000_0000 <= h.endTime < 0x8000_0000 &&
    h.frameCount < 0x1_0000_0000 && |h.discons| == MaxSlots
  }

  function BoolByte(b: bool): Byte {
    if b then 1 else 0
  }

  /** A `Bool` read back from a byte. */
  function ByteBool(b: Byte): bool {
    b != 0
  }

  function BoolBytes(bs: seq<bool>): (r: seq<Byte>)
    ensures |r| == |bs|
    ensures forall i :: 0 <= i < |bs| ==> r[i] == BoolByte(bs[i])
  {
    if bs == [] then [] else [BoolByte(bs[0])] + BoolBytes(bs[1..])
  }

  /** What `startRecording` writes before the replay name: the magic, then the
      fields in the order of the offset constants. */
  function EncodeFixedHeader(h: FixedHeader): (r: seq<Byte>)
    requires ValidFixedHeader(h)
    ensures |r| == FixedHeaderSize
    ensures r[..StartTimeOffset] == Magic
    ensures r[StartTimeOffset..EndTimeOffset] == LittleEndian(Unsigned32(h.startTime), TimeSize)
    ensures r[EndTimeOffset..FrameCountOffset] == LittleEndian(Unsigned32(h.endTime), TimeSize)
    ensures r[FrameCountOffset..DesyncOffset] == LittleEndian(h.frameCount, UIntSize)
    ensures r[DesyncOffset] == BoolByte(h.desync) && r[QuitEarlyOffset] == BoolByte(h.quitEarly)
    ensures forall i :: 0 <= i < MaxSlots ==> r[DisconOffset + i] == BoolByte(h.discons[i])
  {
    Magic + LittleEndian(Unsigned32(h.startTime), TimeSize) + LittleEndian(Unsigned32(h.endTime), TimeSize)
      + LittleEndian(h.frameCount, UIntSize) + [BoolByte(h.desync), BoolByte(h.quitEarly)] + BoolBytes(h.discons)
  }

  /** The offsets are those of the file format: 6, 10, 14, 18, 19 and 20, and
      the fixed part ends at 28. */
  lemma OffsetValues()
    ensures StartTimeOffset == 6 && EndTimeOffset == 10 && FrameCountOffset == 14
    ensures DesyncOffset == 18 && QuitEarlyOffset == 19 && DisconOffset == 20 && FixedHeaderSize == 28
  {
  }

  /** The six bytes `readReplayHeader` compares with `GENREP`: its buffer
      starts zero-filled, so a file shorter than that leaves zeros at the end. */
  function GenrepBuffer(b: seq<Byte>): (r: seq<Byte>)
    ensures |r| == |Magic|
    ensures forall i :: 0 <= i < |Magic| ==> r[i] == if i < |b| then b[i] else 0
  {
    if |b| >= |Magic| then b[..|Magic|] else b + seq(|Magic| - |b|, _ => 0)
  }

  /** A file shorter than `GENREP` never matches: no byte of `GENREP` is
      zero, so the zero fill does not. */
  lemma {:induction false} ShortFileNoGenrep(b: seq<Byte>)
    ensures |b| < |Magic| ==> GenrepBuffer(b) != Magic
  {
    if |b| < |Magic| {
      var g := GenrepBuffer(b);
      assert g[|Magic| - 1] == 0;
      assert Magic[|Magic| - 1] != 0;
    }
  }

  /** What reading the fixed part gives. `NoGenrep`: the buffer is not
      `GENREP`, and the header is refused. `Fields`: the whole fixed part was
      there. `Unread`: the file has `GENREP` but ends before the fixed part
      does; the reads are not checked, so the fields past the end keep what
      the caller's header held (the times, what was in the uninitialised
      `tmp`), which the file does not determine. */
  datatype FixedRead = NoGenrep | Unread | Fields(h: FixedHeader)

  /** What `readReplayHeader` reads of the fixed part. */
  function DecodeFixedHeader(b: seq<Byte>): (r: FixedRead)
    ensures r.NoGenrep? <==> GenrepBuffer(b) != Magic
    ensures r.Unread? <==> |Magic| <= |b| < FixedHeaderSize && b[..|Magic|] == Magic
    ensures r.Fields? ==> |b| >= FixedHeaderSize && b[..StartTimeOffset] == Magic && ValidFixedHeader(r.h)
  {
    if GenrepBuffer(b) != Magic then NoGenrep
    else if |b| < FixedHeaderSize then
      ShortFileNoGenrep(b);
      Unread
    else
      Pow256Four();
      Fields(FixedHeader(
        Signed32(ReadLittleEndian(b[StartTimeOffset..EndTimeOffset])),
        Signed32(ReadLittleEndian(b[EndTimeOffset..FrameCountOffset])),
        ReadLittleEndian(b[FrameCountOffset..DesyncOffset]),
        ByteBool(b[DesyncOffset]), ByteBool(b[QuitEarlyOffset]),
        seq(MaxSlots, i requires 0 <= i < MaxSlots => ByteBool(b[DisconOffset + i]))))
  }

  /** Reading the header back gives what was written, whatever follows it. */
  lemma FixedHeaderRoundTrip(h: FixedHeader, rest: seq<Byte>)
    requires ValidFixedHeader(h)
    ensures DecodeFixedHeader(EncodeFixedHeader(h) + rest) == Fields(h)
  {
    var e := EncodeFixedHeader(h);
    var b := e + rest;
    assert b[..StartTimeOffset] == e[..StartTimeOffset];
    Pow256Four();
    var d := DecodeFixedHeader(b).h;
    assert d.startTime == h.startTime by {
      assert b[StartTimeOffset..EndTimeOffset] == e[StartTimeOffset..EndTimeOffset];
      LittleEndianRoundTrip(Unsigned32(h.startTime), TimeSize);
      SignedUnsigned32(h.startTime);
    }
    assert d.endTime == h.endTime by {
      assert b[EndTimeOffset..FrameCountOffset] == e[EndTimeOffset..FrameCountOffset];
      LittleEndianRoundTrip(Unsigned32(h.endTime), TimeSize);
      SignedUnsigned32(h.endTime);
    }
    assert d.frameCount == h.frameCount by {
      assert b[FrameCountOffset..DesyncOffset] == e[FrameCountOffset..DesyncOffset];
      LittleEndianRoundTrip(h.frameCount, UIntSize);
    }
    assert d.discons == h.discons by {
      forall i | 0 <= i < MaxSlots ensures d.discons[i] == h.discons[i] {
        assert d.discons[i] == ByteBool(b[DisconOffset + i]);
        assert b[DisconOffset + i] == e[DisconOffset + i] == BoolByte(h.discons[i]);
      }
    }
    assert d.desync == h.desync && d.quitEarly == h.quitEarly by {
      assert b[DesyncOffset] == e[DesyncOffset] && b[QuitEarlyOffset] == e[QuitEarlyOffset];
    }
  }

  /** `logPlayerDisconnect(player, slot)`: the offset it writes TRUE at, or
      `None` when there is no file or the slot is outside `[0, MAX_SLOTS)`. */
  function DisconnectWriteOffset(hasFile: bool, slot: int): (r: Option<nat>)
    ensures r.Some? <==> hasFile && 0 <= slot < MaxSlots
    ensures r.Some? ==> r.value == DisconOffset + slot && r.value < FixedHeaderSize
  {
    if !hasFile || slot < 0 || slot >= MaxSlots then None else Some(DisconOffset + slot * BoolSize)
  }

  /** Writing TRUE there marks exactly that player as disconnected in the
      header read back; everything else in the header is unchanged. */
  lemma DisconnectMarksSlot(h: FixedHeader, rest: seq<Byte>, slot: int)
    requires ValidFixedHeader(h) && 0 <= slot < MaxSlots
    ensures var off := DisconnectWriteOffset(true, slot).value;
            DecodeFixedHeader((EncodeFixedHeader(h) + rest)[off := BoolByte(true)])
              == Fields(h.(discons := h.discons[slot := true]))
  {
    MarkedEncoding(h, slot);
    UpdateLeft(EncodeFixedHeader(h), rest, DisconOffset + slot, 1);
    FixedHeaderRoundTrip(h.(discons := h.discons[slot := true]), rest);
  }

  /** Setting one disconnect byte of an encoded header encodes the header
      with that flag set. */
  lemma MarkedEncoding(h: FixedHeader, slot: nat)
    requires ValidFixedHeader(h) && slot < MaxSlots
    ensures EncodeFixedHeader(h)[DisconOffset + slot := 1] == EncodeFixedHeader(h.(discons := h.discons[slot := true]))
  {
    var h' := h.(discons := h.discons[slot := true]);
    var pre := Magic + LittleEndian(Unsigned32(h.startTime), TimeSize) + LittleEndian(Unsigned32(h.endTime), TimeSize)
      + LittleEndian(h.frameCount, UIntSize) + [BoolByte(h.desync), BoolByte(h.quitEarly)];
    assert EncodeFixedHeader(h) == pre + BoolBytes(h.discons);
    assert EncodeFixedHeader(h') == pre + BoolBytes(h'.discons);
    assert BoolBytes(h'.discons) == BoolBytes(h.discons)[slot := 1];
    UpdateRight(pre, BoolBytes(h.discons), slot, 1);
  }

  // ---------------------------------------------------------------------------
  // CRCInfo

  /** The playback CRC queue: whether the first value has been skipped yet,
      and the queued values, oldest first. */
  datatype CrcInfo = CrcInfo(localPlayer: nat, skippedOne: bool, data: seq<nat>, sawMismatch: bool)

  /** The constructor: only in a multiplayer game is a first value still to be
      skipped. */
  function NewCrcInfo(localPlayer: nat, isMultiplayer: bool): (c: CrcInfo)
    ensures c.skippedOne == !isMultiplayer && c.data == [] && !c.sawMismatch
  {
    CrcInfo(localPlayer, !isMultiplayer, [], false)
  }

  /** `addCRC(val)`: the first value of a multiplayer game is dropped, every
      other one is queued at the back. */
  function AddCrc(c: CrcInfo, val: nat): (r: CrcInfo)
    ensures !c.skippedOne ==> r == c.(skippedOne := true)
    ensures c.skippedOne ==> r == c.(data := c.data + [val])
  {
    if !c.skippedOne then c.(skippedOne := true) else c.(data := c.data + [val])
  }

  /** `readCRC()`: 0 when the queue is empty, otherwise the oldest value,
      which is removed. */
  function ReadCrc(c: CrcInfo): (r: (CrcInfo, nat))
    ensures c.data == [] ==> r == (c, 0)
    ensures c.data != [] ==> r.1 == c.data[0] && r.0 == c.(data := c.data[1..])
  {
    if c.data == [] then (c, 0) else (c.(data := c.data[1..]), c.data[0])
  }

  function AddAll(c: CrcInfo, vals: seq<nat>): CrcInfo
    decreases |vals|
  {
    if vals == [] then c else AddAll(AddCrc(c, vals[0]), vals[1..])
  }

  /** Reads `n` values in turn: the queued values oldest first, then 0 for
      every read past the end of the queue. */
  function ReadN(c: CrcInfo, n: nat): (vals: seq<nat>)
    ensures |vals| == n
    ensures forall i :: 0 <= i < n && i < |c.data| ==> vals[i] == c.data[i]
    ensures forall i :: |c.data| <= i < n ==> vals[i] == 0
    decreases n
  {
    if n == 0 then []
    else
      var (c', v) := ReadCrc(c);
      var rest := ReadN(c', n - 1);
      assert forall i :: 1 <= i < n ==> ([v] + rest)[i] == rest[i - 1];
      [v] + rest
  }

  /** Once the skip is done, adding queues the values in order. */
  lemma {:induction false} AddAllQueues(c: CrcInfo, vals: seq<nat>)
    requires c.skippedOne
    ensures AddAll(c, vals) == c.(data := c.data + vals)
    decreases |vals|
  {
    if vals != [] {
      AddAllQueues(AddCrc(c, vals[0]), vals[1..]);
      assert c.data + [vals[0]] + vals[1..] == c.data + vals;
    }
  }

  /** A new queue hands back every value added, except that in a multiplayer
      game the first value added is never seen. */
  lemma CrcQueueOrder(localPlayer: nat, isMultiplayer: bool, vals: seq<nat>)
    requires |vals| > 0
    ensures var c := AddAll(NewCrcInfo(localPlayer, isMultiplayer), vals);
            c.data == (if isMultiplayer then vals[1..] else vals)
  {
    var c0 := NewCrcInfo(localPlayer, isMultiplayer);
    if isMultiplayer {
      AddAllQueues(AddCrc(c0, vals[0]), vals[1..]);
    } else {
      AddAllQueues(c0, vals);
    }
  }

  // ---------------------------------------------------------------------------
  // Strings in the header

  /** The string buffer of `readAsciiString` holds 1024 characters, the last
      of which is always set to NUL, so at most 1023 characters come back. */
  const BufferSize: nat := 1024
  const MaxStringLength: nat := BufferSize - 1

  /** The read at position `i` of the input returns `EOF`: past the end, or
      (in Zero Hour) a 0xFF byte. */
  predicate EofAt(v: Variant, input: seq<Byte>, i: nat) {
    i >= |input| || (v == ZeroHour && input[i] == 0xFF)
  }

  /** The read at position `i` ends the string: `EOF` or a NUL. */
  predicate StopsAt(v: Variant, input: seq<Byte>, i: nat) {
    EofAt(v, input, i) || input[i] == 0
  }

  /** The first `n` characters of a string, how the writer stores it: the
      characters followed by a NUL (`writeFormat("%s")` then `writeChar("\0")`,
      or `fwrite` of the length plus one). */
  function WriteAsciiString(s: seq<Byte>): (r: seq<Byte>)
    ensures r == s + [0]
  {
    s + [0]
  }

  /** The prefix of `s` before its first NUL: what a C string constructor
      takes. */
  function UntilNul(s: seq<Byte>): (r: seq<Byte>)
    ensures r <= s && (forall i :: 0 <= i < |r| ==> r[i] != 0)
    ensures |r| < |s| ==> s[|r|] == 0
  {
    if s == [] || s[0] == 0 then [] else [s[0]] + UntilNul(s[1..])
  }

  /** The loop of `readAsciiString` AS WRITTEN: `buf` holds what has been
      stored in `str[0..]` so far, the last entry being `str[index]`. While
      `index < 1024` and `str[index]` is not NUL, it advances `index` and stores
      the next character there (a NUL on `EOF`, then stops). */
  function LoopAsWritten(v: Variant, input: seq<Byte>, buf: seq<Byte>): (r: seq<Byte>)
    requires 1 <= |buf| <= BufferSize + 1
    ensures buf <= r && |r| <= BufferSize + 1
    decreases BufferSize + 1 - |buf|
  {
    var index := |buf| - 1;
    if index >= BufferSize || buf[index] == 0 then buf
    else if EofAt(v, input, index + 1) then buf + [0]
    else LoopAsWritten(v, input, buf + [input[index + 1]])
  }

  /** The first store AS WRITTEN: on `EOF` the NUL written to `str[0]` is
      overwritten at once by `EOF` itself, i.e. the character 0xFF. */
  function FirstStoredAsWritten(v: Variant, input: seq<Byte>): (b: Byte)
    ensures EofAt(v, input, 0) ==> b == 0xFF
    ensures !EofAt(v, input, 0) ==> b == input[0]
  {
    if EofAt(v, input, 0) then 0xFF else input[0]
  }

  /** Every store `readAsciiString` makes to `str`, in index order. */
  function StoredAsWritten(v: Variant, input: seq<Byte>): (r: seq<Byte>)
    ensures 1 <= |r| <= BufferSize + 1
  {
    LoopAsWritten(v, input, [FirstStoredAsWritten(v, input)])
  }

  /** `readAsciiString()` AS WRITTEN: after the loop `str[1023]` is set to NUL
      and the string is taken up to the first NUL. */
  function ReadAsciiStringAsWritten(v: Variant, input: seq<Byte>): (r: seq<Byte>)
    ensures |r| <= MaxStringLength
  {
    var stored := StoredAsWritten(v, input);
    UntilNul(stored[..Min(|stored|, MaxStringLength)])
  }

  /** While the characters are ordinary, the loop as written keeps storing
      them one index further. */
  lemma {:induction false} LoopAsWrittenLong(v: Variant, input: seq<Byte>, k: nat)
    requires 1 <= k <= BufferSize && |input| >= BufferSize
    requires forall i :: 0 <= i < BufferSize ==> !StopsAt(v, input, i)
    ensures |LoopAsWritten(v, input, input[..k])| == BufferSize + 1
    decreases BufferSize - k
  {
    assert input[..k][k - 1] == input[k - 1];
    assert !StopsAt(v, input, k - 1);
    if k < BufferSize {
      assert !StopsAt(v, input, k);
      assert input[..k] + [input[k]] == input[..k + 1];
      LoopAsWrittenLong(v, input, k + 1);
    } else if !EofAt(v, input, k) {
      assert input[..k] + [input[k]] == input[..k + 1];
      assert LoopAsWritten(v, input, input[..k]) == LoopAsWritten(v, input, input[..k] + [input[k]]);
      assert LoopAsWritten(v, input, input[..k + 1]) == input[..k + 1];
    }
  }

  /** A string of 1024 or more characters makes `readAsciiString` as written
      store to `str[1024]`, one past the end of its 1024-character buffer. */
  lemma AsWrittenStoresPastBuffer(v: Variant, input: seq<Byte>)
    requires |input| >= BufferSize
    requires forall i :: 0 <= i < BufferSize ==> !StopsAt(v, input, i)
    ensures |StoredAsWritten(v, input)| == BufferSize + 1
  {
    assert [FirstStoredAsWritten(v, input)] == input[..1];
    LoopAsWrittenLong(v, input, 1);
  }

  /** At the end of the file, `readAsciiString` as written returns the
      one-character string 0xFF instead of the empty string. */
  lemma AsWrittenEofGivesFF(v: Variant)
    ensures StoredAsWritten(v, []) == [0xFF, 0]
    ensures ReadAsciiStringAsWritten(v, []) == [0xFF]
  {
    assert [0xFF, 0][..2] == [0xFF, 0];
    assert UntilNul([0xFF, 0]) == [0xFF] + UntilNul([0]);
  }

  /** How far the corrected read gets: the first stop at or after `from`, but
      no further than the last usable index. */
  function ScanString(v: Variant, input: seq<Byte>, from: nat): (n: nat)
    requires from <= MaxStringLength
    requires forall i :: 0 <= i < from ==> !StopsAt(v, input, i)
    ensures from <= n <= MaxStringLength && n <= |input|
    ensures forall i :: 0 <= i < n ==> !StopsAt(v, input, i)
    ensures n < MaxStringLength ==> StopsAt(v, input, n)
    decreases MaxStringLength - from
  {
    if from > 0 then
      assert !StopsAt(v, input, from - 1);
      if from == MaxStringLength || StopsAt(v, input, from) then from else ScanString(v, input, from + 1)
    else if StopsAt(v, input, 0) then 0
    else ScanString(v, input, 1)
  }

  /** `readAsciiString()` as evidently intended: the characters up to the first
      NUL or `EOF`, at most 1023 of them, never storing past the buffer, and the
      empty string at the end of the file. */
  function ReadAsciiString(v: Variant, input: seq<Byte>): (r: seq<Byte>)
    ensures |r| <= MaxStringLength && |r| <= |input| && r == input[..|r|]
    ensures forall i :: 0 <= i < |r| ==> !StopsAt(v, input, i)
    ensures |r| < MaxStringLength ==> StopsAt(v, input, |r|)
  {
    input[..ScanString(v, input, 0)]
  }

  /** A string the reader can stop after: no NUL and, in Zero Hour, no 0xFF
      byte. */
  predicate Readable(v: Variant, s: seq<Byte>) {
    forall i :: 0 <= i < |s| ==> s[i] != 0 && (v == ZeroHour ==> s[i] != 0xFF)
  }

  /** What the writer stores, the reader gives back: any string of at most
      1023 characters, whatever follows it in the file. */
  lemma ReadWriteRoundTrip(v: Variant, s: seq<Byte>, rest: seq<Byte>)
    requires |s| <= MaxStringLength && Readable(v, s)
    ensures ReadAsciiString(v, WriteAsciiString(s) + rest) == s
  {
    var input := WriteAsciiString(s) + rest;
    var r := ReadAsciiString(v, input);
    forall i | 0 <= i < |s| ensures !StopsAt(v, input, i) {
      assert input[i] == s[i];
    }
    assert StopsAt(v, input, |s|) by { assert input[|s|] == 0; }
    assert |r| == |s|;
    assert input[..|s|] == s;
  }

  /** On such strings the loop as written stores the characters and the NUL. */
  lemma {:induction false} LoopAsWrittenShort(v: Variant, s: seq<Byte>, rest: seq<Byte>, k: nat)
    requires 1 <= k <= |s| <= MaxStringLength && Readable(v, s)
    ensures LoopAsWritten(v, s + [0] + rest, s[..k]) == s + [0]
    decreases |s| - k
  {
    var input := s + [0] + rest;
    assert s[..k][k - 1] == s[k - 1];
    assert input[k] == (if k < |s| then s[k] else 0);
    if k < |s| {
      assert s[..k] + [input[k]] == s[..k + 1];
      LoopAsWrittenShort(v, s, rest, k + 1);
    } else {
      assert s[..k] == s;
      var b := s + [0];
      assert b[|b| - 1] == 0;
    }
  }

  /** For strings of at most 1023 characters the source's loop returns the
      string too: its faults show only on longer strings and at `EOF`. */
  lemma AsWrittenAgreesOnShortStrings(v: Variant, s: seq<Byte>, rest: seq<Byte>)
    requires |s| <= MaxStringLength && Readable(v, s)
    ensures ReadAsciiStringAsWritten(v, WriteAsciiString(s) + rest) == s
  {
    var input := s + [0] + rest;
    assert WriteAsciiString(s) + rest == input;
    var stored := StoredAsWritten(v, input);
    if |s| == 0 {
      assert input[0] == 0;
      assert stored == [0];
    } else {
      assert [FirstStoredAsWritten(v, input)] == s[..1];
      LoopAsWrittenShort(v, s, rest, 1);
    }
    assert stored == s + [0];
    var cut := stored[..Min(|stored|, MaxStringLength)];
    UntilNulOfPrefix(s, cut);
  }

  /** A prefix of `s + [0]` that contains `s` reads back as `s`. */
  lemma UntilNulOfPrefix(s: seq<Byte>, cut: seq<Byte>)
    requires forall i :: 0 <= i < |s| ==> s[i] != 0
    requires cut <= s + [0] && |cut| >= |s|
    ensures UntilNul(cut) == s
  {
    var r := UntilNul(cut);
    assert forall i :: 0 <= i < |s| ==> cut[i] == s[i];
    assert |cut| > |s| ==> cut[|s|] == 0;
    if |r| < |s| {
      assert false;
    }
    assert |r| == |s|;
    assert r == cut[..|s|] == s;
  }

  // ---------------------------------------------------------------------------
  // The local player's index: written with "%d", read with atoi

  function IsDigit(b: Byte): bool {
    0x30 <= b <= 0x39
  }

  /** C's `isspace` on a byte. */
  function IsSpaceByte(b: Byte): bool {
    b == 0x20 || 0x09 <= b <= 0x0D
  }

  /** The decimal digits of `n`, most significant first, with no leading zero. */
  function Digits(n: nat): (r: seq<Byte>)
    ensures |r| >= 1 && forall i :: 0 <= i < |r| ==> IsDigit(r[i])
  {
    if n < 10 then [0x30 + n] else Digits(n / 10) + [0x30 + n % 10]
  }

  /** The value of a run of decimal digits. */
  function DigitsValue(s: seq<Byte>): nat
    requires forall i :: 0 <= i < |s| ==> IsDigit(s[i])
  {
    if s == [] then 0
    else
      var d := s[|s| - 1];
      assert IsDigit(d);
      10 * DigitsValue(s[..|s| - 1]) + (d as int - 0x30)
  }

  lemma {:induction false} DigitsValueOfDigits(n: nat)
    ensures DigitsValue(Digits(n)) == n
  {
    if n >= 10 {
      DigitsValueOfDigits(n / 10);
      var d := Digits(n);
      assert d[..|d| - 1] == Digits(n / 10);
    }
  }

  /** `sprintf("%d", n)`. */
  function DecimalText(n: int): (r: seq<Byte>)
    ensures |r| >= 1
  {
    if n < 0 then [0x2D] + Digits(-n) else Digits(n)
  }

  /** The end of the run of white space starting at `from`. */
  function SkipSpaces(s: seq<Byte>, from: nat): (r: nat)
    requires from <= |s|
    ensures from <= r <= |s|
    ensures forall i :: from <= i < r ==> IsSpaceByte(s[i])
    ensures r < |s| ==> !IsSpaceByte(s[r])
    decreases |s| - from
  {
    if from == |s| || !IsSpaceByte(s[from]) then from else SkipSpaces(s, from + 1)
  }

  /** The end of the run of decimal digits starting at `from`. */
  function SkipDigits(s: seq<Byte>, from: nat): (r: nat)
    requires from <= |s|
    ensures from <= r <= |s|
    ensures forall i :: from <= i < r ==> IsDigit(s[i])
    ensures r < |s| ==> !IsDigit(s[r])
    decreases |s| - from
  {
    if from == |s| || !IsDigit(s[from]) then from else SkipDigits(s, from + 1)
  }

  /** C's `atoi`: skip white space, take an optional sign, then the run of
      digits. */
  function Atoi(s: seq<Byte>): (r: int)
    ensures (|s| == 0 || (!IsSpaceByte(s[0]) && s[0] != 0x2D && s[0] != 0x2B && !IsDigit(s[0]))) ==> r == 0
  {
    var i := SkipSpaces(s, 0);
    var signed := i < |s| && (s[i] == 0x2D || s[i] == 0x2B);
    var j := if signed then i + 1 else i;
    var k := SkipDigits(s, j);
    var v: int := DigitsValue(s[j..k]);
    if i < |s| && s[i] == 0x2D then -v else v
  }

  /** `atoi` reads back what `%d` wrote. */
  lemma AtoiDecimalText(n: int)
    ensures Atoi(DecimalText(n)) == n
  {
    if n < 0 {
      DigitsValueOfDigits(-n);
      AtoiOfNegative(Digits(-n));
    } else {
      DigitsValueOfDigits(n);
      AtoiOfDigits(Digits(n));
    }
  }

  /** `atoi` of a run of digits is its value. */
  lemma AtoiOfDigits(ds: seq<Byte>)
    requires |ds| >= 1 && forall i :: 0 <= i < |ds| ==> IsDigit(ds[i])
    ensures Atoi(ds) == DigitsValue(ds)
  {
    assert !IsSpaceByte(ds[0]) && ds[0] != 0x2D && ds[0] != 0x2B;
    DigitsToEnd(ds, 0);
    assert ds[0..|ds|] == ds;
  }

  /** `atoi` of a minus sign and a run of digits is minus their value. */
  lemma AtoiOfNegative(ds: seq<Byte>)
    requires |ds| >= 1 && forall i :: 0 <= i < |ds| ==> IsDigit(ds[i])
    ensures Atoi([0x2D] + ds) == -(DigitsValue(ds) as int)
  {
    var s := [0x2D] + ds;
    assert s[0] == 0x2D && s[1..|s|] == ds;
    assert SkipDigits(s, 1) == |s| by {
      forall i | 1 <= i < |s| ensures IsDigit(s[i]) {
        assert s[i] == ds[i - 1];
      }
      DigitsToEnd(s, 1);
    }
  }

  /** A run of digits reaching the end is skipped whole. */
  lemma DigitsToEnd(s: seq<Byte>, j: nat)
    requires j <= |s| && forall i :: j <= i < |s| ==> IsDigit(s[i])
    ensures SkipDigits(s, j) == |s|
  {
  }

  // ---------------------------------------------------------------------------
  // readReplayHeader and the version check

  /** Why reading a header failed. */
  datatype HeaderError = CannotOpen | BadMagic | BadGameInfo | BadLocalSlot

  datatype HeaderCheck = HeaderOk(localPlayerIndex: int) | HeaderFailed(error: HeaderError)

  /** The checks of `readReplayHeader`, in order: the file opens, it starts
      with `GENREP`, the game options parse, and the local player index read
      with `atoi` is -1 or a slot. */
  function CheckReplayHeader(fileOpened: bool, file: seq<Byte>, gameInfoParses: bool, localIndexText: seq<Byte>)
    : (r: HeaderCheck)
    ensures r.HeaderOk? <==>
              fileOpened && |file| >= |Magic| && file[..|Magic|] == Magic && gameInfoParses &&
              -1 <= Atoi(localIndexText) < MaxSlots
    ensures r.HeaderOk? ==> r.localPlayerIndex == Atoi(localIndexText)
    ensures !fileOpened ==> r == HeaderFailed(CannotOpen)
    ensures fileOpened && (|file| < |Magic| || file[..|Magic|] != Magic) ==> r == HeaderFailed(BadMagic)
  {
    if !fileOpened then HeaderFailed(CannotOpen)
    else if |file| < |Magic| || file[..|Magic|] != Magic then HeaderFailed(BadMagic)
    else if !gameInfoParses then HeaderFailed(BadGameInfo)
    else
      var i := Atoi(localIndexText);
      if i < -1 || i >= MaxSlots then HeaderFailed(BadLocalSlot) else HeaderOk(i)
  }

  /** A local index written by `startRecording` (-1 or a slot) passes the
      check and comes back unchanged. */
  lemma LocalIndexRoundTrip(v: Variant, header: FixedHeader, localIndex: int, rest: seq<Byte>)
    requires ValidFixedHeader(header)
    requires -1 <= localIndex < MaxSlots
    ensures var text := ReadAsciiString(v, WriteAsciiString(DecimalText(localIndex)) + rest);
            CheckReplayHeader(true, EncodeFixedHeader(header), true, text) == HeaderOk(localIndex)
  {
    var t := DecimalText(localIndex);
    assert Readable(v, t) by {
      if localIndex < 0 {
        assert t == [0x2D, 0x31];
      } else {
        assert t == [0x30 + localIndex];
      }
    }
    ReadWriteRoundTrip(v, t, rest);
    AtoiDecimalText(localIndex);
  }

  /** The version data a replay records and the running game has. */
  datatype VersionInfo = VersionInfo(versionString: seq<int>, buildTime: seq<int>, versionNumber: nat,
                                     exeCrc: nat, iniCrc: nat)

  /** `replayMatchesGameVersion`: the executable is the same (version string,
      build time, version number and exe CRC) and so are the INI files. */
  function MatchesGameVersion(header: VersionInfo, running: VersionInfo): (r: bool)
    ensures r <==> header.versionString == running.versionString && header.buildTime == running.buildTime &&
                   header.versionNumber == running.versionNumber && header.exeCrc == running.exeCrc &&
                   header.iniCrc == running.iniCrc
  {
    var exeDifferent := header.versionString != running.versionString || header.buildTime != running.buildTime ||
                         header.versionNumber != running.versionNumber || header.exeCrc != running.exeCrc;
    var iniDifferent := header.iniCrc != running.iniCrc;
    !(exeDifferent || iniDifferent)
  }

  /** The version check is exactly equality of the recorded data. */
  lemma MatchesIsEquality(a: VersionInfo, b: VersionInfo)
    ensures MatchesGameVersion(a, b) <==> a == b
  {
  }

  // ---------------------------------------------------------------------------
  // cullBadCommands

  /** The message-type bounds involved: network messages lie strictly between
      `beginNetwork` and `endNetwork`. The values are defined in a header that
      is not part of this model. */
  datatype MessageTypes = MessageTypes(beginNetwork: int, endNetwork: int, logicCrc: int, clearGameData: int)

  /** The messages playback deletes: network messages other than the CRC. */
  predicate IsCulled(t: MessageTypes, ty: int) {
    t.beginNetwork < ty < t.endNetwork && ty != t.logicCrc
  }

  function Filter(t: MessageTypes, msgs: seq<int>): (r: seq<int>)
    ensures |r| <= |msgs|
    ensures forall i :: 0 <= i < |r| ==> !IsCulled(t, r[i])
    ensures forall ty :: ty in r <==> ty in msgs && !IsCulled(t, ty)
  {
    if msgs == [] then []
    else if IsCulled(t, msgs[0]) then Filter(t, msgs[1..])
    else [msgs[0]] + Filter(t, msgs[1..])
  }

  /** `cullBadCommands()` on the command list's message types: in analysis
      mode nothing happens; otherwise the culled messages are deleted, the
      others keep their order, and the result says whether a kept message is
      `MSG_CLEAR_GAME_DATA`. */
  function CullBadCommands(t: MessageTypes, doingAnalysis: bool, msgs: seq<int>): (r: (seq<int>, bool))
    ensures doingAnalysis ==> r == (msgs, false)
    ensures !doingAnalysis ==> r.0 == Filter(t, msgs)
    ensures !doingAnalysis ==> (r.1 <==> t.clearGameData in msgs && !IsCulled(t, t.clearGameData))
  {
    if doingAnalysis then (msgs, false)
    else
      var kept := Filter(t, msgs);
      (kept, t.clearGameData in kept)
  }

  /** Culling twice deletes nothing more. */
  lemma {:induction false} FilterIdempotent(t: MessageTypes, msgs: seq<int>)
    ensures Filter(t, Filter(t, msgs)) == Filter(t, msgs)
  {
    if msgs != [] {
      FilterIdempotent(t, msgs[1..]);
      if !IsCulled(t, msgs[0]) {
        var r := Filter(t, msgs);
        assert r[0] == msgs[0] && r[1..] == Filter(t, msgs[1..]);
      }
    }
  }

  /** The kept messages are the list with the culled ones taken out, order
      kept: culling distributes over concatenation. */
  lemma {:induction false} FilterAppend(t: MessageTypes, a: seq<int>, b: seq<int>)
    ensures Filter(t, a + b) == Filter(t, a) + Filter(t, b)
  {
    if a != [] {
      FilterAppend(t, a[1..], b);
      AppendTail(a, b);
      FilterStep(t, a + b);
      FilterStep(t, a);
    } else {
      assert a + b == b;
    }
  }

  /** One step of the culling loop: the head is dropped or kept. */
  lemma FilterStep(t: MessageTypes, s: seq<int>)
    requires |s| > 0
    ensures Filter(t, s) == if IsCulled(t, s[0]) then Filter(t, s[1..]) else [s[0]] + Filter(t, s[1..])
  {
  }
}
