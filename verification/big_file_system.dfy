/** Opening a `.big` archive (`StdBIGFileSystem::openArchiveFile`): the
    header, then a directory of (offset, size, name) entries, each name split
    into its directory path and its lower-cased file name. The archive's
    bytes are a sequence; a file that cannot be opened is `None`. */
module BigFileSystem {
  import opened Common
  import opened Bytes
  import opened Strings
  import LocalFile

  /** "BIGF". */
  const Magic: seq<Byte> := [0x42, 0x49, 0x47, 0x46]
  /** Where the directory starts. */
  const DirectoryStart := 0x10
  /** The size of the name buffer, `_MAX_PATH`. */
  const MaxPath := 260

  /** A directory entry as stored: the file's offset and size, and its name
      without the terminating NUL. */
  datatype RawEntry = RawEntry(offset: nat, size: nat, name: seq<Byte>)

  /** What `addFile` receives for an entry: the directory part of the name
      (keeping its separator) and the lower-cased file name. */
  datatype ArchivedFile = ArchivedFile(path: string, filename: string, offset: nat, size: nat)

  /** The archive: its lower-cased file name, the raw size word and the
      entries in directory order. */
  datatype Archive = Archive(name: string, sizeWord: int, files: seq<ArchivedFile>)

  function Chars(b: seq<Byte>): (s: string)
    ensures |s| == |b| && forall i :: 0 <= i < |b| ==> s[i] as int == b[i]
  {
    seq(|b|, i requires 0 <= i < |b| => b[i] as char)
  }

  /** The first NUL at or after `pos`, or `|d|` when there is none. */
  function NulFrom(d: seq<Byte>, pos: nat): (k: nat)
    requires pos <= |d|
    ensures pos <= k <= |d|
    ensures forall i :: pos <= i < k ==> d[i] != 0
    ensures k < |d| ==> d[k] == 0
    decreases |d| - pos
  {
    if pos == |d| || d[pos] == 0 then pos else NulFrom(d, pos + 1)
  }

  /** One directory entry at `pos`: two big-endian words and a NUL-ended
      name; also the position after it. `None` when the data ends first. */
  function ReadEntry(d: seq<Byte>, pos: nat): (r: Option<(RawEntry, nat)>)
    requires pos <= |d|
    ensures r.Some? ==> pos + 8 < r.value.1 <= |d|
    ensures r.Some? ==> r.value.0.offset < 0x1_0000_0000 && r.value.0.size < 0x1_0000_0000
  {
    if pos + 8 > |d| then None
    else
      var e := NulFrom(d, pos + 8);
      if e == |d| then None
      else
        Pow256Four();
        Some((RawEntry(ReadBigEndian(d[pos..pos + 4]), ReadBigEndian(d[pos + 4..pos + 8]), d[pos + 8..e]), e + 1))
  }

  /** The `numLittleFiles` entries from `pos`, in order. */
  function ReadEntries(d: seq<Byte>, pos: nat, n: nat): (r: Option<seq<RawEntry>>)
    requires pos <= |d|
    ensures r.Some? ==> |r.value| == n
    decreases n
  {
    if n == 0 then Some([])
    else
      match ReadEntry(d, pos)
      case None => None
      case Some((e, next)) =>
        match ReadEntries(d, next, n - 1)
        case None => None
        case Some(rest) => Some([e] + rest)
  }

  /** The split of one name at its last slash or backslash. */
  function Split(e: RawEntry): (f: ArchivedFile)
    ensures var name := Chars(e.name);
            var k := DirEnd(name);
            f.path == name[..k] && f.filename == LowerString(name[k..])
    ensures f.path == [] || IsPathSep(f.path[|f.path| - 1])
    ensures forall i :: 0 <= i < |f.filename| ==> !IsPathSep(f.filename[i])
    ensures f.offset == e.offset && f.size == e.size
  {
    var name := Chars(e.name);
    var k := DirEnd(name);
    BaseNameHasNoSep(name);
    ArchivedFile(name[..k], LowerString(name[k..]), e.offset, e.size)
  }

  function SplitAll(es: seq<RawEntry>): (fs: seq<ArchivedFile>)
    ensures |fs| == |es| && forall i :: 0 <= i < |es| ==> fs[i] == Split(es[i])
  {
    seq(|es|, i requires 0 <= i < |es| => Split(es[i]))
  }

  // ---------------------------------------------------------------------
  // Reading as the program does, through `LocalFile.ReadAt`, which near the
  // end of the data stores fewer bytes than asked and leaves the rest of the
  // destination as it was. The name buffer is `_MAX_PATH` bytes on the
  // stack; a byte of it never written is `None`.

  /** An `Int` set to 0 whose first bytes a read replaced by `got`. */
  function Word(got: seq<Byte>): (w: seq<Byte>)
    requires |got| <= 4
    ensures |w| == 4 && w[..|got|] == got
    ensures forall i :: |got| <= i < 4 ==> w[i] == 0
  {
    got + [0, 0, 0, 0][|got|..]
  }

  /** How a read of the name buffer ends when it gives no value: a byte is
      tested that was never written, or a name fills the buffer, past whose
      end the program as written goes on storing. */
  datatype Read<T> = Got(value: T) | Uninitialised | PastBuffer

  /** Where the name loop stopped: the buffer, the position after its
      reads and the index of the NUL that ended it. */
  datatype NameEnd = NameEnd(buf: seq<Option<Byte>>, next: nat, nul: nat)

  /** One pass of the directory loop: the entry, the position after it and
      the buffer it leaves. */
  datatype Pass = Pass(entry: RawEntry, next: nat, buf: seq<Option<Byte>>)

  /** `strcmp(buffer, "BIGF")` from byte `i` on, after the identifier read
      stored `got` and `buffer[4] = 0`. */
  function CompareFrom(got: seq<Byte>, i: nat): (r: Read<bool>)
    requires i <= |got| <= 4
    ensures r != PastBuffer
    ensures r == Got(true) <==> |got| == 4 && got[i..] == Magic[i..]
    ensures r == Uninitialised <==> |got| < 4 && got[i..] == Magic[i..|got|]
    decreases 4 - i
  {
    if i == 4 then Got(true)
    else if i == |got| then Uninitialised
    else if got[i] != Magic[i] then Got(false)
    else
      assert got[i..] == [got[i]] + got[i + 1..];
      CompareFrom(got, i + 1)
  }

  /** The name buffer after the identifier is read into it and
      `buffer[4] = 0`. */
  function HeaderBuffer(got: seq<Byte>): (b: seq<Option<Byte>>)
    requires |got| <= 4
    ensures |b| == MaxPath && b[4] == Some(0)
    ensures forall i :: 0 <= i < |got| ==> b[i] == Some(got[i])
    ensures forall i :: |got| <= i < MaxPath && i != 4 ==> b[i] == None
  {
    seq(MaxPath, i requires 0 <= i < MaxPath => if i < |got| then Some(got[i]) else if i == 4 then Some(0) else None)
  }

  /** The name loop from `buffer[i]` on: each pass reads one byte into
      `buffer[i]`, which at the end of the data keeps what it held, and the
      loop stops once that byte is NUL. The result is the buffer, the
      position after the reads and the index of the NUL. */
  function NameLoop(d: seq<Byte>, pos: nat, buf: seq<Option<Byte>>, i: nat): (r: Read<NameEnd>)
    requires |buf| == MaxPath && i <= MaxPath
    requires forall j :: 0 <= j < i ==> buf[j].Some? && buf[j].value != 0
    ensures r.Got? ==>
              var b, p, k := r.value.buf, r.value.next, r.value.nul;
              |b| == MaxPath && i <= k < MaxPath && b[k] == Some(0) && pos <= p &&
              forall j :: 0 <= j < k ==> b[j].Some? && b[j].value != 0
    decreases MaxPath - i
  {
    if i == MaxPath then PastBuffer
    else
      var b := if pos < |d| then buf[i := Some(d[pos])] else buf;
      var p := if pos < |d| then pos + 1 else pos;
      match b[i]
      case None => Uninitialised
      case Some(c) => if c == 0 then Got(NameEnd(b, p, i)) else NameLoop(d, p, b, i + 1)
  }

  /** The bytes of a name the loop ended at index `k`. */
  function NameBytes(b: seq<Option<Byte>>, k: nat): (name: seq<Byte>)
    requires k <= |b| && forall j :: 0 <= j < k ==> b[j].Some?
    ensures |name| == k && forall j :: 0 <= j < k ==> b[j] == Some(name[j])
  {
    seq(k, j requires 0 <= j < k => b[j].value)
  }

  /** `buffer[filenameIndex + 1] = 0`: the NUL that ends the path, just
      after the name's last separator. */
  function CutPath(b: seq<Option<Byte>>, name: seq<Byte>): (c: seq<Option<Byte>>)
    requires |name| < |b|
    ensures |c| == |b| && c[DirEnd(Chars(name))] == Some(0)
    ensures forall j :: 0 <= j < |b| && j != DirEnd(Chars(name)) ==> c[j] == b[j]
  {
    b[DirEnd(Chars(name)) := Some(0)]
  }

  /** One pass of the directory loop at `pos`: the offset and size words,
      each set to 0 and then read big-endian, and the name through the
      buffer; `buffer[filenameIndex + 1] = 0` then cuts the file name off
      the path. Also the position after it and the buffer it leaves. */
  function EntryAsRead(d: seq<Byte>, pos: nat, buf: seq<Option<Byte>>): (r: Read<Pass>)
    requires |buf| == MaxPath
    ensures r.Got? ==> |r.value.buf| == MaxPath && pos <= r.value.next
    ensures r.Got? ==> r.value.entry.offset < 0x1_0000_0000 && r.value.entry.size < 0x1_0000_0000
    ensures r.Got? ==> |r.value.entry.name| < MaxPath && forall j :: 0 <= j < |r.value.entry.name| ==> r.value.entry.name[j] != 0
  {
    var o := LocalFile.ReadAt(d, pos, 4);
    var s := LocalFile.ReadAt(d, pos + |o|, 4);
    var loop := NameLoop(d, pos + |o| + |s|, buf, 0);
    if loop.Uninitialised? then Uninitialised
    else if loop.PastBuffer? then PastBuffer
    else
      var b, p, k := loop.value.buf, loop.value.next, loop.value.nul;
      var name := NameBytes(b, k);
      Pow256Four();
      Got(Pass(RawEntry(ReadBigEndian(Word(o)), ReadBigEndian(Word(s)), name), p, CutPath(b, name)))
  }

  /** The `numLittleFiles` passes of the directory loop from `pos`. */
  function EntriesAsRead(d: seq<Byte>, pos: nat, buf: seq<Option<Byte>>, n: nat): (r: Read<seq<RawEntry>>)
    requires |buf| == MaxPath
    ensures r.Got? ==> |r.value| == n
    ensures r.Got? ==> forall j :: 0 <= j < n ==> |r.value[j].name| < MaxPath
    decreases n
  {
    if n == 0 then Got([])
    else
      var first := EntryAsRead(d, pos, buf);
      if first.Uninitialised? then Uninitialised
      else if first.PastBuffer? then PastBuffer
      else
        var rest := EntriesAsRead(d, first.value.next, first.value.buf, n - 1);
        if rest.Uninitialised? then Uninitialised
        else if rest.PastBuffer? then PastBuffer
        else Got([first.value.entry] + rest.value)
  }

  /** What opening comes to: the archive, a refusal (`NULL`), or a test of a
      buffer byte that was never written, whose value is not modelled. */
  datatype Opened = Opened(archive: Archive) | Refused | Undefined

  /** `openArchiveFile`. The size word at offset 4 is taken as it lies (on a
      little-endian host) and only logged; the entry count at 8 is a signed
      big-endian word, and a negative count reads no entries. Both start at
      0 and keep it where the data ends first. A name that fills the buffer
      refuses the archive, where the program as written overruns it
      (`AsWrittenLongNameOverflows`). */
  function OpenArchive(filename: string, data: Option<seq<Byte>>): (r: Opened)
    ensures data.None? ==> r == Refused
    ensures r.Opened? ==> data.Some? && |data.value| >= 4 && data.value[..4] == Magic
    ensures r.Opened? ==> r.archive.name == LowerString(filename)
    ensures data.Some? && |data.value| >= 4 && data.value[..4] != Magic ==> r == Refused
    ensures data.Some? && |data.value| < 4 && data.value == Magic[..|data.value|] ==> r == Undefined
    ensures r.Opened? ==> forall j :: 0 <= j < |r.archive.files| ==> |r.archive.files[j].path| < MaxPath
  {
    match data
    case None => Refused
    case Some(d) =>
      var id := LocalFile.ReadAt(d, 0, 4);
      match CompareFrom(id, 0)
      case Got(same) =>
        if !same then Refused
        else
          var sw := LocalFile.ReadAt(d, 4, 4);
          var cw := LocalFile.ReadAt(d, 4 + |sw|, 4);
          Pow256Four();
          var count := Signed32(ReadBigEndian(Word(cw)));
          var entries := EntriesAsRead(d, DirectoryStart, HeaderBuffer(id), if count < 0 then 0 else count);
          Conclude(filename, Signed32(ReadLittleEndian(Word(sw))), entries)
      case _ => Undefined
  }

  /** The archive once the directory loop is over: its entries split, or
      what stopped the loop. */
  function Conclude(filename: string, sizeWord: int, entries: Read<seq<RawEntry>>): Opened {
    match entries
    case Got(es) => Opened(Archive(LowerString(filename), sizeWord, SplitAll(es)))
    case Uninitialised => Undefined
    case PastBuffer => Refused
  }

  /** Once the header lies whole in the data, opening comes down to the
      directory loop from 0x10, with the identifier left in the buffer. */
  lemma OpenHeader(filename: string, d: seq<Byte>, sizeWord: nat, n: nat)
    requires |d| >= 12 && d[..4] == Magic
    requires ReadLittleEndian(d[4..8]) == sizeWord && sizeWord < 0x1_0000_0000
    requires ReadBigEndian(d[8..12]) == n && n < 0x8000_0000
    ensures OpenArchive(filename, Some(d)) ==
              Conclude(filename, Signed32(sizeWord), EntriesAsRead(d, DirectoryStart, HeaderBuffer(d[0..4]), n))
  {
    assert CompareFrom(d[0..4], 0) == Got(true);
    assert Word(d[4..8]) == d[4..8];
    assert Word(d[8..12]) == d[8..12];
  }

  // ---------------------------------------------------------------------
  // The directory written back

  function EncodeEntry(e: RawEntry): (b: seq<Byte>)
    requires e.offset < 0x1_0000_0000 && e.size < 0x1_0000_0000
  {
    BigEndian(e.offset, 4) + BigEndian(e.size, 4) + e.name + [0]
  }

  /** An entry the format can hold: 32-bit offset and size, a name with no
      NUL in it. */
  predicate Storable(e: RawEntry) {
    e.offset < 0x1_0000_0000 && e.size < 0x1_0000_0000 && forall i :: 0 <= i < |e.name| ==> e.name[i] != 0
  }

  predicate AllStorable(es: seq<RawEntry>) {
    forall i :: 0 <= i < |es| ==> Storable(es[i])
  }

  function EncodeEntries(es: seq<RawEntry>): seq<Byte>
    requires AllStorable(es)
  {
    if es == [] then []
    else
      assert Storable(es[0]);
      assert AllStorable(es[1..]) by {
        assert forall i :: 0 <= i < |es| - 1 ==> es[1..][i] == es[i + 1];
      }
      EncodeEntry(es[0]) + EncodeEntries(es[1..])
  }

  /** An archive image with the given size word and directory; the four
      bytes at 12 are not read and are written as zeros. The image is the
      identifier and a 16-byte header, then the directory from 0x10. */
  function EncodeArchive(sizeWord: nat, es: seq<RawEntry>): (d: seq<Byte>)
    requires sizeWord < 0x1_0000_0000 && |es| < 0x8000_0000
    requires AllStorable(es)
    ensures |d| >= DirectoryStart && d[..4] == Magic && d[DirectoryStart..] == EncodeEntries(es)
  {
    Magic + LittleEndian(sizeWord, 4) + BigEndian(|es|, 4) + [0, 0, 0, 0] + EncodeEntries(es)
  }

  /** The NUL that ends the name. */
  lemma {:induction false} NulFromAt(d: seq<Byte>, pos: nat, k: nat)
    requires pos <= k < |d| && d[k] == 0
    requires forall i :: pos <= i < k ==> d[i] != 0
    ensures NulFrom(d, pos) == k
    decreases k - pos
  {
    if pos < k {
      NulFromAt(d, pos + 1, k);
    }
  }

  /** A slice of the middle part of a concatenation. */
  lemma SliceMiddle(a: seq<Byte>, b: seq<Byte>, c: seq<Byte>, i: nat, j: nat)
    requires i <= j <= |b|
    ensures (a + b + c)[|a| + i..|a| + j] == b[i..j]
  {
    assert (a + b + c)[|a| + i..|a| + j] == (a + b + c)[|a|..|a| + |b|][i..j];
    assert (a + b + c)[|a|..|a| + |b|] == b;
  }

  /** Where `b` lies in `d` at `pos`, so does each piece of it. */
  lemma SubSlice(d: seq<Byte>, pos: nat, b: seq<Byte>, i: nat, j: nat)
    requires pos + |b| <= |d| && d[pos..pos + |b|] == b && i <= j <= |b|
    ensures d[pos + i..pos + j] == b[i..j]
  {
    forall k | 0 <= k < j - i
      ensures d[pos + i..pos + j][k] == b[i..j][k]
    {
      assert b[i + k] == d[pos..pos + |b|][i + k];
    }
  }

  /** The parts of an encoded entry: the two words, the name, the NUL. */
  lemma EncodedParts(e: RawEntry)
    requires Storable(e)
    ensures var b := EncodeEntry(e);
            |b| == 9 + |e.name| && b[0..4] == BigEndian(e.offset, 4) &&
            b[4..8] == BigEndian(e.size, 4) && b[8..8 + |e.name|] == e.name &&
            b[8 + |e.name|] == 0
  {
    var w1, w2 := BigEndian(e.offset, 4), BigEndian(e.size, 4);
    var b := EncodeEntry(e);
    assert b == (w1 + w2) + e.name + [0];
    assert b[0..4] == (w1 + w2)[0..4];
    assert b[4..8] == (w1 + w2)[4..8];
  }

  /** Reading an entry whose name ends at `k`. */
  lemma ReadEntryAt(d: seq<Byte>, pos: nat, k: nat)
    requires pos + 8 <= k < |d| && NulFrom(d, pos + 8) == k
    ensures ReadEntry(d, pos) ==
              Some((RawEntry(ReadBigEndian(d[pos..pos + 4]), ReadBigEndian(d[pos + 4..pos + 8]), d[pos + 8..k]), k + 1))
  {
  }

  /** An encoded entry lying at `pos` reads back as itself, and the next
      entry starts right after it. */
  lemma ReadEncodedEntry(d: seq<Byte>, pos: nat, e: RawEntry)
    requires Storable(e)
    requires pos + |EncodeEntry(e)| <= |d| && d[pos..pos + |EncodeEntry(e)|] == EncodeEntry(e)
    ensures ReadEntry(d, pos) == Some((e, pos + |EncodeEntry(e)|))
  {
    EncodedWords(d, pos, e);
    EncodedName(d, pos, e);
    ReadEntryAt(d, pos, pos + 8 + |e.name|);
  }

  /** The two words of an encoded entry read back as its offset and size. */
  lemma EncodedWords(d: seq<Byte>, pos: nat, e: RawEntry)
    requires Storable(e)
    requires pos + |EncodeEntry(e)| <= |d| && d[pos..pos + |EncodeEntry(e)|] == EncodeEntry(e)
    ensures pos + 8 <= |d|
    ensures ReadBigEndian(d[pos..pos + 4]) == e.offset && ReadBigEndian(d[pos + 4..pos + 8]) == e.size
  {
    var b := EncodeEntry(e);
    EncodedParts(e);
    Pow256Four();
    assert ReadBigEndian(d[pos..pos + 4]) == e.offset by {
      SubSlice(d, pos, b, 0, 4);
      BigEndianRoundTrip(e.offset, 4);
    }
    SubSlice(d, pos, b, 4, 8);
    BigEndianRoundTrip(e.size, 4);
  }

  /** The name of an encoded entry ends at the NUL written after it. */
  lemma EncodedName(d: seq<Byte>, pos: nat, e: RawEntry)
    requires Storable(e)
    requires pos + |EncodeEntry(e)| <= |d| && d[pos..pos + |EncodeEntry(e)|] == EncodeEntry(e)
    ensures pos + 8 + |e.name| < |d|
    ensures NulFrom(d, pos + 8) == pos + 8 + |e.name| && d[pos + 8..pos + 8 + |e.name|] == e.name
  {
    var b := EncodeEntry(e);
    var m := |e.name|;
    EncodedParts(e);
    SubSlice(d, pos, b, 8, 8 + m);
    assert d[pos + 8 + m] == b[8 + m];
    NameEndsAtNul(d, pos + 8, e.name);
  }

  /** A NUL-free name stored at `pos` and followed by a NUL ends there. */
  lemma NameEndsAtNul(d: seq<Byte>, pos: nat, name: seq<Byte>)
    requires pos + |name| < |d| && d[pos..pos + |name|] == name && d[pos + |name|] == 0
    requires forall i :: 0 <= i < |name| ==> name[i] != 0
    ensures NulFrom(d, pos) == pos + |name|
  {
    forall i | pos <= i < pos + |name| ensures d[i] != 0 {
      assert d[i] == d[pos..pos + |name|][i - pos];
    }
    NulFromAt(d, pos, pos + |name|);
  }

  /** Encoded entries lying at `pos` read back as themselves, in order. */
  lemma {:induction false} ReadEncodedEntries(d: seq<Byte>, pos: nat, es: seq<RawEntry>)
    requires AllStorable(es)
    requires pos + |EncodeEntries(es)| <= |d| && d[pos..pos + |EncodeEntries(es)|] == EncodeEntries(es)
    ensures ReadEntries(d, pos, |es|) == Some(es)
    decreases |es|
  {
    if es != [] {
      EncodeEntriesCons(es);
      var head := EncodeEntry(es[0]);
      var tail := EncodeEntries(es[1..]);
      SplitAt(d, pos, head, tail);
      var next: nat := pos + |head|;
      ReadEncodedEntryTo(d, pos, es[0], next);
      ReadEncodedEntries(d, next, es[1..]);
      ReadEntriesStep(d, pos, |es[1..]|, es[0], next, es[1..]);
      assert [es[0]] + es[1..] == es;
    }
  }

  /** The encoding of a non-empty directory: its first entry, then the
      rest. */
  lemma EncodeEntriesCons(es: seq<RawEntry>)
    requires AllStorable(es) && es != []
    ensures Storable(es[0]) && AllStorable(es[1..])
    ensures EncodeEntries(es) == EncodeEntry(es[0]) + EncodeEntries(es[1..])
  {
    assert Storable(es[0]);
    assert forall i :: 0 <= i < |es| - 1 ==> es[1..][i] == es[i + 1];
  }

  /** Where `a + b` lies in `d` at `pos`, `a` lies at `pos` and `b` right
      after it. */
  lemma SplitAt(d: seq<Byte>, pos: nat, a: seq<Byte>, b: seq<Byte>)
    requires pos + |a + b| <= |d| && d[pos..pos + |a + b|] == a + b
    ensures d[pos..pos + |a|] == a && d[pos + |a|..pos + |a| + |b|] == b
  {
    SubSlice(d, pos, a + b, 0, |a|);
    SubSlice(d, pos, a + b, |a|, |a| + |b|);
    assert (a + b)[0..|a|] == a;
    assert (a + b)[|a|..|a| + |b|] == b;
  }

  /** One entry read, then the rest. */
  lemma ReadEntriesStep(d: seq<Byte>, pos: nat, m: nat, e: RawEntry, next: nat, rest: seq<RawEntry>)
    requires pos <= |d| && ReadEntry(d, pos) == Some((e, next))
    requires next <= |d| && ReadEntries(d, next, m) == Some(rest)
    ensures ReadEntries(d, pos, m + 1) == Some([e] + rest)
  {
  }

  /** `ReadEncodedEntry` with the position after the entry named. */
  lemma ReadEncodedEntryTo(d: seq<Byte>, pos: nat, e: RawEntry, next: nat)
    requires Storable(e) && next == pos + |EncodeEntry(e)|
    requires next <= |d| && d[pos..next] == EncodeEntry(e)
    ensures ReadEntry(d, pos) == Some((e, next))
  {
    ReadEncodedEntry(d, pos, e);
  }

  /** The fields of an encoded archive's header. */
  lemma EncodedHeader(sizeWord: nat, es: seq<RawEntry>)
    requires sizeWord < 0x1_0000_0000 && |es| < 0x8000_0000
    requires AllStorable(es)
    ensures var d := EncodeArchive(sizeWord, es);
            |d| >= DirectoryStart && d[..4] == Magic &&
            ReadLittleEndian(d[4..8]) == sizeWord && ReadBigEndian(d[8..12]) == |es|
  {
    var lw, bw := LittleEndian(sizeWord, 4), BigEndian(|es|, 4);
    var d := EncodeArchive(sizeWord, es);
    assert d == Magic + (lw + bw + [0, 0, 0, 0]) + EncodeEntries(es);
    assert d[..4] == Magic;
    SliceMiddle(Magic, lw + bw + [0, 0, 0, 0], EncodeEntries(es), 0, 4);
    SliceMiddle(Magic, lw + bw + [0, 0, 0, 0], EncodeEntries(es), 4, 8);
    assert (lw + bw + [0, 0, 0, 0])[0..4] == lw;
    assert (lw + bw + [0, 0, 0, 0])[4..8] == bw;
    Pow256Four();
    LittleEndianRoundTrip(sizeWord, 4);
    BigEndianRoundTrip(|es|, 4);
  }

  /** Every name shorter than the name buffer. */
  predicate Fits(es: seq<RawEntry>) {
    forall i :: 0 <= i < |es| ==> |es[i].name| < MaxPath
  }

  /** Where the data holds a NUL less than `MaxPath` bytes after the name
      that starts at `p0`, the loop reads the name up to it and stops there,
      whatever the buffer held. */
  lemma {:induction false} NameLoopReadsName(d: seq<Byte>, p0: nat, buf: seq<Option<Byte>>, i: nat, nul: nat)
    requires |buf| == MaxPath && p0 + i <= nul < |d| && nul - p0 < MaxPath && d[nul] == 0
    requires forall j :: p0 + i <= j < nul ==> d[j] != 0
    requires forall j :: 0 <= j < i ==> buf[j].Some? && buf[j].value != 0
    ensures var r := NameLoop(d, p0 + i, buf, i);
            r.Got? && r.value.nul == nul - p0 && r.value.next == nul + 1 &&
            (forall j :: 0 <= j < i ==> r.value.buf[j] == buf[j]) &&
            forall j :: i <= j <= r.value.nul ==> r.value.buf[j] == Some(d[p0 + j])
    decreases nul - p0 - i
  {
    var b := buf[i := Some(d[p0 + i])];
    if p0 + i < nul {
      assert NameLoop(d, p0 + i, buf, i) == NameLoop(d, p0 + i + 1, b, i + 1);
      NameLoopReadsName(d, p0, b, i + 1, nul);
    } else {
      assert NameLoop(d, p0 + i, buf, i) == Got(NameEnd(b, p0 + i + 1, i));
    }
  }

  /** At the end of the data the loop reads nothing and stops at the first
      NUL the buffer already holds. */
  lemma {:induction false} NameLoopStale(d: seq<Byte>, pos: nat, buf: seq<Option<Byte>>, i: nat, k: nat)
    requires |buf| == MaxPath && pos >= |d| && i <= k < MaxPath && buf[k] == Some(0)
    requires forall j :: 0 <= j < k ==> buf[j].Some? && buf[j].value != 0
    ensures NameLoop(d, pos, buf, i) == Got(NameEnd(buf, pos, k))
    decreases k - i
  {
    if i < k {
      NameLoopStale(d, pos, buf, i + 1, k);
    }
  }

  /** A name with no NUL in its first `MaxPath` bytes fills the buffer. */
  lemma {:induction false} NameLoopOverflows(d: seq<Byte>, p0: nat, buf: seq<Option<Byte>>, i: nat)
    requires |buf| == MaxPath && i <= MaxPath && p0 + MaxPath <= |d|
    requires forall j :: 0 <= j < i ==> buf[j].Some? && buf[j].value != 0
    requires forall j :: p0 + i <= j < p0 + MaxPath ==> d[j] != 0
    ensures NameLoop(d, p0 + i, buf, i) == PastBuffer
    decreases MaxPath - i
  {
    if i < MaxPath {
      NameLoopOverflows(d, p0, buf[i := Some(d[p0 + i])], i + 1);
    }
  }

  /** An entry lying whole in the data, with a name shorter than the
      buffer, reads as laid out: the same offset, size and name, and the
      same next position, whatever the buffer held before. */
  lemma EntryAgrees(d: seq<Byte>, pos: nat, buf: seq<Option<Byte>>)
    requires |buf| == MaxPath && pos <= |d|
    requires ReadEntry(d, pos).Some? && |ReadEntry(d, pos).value.0.name| < MaxPath
    ensures var r := EntryAsRead(d, pos, buf);
            r.Got? && r.value.entry == ReadEntry(d, pos).value.0 && r.value.next == ReadEntry(d, pos).value.1
  {
    var k := NulFrom(d, pos + 8);
    var o, s := d[pos..pos + 4], d[pos + 4..pos + 8];
    assert LocalFile.ReadAt(d, pos, 4) == o && LocalFile.ReadAt(d, pos + 4, 4) == s;
    assert Word(o) == o && Word(s) == s;
    NameLoopName(d, pos + 8, buf);
    EntryAsReadParts(d, pos, buf);
  }

  /** `NameLoopReadsName` from the start of the name: the bytes stored are
      the name. */
  lemma NameLoopName(d: seq<Byte>, p0: nat, buf: seq<Option<Byte>>)
    requires |buf| == MaxPath && p0 <= |d|
    requires NulFrom(d, p0) < |d| && NulFrom(d, p0) - p0 < MaxPath
    ensures var r := NameLoop(d, p0, buf, 0);
            r.Got? && r.value.next == NulFrom(d, p0) + 1 && r.value.nul == NulFrom(d, p0) - p0 &&
            NameBytes(r.value.buf, r.value.nul) == d[p0..NulFrom(d, p0)]
  {
    NameLoopReadsName(d, p0, buf, 0, NulFrom(d, p0));
    var r := NameLoop(d, p0, buf, 0);
    NameBytesRead(r.value.buf, r.value.nul, d, p0);
  }

  /** Name bytes stored one by one from the data are the data. */
  lemma NameBytesRead(b: seq<Option<Byte>>, n: nat, d: seq<Byte>, p0: nat)
    requires n <= |b| && p0 + n <= |d|
    requires forall j :: 0 <= j < n ==> b[j] == Some(d[p0 + j])
    ensures NameBytes(b, n) == d[p0..p0 + n]
  {
    var name := NameBytes(b, n);
    forall j | 0 <= j < n
      ensures name[j] == d[p0..p0 + n][j]
    {
      assert b[j] == Some(name[j]);
    }
  }

  /** A directory lying whole in the data, with every name shorter than
      the buffer, reads as laid out. */
  lemma {:induction false} EntriesAgree(d: seq<Byte>, pos: nat, buf: seq<Option<Byte>>, es: seq<RawEntry>)
    requires |buf| == MaxPath && pos <= |d|
    requires ReadEntries(d, pos, |es|) == Some(es) && Fits(es)
    ensures EntriesAsRead(d, pos, buf, |es|) == Got(es)
    decreases |es|
  {
    if es != [] {
      var next, b := FirstAgrees(d, pos, buf, es);
      EntriesAgree(d, next, b, es[1..]);
      EntriesAsReadStep(d, pos, buf, |es|, es[0], next, b, es[1..]);
      assert [es[0]] + es[1..] == es;
    }
  }

  /** The first pass of the directory loop reads the first entry as laid
      out, and the rest of the directory lies whole after it. */
  lemma FirstAgrees(d: seq<Byte>, pos: nat, buf: seq<Option<Byte>>, es: seq<RawEntry>)
      returns (next: nat, b: seq<Option<Byte>>)
    requires |buf| == MaxPath && pos <= |d| && es != []
    requires ReadEntries(d, pos, |es|) == Some(es) && Fits(es)
    ensures EntryAsRead(d, pos, buf) == Got(Pass(es[0], next, b))
    ensures |b| == MaxPath && next <= |d|
    ensures ReadEntries(d, next, |es| - 1) == Some(es[1..]) && Fits(es[1..])
  {
    next := ReadEntriesHead(d, pos, es);
    EntryAgrees(d, pos, buf);
    b := EntryAsRead(d, pos, buf).value.buf;
    assert Fits(es[1..]) by {
      forall i | 0 <= i < |es| - 1 ensures |es[1..][i].name| < MaxPath {
        assert es[1..][i] == es[i + 1];
      }
    }
  }

  lemma ReadEntriesHead(d: seq<Byte>, pos: nat, es: seq<RawEntry>) returns (next: nat)
    requires pos <= |d| && es != [] && ReadEntries(d, pos, |es|) == Some(es)
    ensures ReadEntry(d, pos) == Some((es[0], next))
    ensures next <= |d| && ReadEntries(d, next, |es| - 1) == Some(es[1..])
  {
    next := ReadEntry(d, pos).value.1;
    var rest := ReadEntries(d, next, |es| - 1).value;
    assert [ReadEntry(d, pos).value.0] + rest == es;
  }

  /** One pass of the directory loop, then the rest. */
  lemma EntriesAsReadStep(d: seq<Byte>, pos: nat, buf: seq<Option<Byte>>, n: nat,
                          e: RawEntry, p: nat, b: seq<Option<Byte>>, rest: seq<RawEntry>)
    requires |buf| == MaxPath && n > 0 && EntryAsRead(d, pos, buf) == Got(Pass(e, p, b))
    requires EntriesAsRead(d, p, b, n - 1) == Got(rest)
    ensures EntriesAsRead(d, pos, buf, n) == Got([e] + rest)
  {
  }

  /** Opening data whose header holds the magic, a size word and a
      non-negative count, and whose directory lies whole after it with
      every name shorter than the buffer. */
  lemma OpenArchiveOf(filename: string, d: seq<Byte>, sizeWord: nat, es: seq<RawEntry>)
    requires |d| >= DirectoryStart && d[..4] == Magic
    requires ReadLittleEndian(d[4..8]) == sizeWord && sizeWord < 0x1_0000_0000
    requires ReadBigEndian(d[8..12]) == |es| && |es| < 0x8000_0000
    requires ReadEntries(d, DirectoryStart, |es|) == Some(es) && Fits(es)
    ensures OpenArchive(filename, Some(d)) == Opened(Archive(LowerString(filename), Signed32(sizeWord), SplitAll(es)))
  {
    OpenHeader(filename, d, sizeWord, |es|);
    EntriesAgree(d, DirectoryStart, HeaderBuffer(d[0..4]), es);
  }

  /** Decoding an encoded archive gives its directory back: every entry in
      order, with its offset, its size and its name split into path and
      lower-cased file name. */
  lemma DecodeEncoded(filename: string, sizeWord: nat, es: seq<RawEntry>)
    requires sizeWord < 0x1_0000_0000 && |es| < 0x8000_0000
    requires AllStorable(es) && Fits(es)
    ensures OpenArchive(filename, Some(EncodeArchive(sizeWord, es))) ==
              Opened(Archive(LowerString(filename), Signed32(sizeWord), SplitAll(es)))
  {
    var header := Magic + LittleEndian(sizeWord, 4) + BigEndian(|es|, 4) + [0, 0, 0, 0];
    var d := EncodeArchive(sizeWord, es);
    var body := EncodeEntries(es);
    assert d == header + body;
    assert d[|header|..|header| + |body|] == body;
    EncodedHeader(sizeWord, es);
    ReadEncodedEntries(d, |header|, es);
    OpenArchiveOf(filename, d, sizeWord, es);
  }

  /** Each decoded entry puts its name back together: path then file name,
      with the file name lower-cased. */
  lemma SplitJoins(e: RawEntry)
    ensures var f := Split(e);
            var name := Chars(e.name);
            f.path + f.filename == name[..|f.path|] + LowerString(name[|f.path|..])
  {
  }

  // ---------------------------------------------------------------------
  // Short data and long names

  /** A word the data ends before holds 0. */
  lemma EmptyWord()
    ensures ReadBigEndian(Word([])) == 0 && ReadLittleEndian(Word([])) == 0
  {
    assert Word([]) == [0, 0, 0, 0];
    ZeroWord();
  }

  lemma ZeroWord()
    ensures ReadBigEndian([0, 0, 0, 0]) == 0 && ReadLittleEndian([0, 0, 0, 0]) == 0
  {
    assert [0, 0, 0, 0][..3] == [0, 0, 0];
    assert [0, 0, 0][..2] == [0, 0];
    assert [0, 0][..1] == [0];
    assert [0, 0, 0, 0][1..] == [0, 0, 0];
  }

  /** A file holding only "BIGF" opens as an empty archive: the size and
      count words are never read into and stay 0. */
  lemma IdentifierAloneOpensEmpty(filename: string)
    ensures OpenArchive(filename, Some(Magic)) == Opened(Archive(LowerString(filename), 0, []))
  {
    assert Magic[0..4] == Magic;
    EmptyWord();
  }

  /** At the end of the data a pass of the directory loop still yields an
      entry: offset 0, size 0, and the name the buffer holds up to its
      first NUL. */
  lemma EntryPastEnd(d: seq<Byte>, pos: nat, buf: seq<Option<Byte>>, k: nat)
    requires |buf| == MaxPath && pos >= |d| && k < MaxPath && buf[k] == Some(0)
    requires forall j :: 0 <= j < k ==> buf[j].Some? && buf[j].value != 0
    ensures var r := EntryAsRead(d, pos, buf);
            r.Got? && r.value.next == pos &&
            r.value.entry.offset == 0 && r.value.entry.size == 0 && r.value.entry.name == NameBytes(buf, k)
  {
    NameLoopStale(d, pos, buf, 0, k);
    EntryAsReadAtEnd(d, pos, buf);
  }

  /** At the end of the data the words read nothing and stay 0, and the
      name is whatever the loop finds in the buffer. */
  lemma EntryAsReadAtEnd(d: seq<Byte>, pos: nat, buf: seq<Option<Byte>>)
    requires |buf| == MaxPath && pos >= |d|
    ensures var loop := NameLoop(d, pos, buf, 0);
            var r := EntryAsRead(d, pos, buf);
            (r.Got? <==> loop.Got?) &&
            (loop.Got? && r.Got? ==> r.value.next == loop.value.next) &&
            (loop.Got? && r.Got? ==> r.value.entry.offset == 0 && r.value.entry.size == 0) &&
            (loop.Got? && r.Got? ==> r.value.entry.name == NameBytes(loop.value.buf, loop.value.nul))
  {
    var o := LocalFile.ReadAt(d, pos, 4);
    assert o == [] && LocalFile.ReadAt(d, pos + |o|, 4) == [];
    EmptyWord();
    EntryAsReadParts(d, pos, buf);
  }

  /** `EntryAsRead` in terms of its two word reads and its name loop. */
  lemma EntryAsReadParts(d: seq<Byte>, pos: nat, buf: seq<Option<Byte>>)
    requires |buf| == MaxPath
    ensures var o := LocalFile.ReadAt(d, pos, 4);
            var s := LocalFile.ReadAt(d, pos + |o|, 4);
            var loop := NameLoop(d, pos + |o| + |s|, buf, 0);
            var r := EntryAsRead(d, pos, buf);
            (r.Got? <==> loop.Got?) &&
            (loop.Got? && r.Got? ==> r.value.next == loop.value.next) &&
            (loop.Got? && r.Got? ==> r.value.entry.offset == ReadBigEndian(Word(o)) && r.value.entry.size == ReadBigEndian(Word(s))) &&
            (loop.Got? && r.Got? ==> r.value.entry.name == NameBytes(loop.value.buf, loop.value.nul))
  {
  }

  /** A header that announces one entry with no directory after it: the
      entry is "BIGF", which the identifier check left in the buffer, at
      offset 0 with size 0. */
  lemma MissingDirectoryReadsIdentifier(filename: string, d: seq<Byte>, sizeWord: nat)
    requires 12 <= |d| <= DirectoryStart && d[..4] == Magic
    requires ReadLittleEndian(d[4..8]) == sizeWord && sizeWord < 0x1_0000_0000
    requires ReadBigEndian(d[8..12]) == 1
    ensures OpenArchive(filename, Some(d)) ==
              Opened(Archive(LowerString(filename), Signed32(sizeWord), [ArchivedFile([], "bigf", 0, 0)]))
  {
    OpenHeader(filename, d, sizeWord, 1);
    IdentifierEntry(d, d[0..4]);
    SplitIdentifier();
    assert SplitAll([RawEntry(0, 0, d[0..4])]) == [ArchivedFile([], "bigf", 0, 0)];
  }

  /** Past the end of the data, one pass of the directory loop reads the
      identifier that the comparison left in the buffer, NUL included. */
  lemma IdentifierEntry(d: seq<Byte>, id: seq<Byte>)
    requires |d| <= DirectoryStart && |id| == 4 && forall j :: 0 <= j < 4 ==> id[j] != 0
    ensures EntriesAsRead(d, DirectoryStart, HeaderBuffer(id), 1) == Got([RawEntry(0, 0, id)])
  {
    var buf := HeaderBuffer(id);
    var b := IdentifierPass(d, id);
    assert EntriesAsRead(d, DirectoryStart, b, 0) == Got([]);
    EntriesAsReadStep(d, DirectoryStart, buf, 1, RawEntry(0, 0, id), DirectoryStart, b, []);
    assert [RawEntry(0, 0, id)] + [] == [RawEntry(0, 0, id)];
  }

  /** The pass itself: offset 0, size 0, the identifier as name, and the
      position unchanged. */
  lemma IdentifierPass(d: seq<Byte>, id: seq<Byte>) returns (b: seq<Option<Byte>>)
    requires |d| <= DirectoryStart && |id| == 4 && forall j :: 0 <= j < 4 ==> id[j] != 0
    ensures EntryAsRead(d, DirectoryStart, HeaderBuffer(id)) == Got(Pass(RawEntry(0, 0, id), DirectoryStart, b))
    ensures |b| == MaxPath
  {
    var buf := HeaderBuffer(id);
    EntryPastEnd(d, DirectoryStart, buf, 4);
    assert NameBytes(buf, 4) == id;
    b := EntryAsRead(d, DirectoryStart, buf).value.buf;
  }

  /** "BIGF" has no directory part and lower-cases to "bigf". */
  lemma SplitIdentifier()
    ensures Split(RawEntry(0, 0, Magic)) == ArchivedFile([], "bigf", 0, 0)
  {
    var name := Chars(Magic);
    assert name == "BIGF";
    DirEndIsLastSep(name, 0);
    assert LowerString(name) == "bigf";
  }

  /** A name that fills the buffer makes the program as written store past
      its end; the loop as modelled stops there (`PastBuffer`), while the
      entry read as laid out holds the whole name. */
  lemma AsWrittenLongNameOverflows(name: seq<Byte>, offset: nat, size: nat, buf: seq<Option<Byte>>)
    requires |name| >= MaxPath && offset < 0x1_0000_0000 && size < 0x1_0000_0000
    requires forall i :: 0 <= i < |name| ==> name[i] != 0
    requires |buf| == MaxPath
    ensures var d := EncodeEntry(RawEntry(offset, size, name));
            NameLoop(d, 8, buf, 0) == PastBuffer &&
            ReadEntry(d, 0) == Some((RawEntry(offset, size, name), |d|))
  {
    var e := RawEntry(offset, size, name);
    var d := EncodeEntry(e);
    assert d[0..|d|] == d;
    ReadEncodedEntry(d, 0, e);
    EncodedName(d, 0, e);
    NameLoopOverflows(d, 8, buf, 0);
  }

  /** The archive is refused when its first name fills the buffer. */
  lemma LongFirstNameRefused(filename: string, sizeWord: nat, es: seq<RawEntry>)
    requires sizeWord < 0x1_0000_0000 && |es| < 0x8000_0000
    requires AllStorable(es) && es != [] && |es[0].name| >= MaxPath
    ensures OpenArchive(filename, Some(EncodeArchive(sizeWord, es))) == Refused
  {
    var header := Magic + LittleEndian(sizeWord, 4) + BigEndian(|es|, 4) + [0, 0, 0, 0];
    var d := EncodeArchive(sizeWord, es);
    EncodeEntriesCons(es);
    var head, tail := EncodeEntry(es[0]), EncodeEntries(es[1..]);
    assert d == header + head + tail;
    assert d[16..16 + |head|] == head;
    EncodedHeader(sizeWord, es);
    OpenHeader(filename, d, sizeWord, |es|);
    EncodedName(d, 16, es[0]);
    NameLoopOverflows(d, 24, HeaderBuffer(d[0..4]), 0);
  }
}
