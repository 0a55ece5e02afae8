/** Helpers of the network layer (`NetworkUtil`): which command types need a
    command id, an acknowledgement, synchronisation or a direct send; the
    command-id counter; the names of command types; and the layout of the
    debug packet dump. */
module NetworkUtil {
  import opened Common

  datatype NetCommandType =
    | AckBoth | AckStage1 | AckStage2 | FrameInfo | GameCommand | PlayerLeave
    | RunAheadMetrics | RunAhead | DestroyPlayer | KeepAlive | DisconnectChat | Chat
    | ManglerQuery | ManglerResponse | Progress | LoadComplete | TimeoutStart | Wrapper
    | File | FileAnnounce | FileProgress | DisconnectKeepAlive | DisconnectPlayer
    | PacketRouterQuery | PacketRouterAck | DisconnectVote | DisconnectFrame
    | DisconnectScreenOff | FrameResendRequest
    /** Any other value of the enumeration. */
    | Unlisted(code: int)

  /** `DoesCommandRequireACommandID`. Acknowledgements, keep-alives and
      unlisted values are never given an id. */
  predicate RequiresCommandId(t: NetCommandType)
    ensures RequiresCommandId(t) ==> !t.Unlisted? && !t.KeepAlive? && !t.DisconnectKeepAlive?
    ensures RequiresCommandId(t) ==> !t.AckBoth? && !t.AckStage1? && !t.AckStage2?
  {
    t in {GameCommand, FrameInfo, PlayerLeave, DestroyPlayer, RunAheadMetrics, RunAhead, Chat,
          DisconnectVote, LoadComplete, TimeoutStart, Wrapper, File, FileAnnounce, FileProgress,
          DisconnectPlayer, DisconnectFrame, DisconnectScreenOff, FrameResendRequest}
  }

  /** `CommandRequiresAck` (which lists DISCONNECTPLAYER twice). The
      acknowledged commands are exactly those given a command id. */
  predicate RequiresAck(t: NetCommandType)
    ensures RequiresAck(t) <==> RequiresCommandId(t)
  {
    t in {GameCommand, FrameInfo, PlayerLeave, DestroyPlayer, RunAheadMetrics, RunAhead, Chat,
          DisconnectVote, DisconnectPlayer, LoadComplete, TimeoutStart, Wrapper, File,
          FileAnnounce, FileProgress, DisconnectPlayer, DisconnectFrame, DisconnectScreenOff,
          FrameResendRequest}
  }

  /** `IsCommandSynchronized`. A synchronised command is given a command id
      and is never sent directly. */
  predicate IsSynchronized(t: NetCommandType)
    ensures IsSynchronized(t) ==> RequiresCommandId(t) && !RequiresDirectSend(t)
  {
    t in {GameCommand, FrameInfo, PlayerLeave, DestroyPlayer, RunAhead}
  }

  /** `CommandRequiresDirectSend`: the disconnect-screen and file commands.
      Each of them is also acknowledged. */
  predicate RequiresDirectSend(t: NetCommandType)
    ensures RequiresDirectSend(t) ==> RequiresAck(t)
  {
    t in {DisconnectVote, DisconnectPlayer, LoadComplete, TimeoutStart, File, FileAnnounce,
          FileProgress, DisconnectFrame, DisconnectScreenOff, FrameResendRequest}
  }

  /** The command-id counter, a 16-bit value starting at 64000. */
  const FirstCounter := 64000

  /** `GenerateNextCommandID`: increments the counter, wrapping at 2^16, and
      returns the new value. */
  function NextCommandId(counter: nat): (r: (nat, nat))
    requires counter < 0x1_0000
    ensures r.0 == r.1 && r.1 < 0x1_0000
    ensures counter < 0xFFFF ==> r.1 == counter + 1
    ensures counter == 0xFFFF ==> r.1 == 0
  {
    var next := (counter + 1) % 0x1_0000;
    (next, next)
  }

  /** The ids handed out by `n` calls in a row, from counter `c`. */
  function Ids(c: nat, n: nat): (r: seq<nat>)
    requires c < 0x1_0000
    ensures |r| == n
    decreases n
  {
    if n == 0 then [] else var (c', id) := NextCommandId(c); [id] + Ids(c', n - 1)
  }

  /** The k-th id of a run is the counter plus k + 1, modulo 2^16; from the
      start the first id is 64001. */
  lemma {:induction false} IdsCountUp(c: nat, n: nat, k: nat)
    requires c < 0x1_0000 && k < n
    ensures Ids(c, n)[k] == (c + k + 1) % 0x1_0000
    decreases n
  {
    IdsStep(c, n, k);
    if k > 0 {
      IdsCountUp(NextCommandId(c).0, n - 1, k - 1);
      WrapShift(c, k - 1);
    }
  }

  /** The first id of a run is the next counter value; the rest are the run
      from there. */
  lemma IdsStep(c: nat, n: nat, k: nat)
    requires c < 0x1_0000 && k < n
    ensures k == 0 ==> Ids(c, n)[k] == (c + 1) % 0x1_0000
    ensures k > 0 ==> Ids(c, n)[k] == Ids(NextCommandId(c).0, n - 1)[k - 1]
  {
  }

  /** Counting on from the wrapped successor is counting on from the counter. */
  lemma WrapShift(c: nat, k: nat)
    requires c < 0x1_0000
    ensures (NextCommandId(c).0 + k + 1) % 0x1_0000 == (c + k + 2) % 0x1_0000
  {
    if c + 1 == 0x1_0000 {
      assert (c + k + 2) % 0x1_0000 == (k + 1) % 0x1_0000;
    }
  }

  lemma FirstIdIs64001()
    ensures Ids(FirstCounter, 1)[0] == 64001
  {
    IdsCountUp(FirstCounter, 1, 0);
  }

  /** The prefix every listed type's name carries. */
  const TypePrefix: string := "NETCOMMANDTYPE_"

  /** `GetNetCommandTypeAsString`: total, "UNKNOWN" for an unlisted value;
      a listed type's name is the prefix and the enumerator's own name, so
      only an unlisted value is "UNKNOWN". */
  function TypeName(t: NetCommandType): (r: string)
    ensures r == "UNKNOWN" <==> t.Unlisted?
    ensures !t.Unlisted? ==> |r| > |TypePrefix| && r[..|TypePrefix|] == TypePrefix
  {
    if t.Unlisted? then "UNKNOWN"
    else
      var r := TypePrefix + TypeSuffix(t);
      assert |r| > |"UNKNOWN"|;
      r
  }

  function TypeSuffix(t: NetCommandType): (r: string)
    requires !t.Unlisted?
    ensures |r| > 0
  {
    match t
    case AckBoth => "ACKBOTH"
    case AckStage1 => "ACKSTAGE1"
    case AckStage2 => "ACKSTAGE2"
    case FrameInfo => "FRAMEINFO"
    case GameCommand => "GAMECOMMAND"
    case PlayerLeave => "PLAYERLEAVE"
    case RunAheadMetrics => "RUNAHEADMETRICS"
    case RunAhead => "RUNAHEAD"
    case DestroyPlayer => "DESTROYPLAYER"
    case KeepAlive => "KEEPALIVE"
    case DisconnectChat => "DISCONNECTCHAT"
    case Chat => "CHAT"
    case ManglerQuery => "MANGLERQUERY"
    case ManglerResponse => "MANGLERRESPONSE"
    case Progress => "PROGRESS"
    case LoadComplete => "LOADCOMPLETE"
    case TimeoutStart => "TIMEOUTSTART"
    case Wrapper => "WRAPPER"
    case File => "FILE"
    case FileAnnounce => "FILEANNOUNCE"
    case FileProgress => "FILEPROGRESS"
    case DisconnectKeepAlive => "DISCONNECTKEEPALIVE"
    case DisconnectPlayer => "DISCONNECTPLAYER"
    case PacketRouterQuery => "PACKETROUTERQUERY"
    case PacketRouterAck => "PACKETROUTERACK"
    case DisconnectVote => "DISCONNECTVOTE"
    case DisconnectFrame => "DISCONNECTFRAME"
    case DisconnectScreenOff => "DISCONNECTSCREENOFF"
    case FrameResendRequest => "FRAMERESENDREQUEST"
  }

  /** `dumpBufferToLog`: the number of 8-byte rows, a partial last row
      included. */
  function DumpRows(len: nat): (n: nat)
    ensures n * 8 >= len && (n == 0 || (n - 1) * 8 < len)
  {
    len / 8 + (if len % 8 != 0 then 1 else 0)
  }

  /** The bytes row `r` shows: from `8r`, at most 8 of them. */
  function RowSpan(len: nat, r: nat): (span: (nat, nat))
    requires r < DumpRows(len)
    ensures span.0 == 8 * r && span.0 < span.1 <= len && span.1 - span.0 <= 8
    ensures span.1 == Min(8 * r + 8, len)
  {
    (8 * r, 8 * r + Min(8, len - 8 * r))
  }

  /** Every byte of the buffer is shown, in row `i / 8`, and in no other. */
  lemma RowsCoverBuffer(len: nat, i: nat, r: nat)
    requires i < len && r < DumpRows(len)
    ensures i / 8 < DumpRows(len)
    ensures RowSpan(len, r).0 <= i < RowSpan(len, r).1 <==> r == i / 8
  {
  }

  /** The text column of the dump: printable characters as they are, anything
      else (including the bytes a signed `char` makes negative) as `.`. */
  function TextColumn(bytes: seq<int>): (r: string)
    ensures |r| == |bytes|
    ensures forall i :: 0 <= i < |bytes| ==>
              r[i] == (if 0x20 <= bytes[i] <= 0x7E then bytes[i] as char else '.')
  {
    if bytes == [] then []
    else [if 0x20 <= bytes[0] <= 0x7E then bytes[0] as char else '.'] + TextColumn(bytes[1..])
  }
}
