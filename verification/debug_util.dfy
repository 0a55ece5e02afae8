/** Two helpers of the debug-message machinery (`Debug.cpp`): whether assert
    dialogs are suppressed, and the scrubbing of control characters from a
    message before it is shown. A message is a sequence of signed `char`
    values, -128 to 127. */
module DebugUtil {

  /** The build and run state `ignoringAsserts` consults. `globalData` is
      false while the global data object does not exist yet. */
  datatype AssertContext = AssertContext(
    windowed: bool, globalData: bool, headless: bool,
    debugCrashing: bool, debugIgnoreAsserts: bool)

  /** `ignoringAsserts`: full-screen, headless, or (in a build with
      crash checks) told to ignore asserts. */
  function IgnoringAsserts(c: AssertContext): (r: bool)
    ensures !c.windowed ==> r
    ensures c.globalData && c.headless ==> r
    ensures c.debugCrashing && c.globalData && c.debugIgnoreAsserts ==> r
  {
    if !c.windowed then true
    else if c.globalData && c.headless then true
    else if c.debugCrashing && c.globalData && c.debugIgnoreAsserts then true
    else false
  }

  /** Asserts are shown only in a window, with the global data present or
      absent, and with neither reason to ignore them. */
  lemma ShownOnlyWhenNoReason(c: AssertContext)
    ensures !IgnoringAsserts(c) <==>
              c.windowed && !(c.globalData && c.headless) &&
              !(c.debugCrashing && c.globalData && c.debugIgnoreAsserts)
  {
  }

  /** Before the global data exists only a full-screen game ignores asserts. */
  lemma NoGlobalDataOnlyFullScreen(c: AssertContext)
    requires !c.globalData
    ensures IgnoringAsserts(c) <==> !c.windowed
  {
  }

  predicate IsSignedChar(c: int) {
    -128 <= c < 128
  }

  /** A character `whackFunnyCharacters` replaces: a control code other than
      line feed and carriage return. Negative values (bytes above 127 in a
      signed `char`) are kept, and so is the space that replaces a funny
      character. */
  predicate IsFunny(c: int)
    ensures IsFunny(c) ==> 0 <= c < 32
    ensures c == 32 || c == 10 || c == 13 ==> !IsFunny(c)
  {
    0 <= c < 32 && c != 10 && c != 13
  }

  /** `whackFunnyCharacters`, the whole buffer up to its terminator. */
  function WhackFunnyCharacters(buf: seq<int>): (r: seq<int>)
    ensures |r| == |buf|
    ensures forall i :: 0 <= i < |buf| ==> r[i] == (if IsFunny(buf[i]) then 32 else buf[i])
  {
    if buf == [] then []
    else WhackFunnyCharacters(buf[..|buf| - 1]) + [if IsFunny(buf[|buf| - 1]) then 32 else buf[|buf| - 1]]
  }

  /** Afterwards no funny character is left, and everything else, including
      line ends and the high bytes, is where it was. */
  lemma WhackedIsClean(buf: seq<int>)
    ensures forall i :: 0 <= i < |buf| ==> !IsFunny(WhackFunnyCharacters(buf)[i])
    ensures forall i :: 0 <= i < |buf| && !IsFunny(buf[i]) ==> WhackFunnyCharacters(buf)[i] == buf[i]
  {
  }

  /** A scrubbed message is still a C string: it has no zero, when the input
      had none, and stays within the range of `char`. */
  lemma WhackedStaysString(buf: seq<int>)
    requires forall i :: 0 <= i < |buf| ==> IsSignedChar(buf[i]) && buf[i] != 0
    ensures forall i :: 0 <= i < |buf| ==>
              IsSignedChar(WhackFunnyCharacters(buf)[i]) && WhackFunnyCharacters(buf)[i] != 0
  {
  }

  lemma WhackIdempotent(buf: seq<int>)
    ensures WhackFunnyCharacters(WhackFunnyCharacters(buf)) == WhackFunnyCharacters(buf)
  {
  }

  /** The loop of `whackFunnyCharacters`, which walks from the last character
      back to the first. */
  method WhackInPlace(buf: seq<int>) returns (r: seq<int>)
    ensures r == WhackFunnyCharacters(buf)
  {
    r := buf;
    var p := |buf|;
    while p > 0
      invariant 0 <= p <= |buf| && |r| == |buf|
      invariant r[..p] == buf[..p]
      invariant forall i :: p <= i < |buf| ==> r[i] == (if IsFunny(buf[i]) then 32 else buf[i])
    {
      p := p - 1;
      if 0 <= r[p] && r[p] < 32 && r[p] != 10 && r[p] != 13 {
        r := r[p := 32];
      }
    }
  }
}
