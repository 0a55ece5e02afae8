/** Byte-order conversion (`endian_compat.h`): the portable byte swaps, the
    per-platform host/big-endian/little-endian conversion macros and the
    size-dispatching `htobe`/`htole`/`betoh`/`letoh` templates. Values are
    bit-vectors of the conversion's width. */
module EndianCompat {

  /** `bswap16`: the two bytes exchanged. */
  function Bswap16(x: bv16): (r: bv16)
    ensures r & 0xFF == (x >> 8) & 0xFF && (r >> 8) & 0xFF == x & 0xFF
  {
    ((x & 0xFF00) >> 8) | ((x & 0x00FF) << 8)
  }

  /** `bswap32`: byte `k` of the result is byte `3 - k` of the value. */
  function Bswap32(x: bv32): (r: bv32)
    ensures r & 0xFF == (x >> 24) & 0xFF
    ensures (r >> 8) & 0xFF == (x >> 16) & 0xFF
    ensures (r >> 16) & 0xFF == (x >> 8) & 0xFF
    ensures (r >> 24) & 0xFF == x & 0xFF
  {
    ((x & 0xFF00_0000) >> 24) | ((x & 0x00FF_0000) >> 8) | ((x & 0x0000_FF00) << 8) | ((x & 0x0000_00FF) << 24)
  }

  /** `bswap64`: byte `k` of the result is byte `7 - k` of the value. */
  function Bswap64(x: bv64): (r: bv64)
    ensures r & 0xFF == (x >> 56) & 0xFF
    ensures (r >> 8) & 0xFF == (x >> 48) & 0xFF
    ensures (r >> 16) & 0xFF == (x >> 40) & 0xFF
    ensures (r >> 24) & 0xFF == (x >> 32) & 0xFF
    ensures (r >> 32) & 0xFF == (x >> 24) & 0xFF
    ensures (r >> 40) & 0xFF == (x >> 16) & 0xFF
    ensures (r >> 48) & 0xFF == (x >> 8) & 0xFF
    ensures (r >> 56) & 0xFF == x & 0xFF
  {
    ((x & 0xFF00_0000_0000_0000) >> 56) | ((x & 0x00FF_0000_0000_0000) >> 40) |
    ((x & 0x0000_FF00_0000_0000) >> 24) | ((x & 0x0000_00FF_0000_0000) >> 8) |
    ((x & 0x0000_0000_FF00_0000) << 8) | ((x & 0x0000_0000_00FF_0000) << 24) |
    ((x & 0x0000_0000_0000_FF00) << 40) | ((x & 0x0000_0000_0000_00FF) << 56)
  }

  lemma Bswap16Involution(x: bv16)
    ensures Bswap16(Bswap16(x)) == x
  {
  }

  lemma Bswap32Involution(x: bv32)
    ensures Bswap32(Bswap32(x)) == x
  {
  }

  lemma Bswap64Involution(x: bv64)
    ensures Bswap64(Bswap64(x)) == x
  {
  }

  /** Where the conversions come from. On Windows the header defines them as
      macros: the little-endian ones are the bare argument and the big-endian
      ones swap. Elsewhere they come from the C library, whose 16-bit
      conversion takes a 16-bit argument; `BigEndianLibrary` is such a
      platform on a big-endian host. */
  datatype Platform = WindowsMacros | LittleEndianLibrary | BigEndianLibrary

  predicate LittleEndianHost(p: Platform) {
    p != BigEndianLibrary
  }

  /** `le16toh` applied to a value of any width up to 64 bits. The Windows
      macro leaves the argument as it is; a library function first narrows it
      to 16 bits. */
  function Le16toh(p: Platform, x: bv64): (r: bv64)
    ensures p == WindowsMacros ==> r == x
    ensures p != WindowsMacros ==> r < 0x1_0000
    ensures p == LittleEndianLibrary ==> r == x & 0xFFFF
  {
    match p
    case WindowsMacros => x
    case LittleEndianLibrary => x & 0xFFFF
    case BigEndianLibrary => Bswap16((x & 0xFFFF) as bv16) as bv64
  }

  /** `le32toh` / `htole32`: the identity on a little-endian host. */
  function Le32(p: Platform, x: bv32): (r: bv32)
    ensures LittleEndianHost(p) ==> r == x
    ensures !LittleEndianHost(p) ==> r == Bswap32(x)
  {
    if LittleEndianHost(p) then x else Bswap32(x)
  }

  /** `be32toh` / `htobe32`: a swap on a little-endian host. */
  function Be32(p: Platform, x: bv32): (r: bv32)
    ensures LittleEndianHost(p) ==> r == Bswap32(x)
    ensures !LittleEndianHost(p) ==> r == x
  {
    if LittleEndianHost(p) then Bswap32(x) else x
  }

  function Le64(p: Platform, x: bv64): (r: bv64)
    ensures LittleEndianHost(p) ==> r == x
    ensures !LittleEndianHost(p) ==> r == Bswap64(x)
  {
    if LittleEndianHost(p) then x else Bswap64(x)
  }

  function Be64(p: Platform, x: bv64): (r: bv64)
    ensures LittleEndianHost(p) ==> r == Bswap64(x)
    ensures !LittleEndianHost(p) ==> r == x
  {
    if LittleEndianHost(p) then Bswap64(x) else x
  }

  /** Converting to big-endian order and back gives the value again, on every
      platform; likewise for little-endian order. */
  lemma BigEndianRoundTrip32(p: Platform, x: bv32)
    ensures Be32(p, Be32(p, x)) == x && Le32(p, Le32(p, x)) == x
  {
    Bswap32Involution(x);
  }

  lemma BigEndianRoundTrip64(p: Platform, x: bv64)
    ensures Be64(p, Be64(p, x)) == x && Le64(p, Le64(p, x)) == x
  {
    Bswap64Involution(x);
  }

  /** `letohHelper<Type, 4>::swap` as written: it calls the 16-bit conversion
      and casts back to 32 bits. */
  function LetohHelper4AsWritten(p: Platform, x: bv32): bv32 {
    (Le16toh(p, x as bv64) & 0xFFFF_FFFF) as bv32
  }

  /** `letohHelper<Type, 8>::swap` as written: the same 16-bit call. */
  function LetohHelper8AsWritten(p: Platform, x: bv64): bv64 {
    Le16toh(p, x)
  }

  /** With the Windows macros the slip is invisible: the as-written helpers
      return the value unchanged, as `le32toh`/`le64toh` would. */
  lemma AsWrittenHarmlessOnWindows(x: bv32, y: bv64)
    ensures LetohHelper4AsWritten(WindowsMacros, x) == Le32(WindowsMacros, x)
    ensures LetohHelper8AsWritten(WindowsMacros, y) == Le64(WindowsMacros, y)
  {
  }

  /** Where the 16-bit conversion is a library function, the 4- and 8-byte
      helpers drop everything above the low 16 bits: 0x10000 reads back as 0. */
  lemma AsWrittenTruncates()
    ensures LetohHelper4AsWritten(LittleEndianLibrary, 0x1_0000) == 0
    ensures Le32(LittleEndianLibrary, 0x1_0000) == 0x1_0000
    ensures LetohHelper8AsWritten(LittleEndianLibrary, 0x1_0000) == 0
    ensures Le64(LittleEndianLibrary, 0x1_0000) == 0x1_0000
  {
  }

  function Le16(p: Platform, x: bv16): (r: bv16)
    ensures LittleEndianHost(p) ==> r == x
    ensures !LittleEndianHost(p) ==> r == Bswap16(x)
  {
    if LittleEndianHost(p) then x else Bswap16(x)
  }

  function Be16(p: Platform, x: bv16): (r: bv16)
    ensures LittleEndianHost(p) ==> r == Bswap16(x)
    ensures !LittleEndianHost(p) ==> r == x
  {
    if LittleEndianHost(p) then Bswap16(x) else x
  }

  /** A 2-, 4- or 8-byte value handed to the templates, which dispatch on its
      size. */
  datatype Sized = Two(v16: bv16) | Four(v32: bv32) | Eight(v64: bv64)

  /** `letoh` / `htole` with the width-matching conversion, as the 2-byte case
      and all the `htobe`/`htole`/`betoh` cases have it. */
  function Letoh(p: Platform, x: Sized): (r: Sized)
    ensures r.Two? == x.Two? && r.Four? == x.Four? && r.Eight? == x.Eight?
    ensures LittleEndianHost(p) ==> r == x
  {
    match x
    case Two(v) => Two(Le16(p, v))
    case Four(v) => Four(Le32(p, v))
    case Eight(v) => Eight(Le64(p, v))
  }

  /** `betoh` / `htobe`: swapped on a little-endian host. */
  function Betoh(p: Platform, x: Sized): (r: Sized)
    ensures r.Two? == x.Two? && r.Four? == x.Four? && r.Eight? == x.Eight?
    ensures !LittleEndianHost(p) ==> r == x
    ensures LittleEndianHost(p) && x.Four? ==> r == Four(Bswap32(x.v32))
  {
    match x
    case Two(v) => Two(Be16(p, v))
    case Four(v) => Four(Be32(p, v))
    case Eight(v) => Eight(Be64(p, v))
  }

  /** Storing in either order and reading back gives the value, at every
      width and on every platform. */
  lemma TemplateRoundTrips(p: Platform, x: Sized)
    ensures Betoh(p, Betoh(p, x)) == x
    ensures Letoh(p, Letoh(p, x)) == x
  {
    match x
    case Two(v) => Bswap16Involution(v);
    case Four(v) => Bswap32Involution(v);
    case Eight(v) => Bswap64Involution(v);
  }

  /** The `letoh` template as written: the 4- and 8-byte cases go through
      the 16-bit conversion. */
  function LetohAsWritten(p: Platform, x: Sized): (r: Sized)
    ensures x.Two? ==> r == Letoh(p, x)
  {
    match x
    case Two(v) => Two(Le16(p, v))
    case Four(v) => Four(LetohHelper4AsWritten(p, v))
    case Eight(v) => Eight(LetohHelper8AsWritten(p, v))
  }

  /** On a little-endian library platform the as-written 4-byte template
      agrees with the intended one exactly for values that fit in 16 bits. */
  lemma AsWrittenAgreesOnLittleEndianLibraryIff(x: bv32)
    ensures LetohAsWritten(LittleEndianLibrary, Four(x)) == Letoh(LittleEndianLibrary, Four(x)) <==> x < 0x1_0000
  {
  }
}
