/** The location byte of a supplemental page-table entry (vm/page.h):
    the LOC_* constants and the setLocation / clrLocation macros. */
module PageFlags {

  /** The LOC_* constants, written as masks. */
  const LOC_ZERO: bv8 := 0x0
  const LOC_SWAP: bv8 := 0x1
  const LOC_FILE: bv8 := 0x2
  const LOC_FRME: bv8 := 0x4

  /** The mask of bit `n` of a byte, `1 << n`. */
  function BitMask(n: nat): bv8
    requires n < 8
  {
    match n
    case 0 => 0x01 case 1 => 0x02 case 2 => 0x04 case 3 => 0x08
    case 4 => 0x10 case 5 => 0x20 case 6 => 0x40 case _ => 0x80
  }

  /** Bit `n` of the location byte. */
  predicate Bit(v: bv8, n: nat)
    requires n < 8
  {
    v & BitMask(n) != 0
  }

  /** setLocation(n, val): `val |= 1 << n`. The shift is done on a C int and
      the result is stored back into a uint8_t, so for 8 <= n < 31 the bit
      falls off and the byte is unchanged; n >= 31 is undefined in C. */
  function SetLocation(n: nat, v: bv8): (r: bv8)
    requires n < 31
    ensures n < 8 ==> Bit(r, n)
    ensures forall m :: 0 <= m < 8 && m != n ==> Bit(r, m) == Bit(v, m)
    ensures n >= 8 ==> r == v
  {
    if n < 8 then v | BitMask(n) else v
  }

  /** clrLocation(n, val): `val &= ~(1 << n)`. */
  function ClrLocation(n: nat, v: bv8): (r: bv8)
    requires n < 31
    ensures n < 8 ==> !Bit(r, n)
    ensures forall m :: 0 <= m < 8 && m != n ==> Bit(r, m) == Bit(v, m)
    ensures n >= 8 ==> r == v
  {
    if n < 8 then v & !BitMask(n) else v
  }

  lemma SetLocationIdempotent(n: nat, v: bv8)
    requires n < 31
    ensures SetLocation(n, SetLocation(n, v)) == SetLocation(n, v)
  {
  }

  /** Clearing a bit undoes setting it when the bit was clear before. */
  lemma ClrUndoesSet(n: nat, v: bv8)
    requires n < 8 && !Bit(v, n)
    ensures ClrLocation(n, SetLocation(n, v)) == v
  {
  }

  /** The macros take a bit index, but the LOC_* constants are masks: used
      as an index, LOC_SWAP selects the LOC_FILE bit and LOC_FILE the
      LOC_FRME bit. This is how the eviction code (vm/frame.c:58) records
      a swapped-out page. */
  lemma SetLocationMisreadsMask()
    ensures SetLocation(LOC_SWAP as nat, 0) == LOC_FILE
    ensures SetLocation(LOC_FILE as nat, 0) == LOC_FRME
    ensures SetLocation(LOC_FRME as nat, 0) == 0x10
    ensures SetLocation(LOC_ZERO as nat, 0) == LOC_SWAP
  {
  }

  /** The evidently intended use: OR the mask itself into the byte. */
  function MarkLocation(mask: bv8, v: bv8): (r: bv8)
    ensures forall m :: 0 <= m < 8 ==> Bit(r, m) == (Bit(mask, m) || Bit(v, m))
  {
    v | mask
  }

  /** Marking a fresh (LOC_ZERO) byte with a location mask yields that mask. */
  lemma MarkFreshIsMask(mask: bv8)
    ensures MarkLocation(mask, LOC_ZERO) == mask
  {
  }
}
