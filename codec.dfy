// The extent codec: the word(s) a compact Cow keeps beside its pointer.
//
// On a 64-bit target (`small`) length and capacity share one usize: the length
// in the low 32 bits, the capacity in the high 32 bits.  On every other target
// (`medium`) they are two plain fields.  A capacity of zero means "borrowed".
// src/extra.rs is an older, textually identical copy of this codec.  The
// legacy `Extra` inside src/convert.rs differs in two ways: it also asserts
// the length, and it has no per-target split (on every target it halves the
// word, so a 32-bit target gets 16-bit halves).  `CheckedBorrowed` and
// `CheckedOwned` model its 64-bit instance, which is the current 64-bit
// layout with the length assert added.

module Codec {
  import opened Bits
  import opened Panics

  /** usize::BITS on a 64-bit target. */
  const WORD_BITS: nat := 64
  /** usize::BITS / 2: where the capacity half starts. */
  const SHIFT: nat := 32
  /** usize::MAX >> SHIFT: the low half-word mask. */
  const LOWER: nat := 0xFFFF_FFFF
  /** !LOWER: the high half-word mask. */
  const UPPER: nat := 0xFFFF_FFFF_0000_0000
  const HALF: nat := 0x1_0000_0000
  const USIZE_LIMIT: nat := 0x1_0000_0000_0000_0000

  /** A usize of a 64-bit target. */
  type Usize = n: nat | n < 0x1_0000_0000_0000_0000

  /** `small::Extent(usize)`. */
  datatype Small = Small(word: Usize)

  /** `medium::Extent { len, cap }`. */
  datatype Medium = Medium(len: nat, cap: nat)

  lemma LowHalf(w: nat)
    ensures And(w, LOWER) == w % HALF
  {
    Pow2Values();
    AndLowMask(w, 32);
  }

  /** `x & LOWER == x` is the test "x fits the low half-word". */
  lemma FitsLow(x: nat)
    ensures (And(x, LOWER) == x) <==> x <= LOWER
  {
    LowHalf(x);
    if x <= LOWER { DivModUnique(x, HALF, 0, x); }
  }

  lemma HighHalf(w: Usize)
    ensures Shr(And(w, UPPER), SHIFT) == w / HALF
  {
    Pow2Values();
    AndBand(w, 64, 32, UPPER);
    DivModUnique(w - w % HALF, HALF, w / HALF, 0);
  }

  /** Packing a capacity and a length that both fit a half-word is a sum. */
  lemma Pack(cap: nat, len: nat)
    requires cap <= LOWER
    ensures len <= LOWER ==> Or(Shl(cap, SHIFT, WORD_BITS), len) == cap * HALF + len
    ensures len <= LOWER ==> (cap * HALF + len) % HALF == len && (cap * HALF + len) / HALF == cap
  {
    if len <= LOWER {
      Pow2Values();
      assert cap * HALF < USIZE_LIMIT;
      OrDisjoint(cap, len, 32);
      DivModUnique(cap * HALF + len, HALF, cap, len);
    }
  }

  // ---- small (64-bit) ----

  /** `small::Extent::len`: the low half of the word. */
  function SmallLen(e: Small): (n: nat)
    ensures n <= LOWER
    ensures n == e.word % HALF
  {
    LowHalf(e.word);
    And(e.word, LOWER)
  }

  /** `small::Extent::capacity`: the high half of the word. */
  function SmallCapacity(e: Small): (n: nat)
    ensures n <= LOWER
    ensures n == e.word / HALF
  {
    HighHalf(e.word);
    Shr(And(e.word, UPPER), SHIFT)
  }

  /**
   * `small::Extent::borrowed`, as written: the length is stored unchecked, so it
   * reads back correctly, with capacity 0, only when it fits the low half.
   */
  function SmallBorrowed(len: Usize): (e: Small)
    ensures len <= LOWER ==> SmallLen(e) == len && SmallCapacity(e) == 0
  {
    Small(len)
  }

  /** The word `owned` packs for a capacity that passed its assert. */
  function OwnedWord(len: Usize, cap: Usize): (w: Usize)
    requires cap <= LOWER
    ensures len <= LOWER ==> w == cap * HALF + len
    ensures len <= LOWER ==> SmallLen(Small(w)) == len && SmallCapacity(Small(w)) == cap
  {
    PackedFits(len, cap);
    Pack(cap, len);
    Or(Shl(cap, SHIFT, WORD_BITS), len)
  }

  lemma PackedFits(len: Usize, cap: nat)
    ensures Or(Shl(cap, SHIFT, WORD_BITS), len) < USIZE_LIMIT
  {
    Pow2Values();
    OrBound(Shl(cap, SHIFT, WORD_BITS), len, 64);
  }

  /**
   * `small::Extent::owned`: asserts that the capacity fits the low half, then
   * packs `(cap << SHIFT) | len`.
   */
  function SmallOwned(len: Usize, cap: Usize): (r: Checked<Small>)
    ensures r.Ok? <==> cap <= LOWER
    ensures r.Abort? ==> r.panic == CapacityOutOfBounds
    ensures r.Ok? && len <= LOWER ==> r.value.word == cap * HALF + len
    ensures r.Ok? && len <= LOWER ==> SmallLen(r.value) == len && SmallCapacity(r.value) == cap
  {
    FitsLow(cap);
    if And(cap, LOWER) != cap then Abort(CapacityOutOfBounds) else Ok(Small(OwnedWord(len, cap)))
  }

  /**
   * An owned buffer's length never exceeds its capacity, so a capacity that
   * passes the assert also keeps the length inside the low half, and the `|`
   * leaves the capacity bits alone.
   */
  lemma OwnedWithinCapacity(len: Usize, cap: Usize)
    requires len <= cap
    ensures SmallOwned(len, cap).Ok? ==> SmallLen(SmallOwned(len, cap).value) == len
    ensures SmallOwned(len, cap).Ok? ==> SmallCapacity(SmallOwned(len, cap).value) == cap
  {
  }

  /**
   * As written, a borrowed length beyond the low half spills into the
   * capacity bits: the extent reads back as owned, with a wrong length.
   */
  lemma UncheckedBorrowedMisclassified(len: Usize)
    requires LOWER < len
    ensures SmallCapacity(SmallBorrowed(len)) != 0
    ensures SmallLen(SmallBorrowed(len)) != len
  {
  }

  /** The smallest such length, 2^32: capacity 1 and length 0. */
  lemma MisclassifiedAtHalf()
    ensures SmallCapacity(SmallBorrowed(HALF)) == 1
    ensures SmallLen(SmallBorrowed(HALF)) == 0
  {
  }

  // ---- the legacy `Extra` of src/convert.rs, on a 64-bit target ----

  /** Legacy `Extra::borrowed` on a 64-bit target: asserts the length fits the low half. */
  function CheckedBorrowed(len: Usize): (r: Checked<Small>)
    ensures r.Ok? <==> len <= LOWER
    ensures r.Abort? ==> r.panic == LengthOutOfBounds
    ensures r.Ok? ==> SmallLen(r.value) == len && SmallCapacity(r.value) == 0
  {
    FitsLow(len);
    if And(len, LOWER) != len then Abort(LengthOutOfBounds) else Ok(Small(len))
  }

  /** Legacy `Extra::owned` on a 64-bit target: asserts the length, then the capacity, then packs. */
  function CheckedOwned(len: Usize, cap: Usize): (r: Checked<Small>)
    ensures r.Ok? <==> len <= LOWER && cap <= LOWER
    ensures r.Abort? ==> r.panic == (if len <= LOWER then CapacityOutOfBounds else LengthOutOfBounds)
    ensures r.Ok? ==> SmallLen(r.value) == len && SmallCapacity(r.value) == cap
  {
    FitsLow(len);
    if And(len, LOWER) != len then Abort(LengthOutOfBounds) else SmallOwned(len, cap)
  }

  /**
   * On a 64-bit target and an owned buffer (len <= cap) the legacy and current `owned` accept the
   * same buffers and pack them alike; they differ only in which message a
   * rejected buffer panics with (the legacy one checks the length first).
   */
  lemma OwnedAgree(len: Usize, cap: Usize)
    requires len <= cap
    ensures CheckedOwned(len, cap).Ok? <==> SmallOwned(len, cap).Ok?
    ensures CheckedOwned(len, cap).Ok? ==> CheckedOwned(len, cap) == SmallOwned(len, cap)
    ensures SmallOwned(len, cap).Abort? ==> SmallOwned(len, cap).panic == CapacityOutOfBounds
    ensures CheckedOwned(len, cap).Abort? ==>
      CheckedOwned(len, cap).panic == (if len <= LOWER then CapacityOutOfBounds else LengthOutOfBounds)
  {
  }

  // ---- medium (every other target) ----

  /** `medium::Extent::borrowed`: capacity 0. */
  function MediumBorrowed(len: nat): (e: Medium)
    ensures MediumLen(e) == len && MediumCapacity(e) == 0
  {
    Medium(len, 0)
  }

  /** `medium::Extent::owned`: both fields verbatim, no bound. */
  function MediumOwned(len: nat, cap: nat): (e: Medium)
    ensures MediumLen(e) == len && MediumCapacity(e) == cap
  {
    Medium(len, cap)
  }

  function MediumLen(e: Medium): nat
  {
    e.len
  }

  function MediumCapacity(e: Medium): nat
  {
    e.cap
  }
}
