// The per-kind adapters between a borrowed view / an owned buffer and the
// `(ptr, extent)` pair a compact Cow stores.
//
// Memory is not a global store here: a pointer carries, beside its address,
// the initialised elements it addresses.  That is sound under Rust's aliasing
// rules, which the model takes as given: borrowed memory does not change for
// the borrow's lifetime and an owned buffer is reachable only through its
// owner.

module Convert {
  import opened Panics
  import opened Codec

  /** The element kinds a Cow can hold.  The set is sealed: exactly these five. */
  datatype Kind = Str | Slice | CStr | OsStr | Path

  /** The address of a buffer that owns no allocation (`NonNull::dangling()`). */
  const DANGLING: nat := 0

  /** `&T`: a borrowed view; its address and its elements. */
  datatype View<T> = View(addr: nat, data: seq<T>)

  /**
   * `T::Owned` (String, Vec<T>, CString, OsString, PathBuf): address,
   * initialised elements and capacity.  For a CString the elements exclude
   * the nul terminator, which the capacity counts.
   */
  datatype Buf<T> = Buf(addr: nat, data: seq<T>, cap: nat)

  /** `NonNull<T::Ptr>` together with the initialised elements it addresses. */
  datatype Ptr<T> = Ptr(addr: nat, mem: seq<T>)

  /**
   * `T::Extent`: the packed word on 64-bit targets, two fields on other
   * targets, and for CStr just "is this owned".
   */
  datatype Extent = Packed(small: Small) | Split(medium: Medium) | Flag(owned: bool)

  /** What `unmake_borrowed` / `unmake_owned` return. */
  datatype Parts<T> = Parts(ptr: Ptr<T>, extent: Extent)

  /** One more than usize::MAX: 2^64 on a 64-bit target, 2^32 on a 32-bit one. */
  function UsizeLimit(wide: bool): nat
  {
    if wide then USIZE_LIMIT else HALF
  }

  /** `IsOwned` for the extent word(s): capacity != 0; for the CStr bool: the bool. */
  predicate IsOwned(e: Extent)
  {
    match e
    case Packed(s) => SmallCapacity(s) != 0
    case Split(m) => MediumCapacity(m) != 0
    case Flag(b) => b
  }

  function Len(e: Extent): nat
    requires !e.Flag?
  {
    if e.Packed? then SmallLen(e.small) else MediumLen(e.medium)
  }

  function Cap(e: Extent): nat
    requires !e.Flag?
  {
    if e.Packed? then SmallCapacity(e.small) else MediumCapacity(e.medium)
  }

  /** The extent representation a kind uses on a target. */
  predicate Fits(k: Kind, wide: bool, e: Extent)
  {
    if k == CStr then e.Flag? else if wide then e.Packed? else e.Split?
  }

  /**
   * `Extent: Default`: length 0 and capacity 0 (or `false` for CStr), i.e. an
   * empty borrowed state.
   */
  function Default(k: Kind, wide: bool): (e: Extent)
    ensures Fits(k, wide, e) && !IsOwned(e)
    ensures !e.Flag? ==> Len(e) == 0
  {
    if k == CStr then Flag(false)
    else if wide then Packed(Small(0))
    else Split(Medium(0, 0))
  }

  /** An owned buffer of a kind, within the target's usize. */
  predicate BufValid<T>(k: Kind, wide: bool, o: Buf<T>)
  {
    if k == CStr then o.cap == |o.data| + 1 && |o.data| < UsizeLimit(wide)
    else |o.data| <= o.cap < UsizeLimit(wide)
  }

  /** Parts whose extent matches the kind and target and does not read past the memory. */
  predicate PartsValid<T>(k: Kind, wide: bool, p: Parts<T>)
  {
    Fits(k, wide, p.extent) &&
    if p.extent.Flag? then |p.ptr.mem| < UsizeLimit(wide)
    else
      Len(p.extent) <= |p.ptr.mem| && Len(p.extent) < UsizeLimit(wide) && Cap(p.extent) < UsizeLimit(wide) &&
      (IsOwned(p.extent) ==> Len(p.extent) <= Cap(p.extent))
  }

  /** Parts the make functions can read. */
  predicate Readable<T>(k: Kind, p: Parts<T>)
  {
    (k == CStr <==> p.extent.Flag?) && (!p.extent.Flag? ==> Len(p.extent) <= |p.ptr.mem|)
  }

  /** The condition under which `unmake_borrowed` does not panic. */
  predicate BorrowedFits(k: Kind, wide: bool, len: nat)
  {
    k == CStr || !wide || len <= LOWER
  }

  /** The condition under which `unmake_owned` does not panic. */
  predicate OwnedFits(k: Kind, wide: bool, cap: nat)
  {
    k == CStr || !wide || cap <= LOWER
  }

  // ---- str and [T]: the two impls are the same code over different element types ----

  /**
   * The compact str/[T] `unmake_borrowed` with the length check it lacks: on
   * a 64-bit target the small extent's `borrowed` with the legacy length
   * assert (`CheckedBorrowed`), on every other target the two-field extent,
   * which holds any length.
   */
  function SliceUnmakeBorrowed<T>(wide: bool, b: View<T>): (r: Checked<Parts<T>>)
    requires |b.data| < UsizeLimit(wide)
    ensures r.Ok? <==> BorrowedFits(Slice, wide, |b.data|)
    ensures r.Ok? ==> PartsValid(Slice, wide, r.value) && !IsOwned(r.value.extent)
    ensures r.Ok? ==> Len(r.value.extent) == |b.data| && SliceMakePtr(r.value) == b
  {
    var ptr := Ptr(b.addr, b.data);
    if wide then
      match CheckedBorrowed(|b.data|)
      case Ok(e) => Ok(Parts(ptr, Packed(e)))
      case Abort(p) => Abort(p)
    else Ok(Parts(ptr, Split(MediumBorrowed(|b.data|))))
  }

  /**
   * The compact str/[T] `unmake_borrowed` as written: the unchecked
   * `small::Extent::borrowed`.  It gives the same parts as
   * `SliceUnmakeBorrowed` whenever the length fits, and beyond that (a length
   * above LOWER on a 64-bit target) parts that read back as owned, with the
   * wrong length.
   */
  function UncheckedSliceUnmakeBorrowed<T>(wide: bool, b: View<T>): (p: Parts<T>)
    requires |b.data| < UsizeLimit(wide)
    ensures BorrowedFits(Slice, wide, |b.data|) ==> SliceUnmakeBorrowed(wide, b) == Ok(p)
    ensures !BorrowedFits(Slice, wide, |b.data|) ==> !p.extent.Flag? && IsOwned(p.extent) && Len(p.extent) != |b.data|
  {
    var ptr := Ptr(b.addr, b.data);
    if !wide then Parts(ptr, Split(MediumBorrowed(|b.data|)))
    else if |b.data| <= LOWER then Parts(ptr, Packed(SmallBorrowed(|b.data|)))
    else UncheckedBorrowedMisclassified(|b.data|); Parts(ptr, Packed(SmallBorrowed(|b.data|)))
  }

  function SliceUnmakeOwned<T>(wide: bool, o: Buf<T>): (r: Checked<Parts<T>>)
    requires BufValid(Slice, wide, o)
    ensures r.Ok? <==> OwnedFits(Slice, wide, o.cap)
    ensures r.Ok? ==> PartsValid(Slice, wide, r.value) && (IsOwned(r.value.extent) <==> o.cap != 0)
    ensures r.Ok? ==> SliceMakeOwned(r.value) == o && SliceMakePtr(r.value) == View(o.addr, o.data)
  {
    var ptr := Ptr(o.addr, o.data);
    if wide then
      match SmallOwned(|o.data|, o.cap)
      case Ok(e) => Ok(Parts(ptr, Packed(e)))
      case Abort(p) => Abort(p)
    else Ok(Parts(ptr, Split(MediumOwned(|o.data|, o.cap))))
  }

  /** `slice_from_raw_parts(ptr, extent.len())`. */
  function SliceMakePtr<T>(p: Parts<T>): View<T>
    requires !p.extent.Flag? && Len(p.extent) <= |p.ptr.mem|
  {
    View(p.ptr.addr, p.ptr.mem[..Len(p.extent)])
  }

  /** `Vec::from_raw_parts(ptr, extent.len(), extent.capacity())`. */
  function SliceMakeOwned<T>(p: Parts<T>): Buf<T>
    requires !p.extent.Flag? && Len(p.extent) <= |p.ptr.mem|
  {
    Buf(p.ptr.addr, p.ptr.mem[..Len(p.extent)], Cap(p.extent))
  }

  // ---- CStr: the extent is a bool ----

  function CStrUnmakeBorrowed<T>(b: View<T>): (p: Parts<T>)
    ensures !IsOwned(p.extent) && p.extent.Flag? && CStrMakePtr(p) == b
  {
    Parts(Ptr(b.addr, b.data), Flag(false))
  }

  function CStrUnmakeOwned<T>(o: Buf<T>): (p: Parts<T>)
    requires o.cap == |o.data| + 1
    ensures IsOwned(p.extent) && p.extent.Flag?
    ensures CStrMakeOwned(p) == o && CStrMakePtr(p) == View(o.addr, o.data)
  {
    Parts(Ptr(o.addr, o.data), Flag(true))
  }

  /** `CStr::from_ptr`: the length is found by the nul scan, i.e. it is all of the memory. */
  function CStrMakePtr<T>(p: Parts<T>): View<T>
  {
    View(p.ptr.addr, p.ptr.mem)
  }

  /** `CString::from_raw`: the allocation is the elements and their nul. */
  function CStrMakeOwned<T>(p: Parts<T>): Buf<T>
  {
    Buf(p.ptr.addr, p.ptr.mem, |p.ptr.mem| + 1)
  }

  // ---- per-kind dispatch; OsStr goes through [u8], Path through OsStr ----

  /** How many delegations a kind's adapter goes through. */
  function Depth(k: Kind): nat
  {
    if k == Path then 2 else if k == OsStr then 1 else 0
  }

  function UnmakeBorrowed<T>(k: Kind, wide: bool, b: View<T>): (r: Checked<Parts<T>>)
    requires |b.data| < UsizeLimit(wide)
    ensures r.Ok? <==> BorrowedFits(k, wide, |b.data|)
    ensures r.Abort? ==> r.panic == LengthOutOfBounds
    ensures r.Ok? ==> PartsValid(k, wide, r.value) && !IsOwned(r.value.extent)
    ensures r.Ok? ==> Readable(k, r.value) && MakePtr(k, r.value) == b
    decreases Depth(k)
  {
    match k
    case Str | Slice => SliceUnmakeBorrowed(wide, b)
    case CStr => Ok(CStrUnmakeBorrowed(b))
    case OsStr => UnmakeBorrowed(Slice, wide, b)
    case Path => UnmakeBorrowed(OsStr, wide, b)
  }

  function UnmakeOwned<T>(k: Kind, wide: bool, o: Buf<T>): (r: Checked<Parts<T>>)
    requires BufValid(k, wide, o)
    ensures r.Ok? <==> OwnedFits(k, wide, o.cap)
    ensures r.Abort? ==> r.panic == CapacityOutOfBounds
    ensures r.Ok? ==> PartsValid(k, wide, r.value) && (IsOwned(r.value.extent) <==> o.cap != 0)
    ensures r.Ok? ==> Readable(k, r.value) && MakeOwned(k, r.value) == o
    decreases Depth(k)
  {
    match k
    case Str | Slice => SliceUnmakeOwned(wide, o)
    case CStr => Ok(CStrUnmakeOwned(o))
    case OsStr => UnmakeOwned(Slice, wide, o)
    case Path => UnmakeOwned(OsStr, wide, o)
  }

  function MakePtr<T>(k: Kind, p: Parts<T>): (v: View<T>)
    requires Readable(k, p)
    ensures v.addr == p.ptr.addr
    decreases Depth(k)
  {
    match k
    case Str | Slice => SliceMakePtr(p)
    case CStr => CStrMakePtr(p)
    case OsStr => MakePtr(Slice, p)
    case Path => MakePtr(OsStr, p)
  }

  /** The owned buffer the parts describe; its view is what `make_ptr` gives. */
  function MakeOwned<T>(k: Kind, p: Parts<T>): (o: Buf<T>)
    requires Readable(k, p)
    ensures View(o.addr, o.data) == MakePtr(k, p)
    decreases Depth(k)
  {
    match k
    case Str | Slice => SliceMakeOwned(p)
    case CStr => CStrMakeOwned(p)
    case OsStr => MakeOwned(Slice, p)
    case Path => MakeOwned(OsStr, p)
  }

  /** Valid owned parts describe a valid owned buffer that owns an allocation. */
  lemma OwnedPartsBuf<T>(k: Kind, wide: bool, p: Parts<T>)
    requires PartsValid(k, wide, p) && IsOwned(p.extent)
    ensures Readable(k, p) && BufValid(k, wide, MakeOwned(k, p)) && MakeOwned(k, p).cap != 0
  {
    if k == OsStr || k == Path {
      assert MakeOwned(k, p) == SliceMakeOwned(p);
    }
  }

  /** OsStr and Path produce exactly the [u8] adapter's parts and values. */
  lemma DelegatesToBytes<T>(k: Kind, wide: bool, b: View<T>, o: Buf<T>, p: Parts<T>)
    requires k == OsStr || k == Path
    requires |b.data| < UsizeLimit(wide) && BufValid(k, wide, o) && Readable(k, p)
    ensures UnmakeBorrowed(k, wide, b) == SliceUnmakeBorrowed(wide, b)
    ensures UnmakeOwned(k, wide, o) == SliceUnmakeOwned(wide, o)
    ensures MakePtr(k, p) == SliceMakePtr(p) && MakeOwned(k, p) == SliceMakeOwned(p)
  {
  }
}
