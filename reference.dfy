// The crate's public enum `Cow { Borrowed(&T), Owned(T::Owned) }`, used as
// the abstract value every backend is proved against.

module Reference {
  import opened Convert
  import opened Alloc

  datatype Cow<T> = Borrowed(b: View<T>) | Owned(o: Buf<T>)

  /** `Deref`: the borrowed view, or the view of the owned buffer. */
  function Deref<T>(c: Cow<T>): View<T>
  {
    match c
    case Borrowed(b) => b
    case Owned(o) => View(o.addr, o.data)
  }

  function Content<T>(c: Cow<T>): seq<T>
  {
    Deref(c).data
  }

  /**
   * The value a compact Cow built from the owned buffer `o` stands for: a
   * buffer of capacity zero owns nothing and reads back as borrowed.
   */
  function Adopt<T>(o: Buf<T>): (c: Cow<T>)
    ensures Content(c) == o.data
    ensures c.Owned? <==> o.cap != 0
    ensures c.Owned? ==> c.o == o
  {
    if o.cap != 0 then Owned(o) else Borrowed(View(o.addr, o.data))
  }

  /** An enum value whose pieces are within the target's usize. */
  predicate ValueValid<T>(k: Kind, wide: bool, c: Cow<T>)
  {
    match c
    case Borrowed(b) => |b.data| < UsizeLimit(wide)
    case Owned(o) => BufValid(k, wide, o)
  }

  /** The allocation an enum value is responsible for freeing. */
  function Owns<T>(c: Cow<T>): set<nat>
  {
    if c.Owned? then Allocation(c.o) else {}
  }
}
