// The std-enum backend (src/imp/default.rs, src/imp/orig.rs): the backend
// trait implemented directly on `alloc::borrow::Cow`.
//
// Both files agree on every operation; `orig.rs` spells `make_ref` and
// `into_owned` out as matches, `default.rs` adds `apply`.

module StdBackend {
  import opened Panics
  import opened Convert
  import opened Alloc

  /** `alloc::borrow::Cow`. */
  datatype StdCow<T> = Borrowed(b: View<T>) | Owned(o: Buf<T>)

  function IsBorrowed<T>(c: StdCow<T>): (r: bool)
    ensures r <==> c.Borrowed?
  {
    match c
    case Borrowed(_) => true
    case Owned(_) => false
  }

  function IsOwned<T>(c: StdCow<T>): (r: bool)
    ensures r <==> c.Owned?
    ensures r != IsBorrowed(c)
  {
    match c
    case Borrowed(_) => false
    case Owned(_) => true
  }

  /** `make_ref`: the borrowed view, or the owned buffer seen through `Borrow`. */
  function MakeRef<T>(c: StdCow<T>): (v: View<T>)
    ensures c.Borrowed? ==> v == c.b
    ensures c.Owned? ==> v.addr == c.o.addr && v.data == c.o.data
  {
    match c
    case Borrowed(b) => b
    case Owned(o) => View(o.addr, o.data)
  }

  /** A std Cow whose pieces are within the target's usize. */
  predicate ValueValid<T>(k: Kind, wide: bool, c: StdCow<T>)
  {
    match c
    case Borrowed(b) => |b.data| < UsizeLimit(wide)
    case Owned(o) => BufValid(k, wide, o)
  }

  /** The allocation a std Cow is responsible for freeing. */
  function Owns<T>(c: StdCow<T>): set<nat>
  {
    if c.Owned? then Allocation(c.o) else {}
  }

  /** `into_owned`: the owned buffer as it is, or a fresh copy of the borrowed view. */
  method IntoOwned<T>(heap: Heap, k: Kind, c: StdCow<T>) returns (o: Buf<T>)
    requires heap.Valid() && ValueValid(k, heap.wide, c) && Owns(c) <= heap.live
    modifies heap
    ensures heap.Valid() && BufValid(k, heap.wide, o) && o.data == MakeRef(c).data
    ensures Allocation(o) <= heap.live && heap.frees == old(heap.frees)
    ensures c.Owned? ==> o == c.o && heap.live == old(heap.live)
    ensures c.Borrowed? ==> o.cap == OwnedCapacity(k, |c.b.data|) && heap.live == old(heap.live) + Allocation(o)
    ensures c.Borrowed? && o.cap != 0 ==> old(heap.Unused(o.addr))
  {
    match c
    case Borrowed(b) =>
      o := heap.ToOwned(k, b);
    case Owned(x) =>
      o := x;
  }

  class EnumCow<T> {
    const kind: Kind
    const heap: Heap
    var value: StdCow<T>
    ghost var alive: bool

    ghost predicate Valid()
      reads this, heap
    {
      alive && heap.Valid() && ValueValid(kind, heap.wide, value) && Owns(value) <= heap.live
    }

    ghost function Content(): seq<T>
      reads this
    {
      MakeRef(value).data
    }

    constructor Borrowed(heap: Heap, kind: Kind, b: View<T>)
      requires heap.Valid() && |b.data| < UsizeLimit(heap.wide)
      ensures Valid() && this.heap == heap && this.kind == kind
      ensures value == StdCow.Borrowed(b) && !value.Owned?
    {
      this.heap := heap;
      this.kind := kind;
      value := StdCow.Borrowed(b);
      alive := true;
    }

    constructor Owned(heap: Heap, kind: Kind, o: Buf<T>)
      requires heap.Valid() && BufValid(kind, heap.wide, o) && Allocation(o) <= heap.live
      ensures Valid() && this.heap == heap && this.kind == kind
      ensures value == StdCow.Owned(o) && value.Owned?
    {
      this.heap := heap;
      this.kind := kind;
      value := StdCow.Owned(o);
      alive := true;
    }

    /**
     * `apply(f)`: a borrowed Cow clones its view, runs f on the clone and
     * becomes `Owned`; an owned one runs f on its own buffer.  When f panics
     * the clone is dropped and self is left as it was.
     */
    method Apply(f: seq<T> -> Mutation<T>) returns (out: Outcome)
      requires Valid()
      modifies this, heap
      ensures Valid() && old(heap.next) <= heap.next
      ensures out == Panicked(MutatorPanicked) <==> f(old(Content())).Panics?
      ensures out.Panicked? ==> out.panic == MutatorPanicked || out.panic == CapacityOverflow
      ensures out.Completed? ==> value.Owned? && Content() == f(old(Content())).data
      ensures out.Completed? ==> heap.live - Owns(value) == old(heap.live) - old(Owns(value))
      ensures out.Completed? && f(old(Content())).Rebuilds? ==> value.o.cap == RebuiltCapacity(kind, f(old(Content())))
      ensures out.Completed? ==> forall a | a in Owns(value) :: a in old(Owns(value)) || old(heap.next) <= a
      ensures out.Panicked? ==> value == old(value) && heap.live == old(heap.live)
    {
      match value
      case Borrowed(b) =>
        var o := heap.ToOwned(kind, b);
        var m := f(o.data);
        if m.Panics? {
          heap.Release(o);
          return Panicked(MutatorPanicked);
        }
        var r := heap.Replace(kind, o, m);
        if r.Abort? {
          heap.Release(o);
          return Panicked(r.panic);
        }
        value := StdCow.Owned(r.value);
        out := Completed;
      case Owned(o) =>
        var m := f(o.data);
        if m.Panics? {
          return Panicked(MutatorPanicked);
        }
        var r := heap.Replace(kind, o, m);
        if r.Abort? {
          return Panicked(r.panic);
        }
        value := StdCow.Owned(r.value);
        out := Completed;
    }

    /** `Drop`: frees the buffer of an `Owned` value. */
    method Drop()
      requires Valid()
      modifies this`alive, heap
      ensures !alive && heap.Valid() && old(heap.next) <= heap.next
      ensures heap.live == old(heap.live) - old(Owns(value))
      ensures heap.frees == old(heap.frees) + (if old(value.Owned?) then AllocationLog(old(value).o) else [])
    {
      if value.Owned? {
        heap.Release(value.o);
      }
      alive := false;
    }
  }

  /**
   * An owned allocation of the std backend is freed exactly once whether
   * `apply` completes (a reallocation frees it, or the drop does) or panics
   * (the drop does).
   */
  method ApplyThenDrop<T>(c: EnumCow<T>, f: seq<T> -> Mutation<T>) returns (out: Outcome)
    requires c.Valid() && c.value.Owned? && c.value.o.cap != 0
    modifies c, c.heap
    ensures c.heap.Valid()
    ensures old(c.value).o.addr !in c.heap.live && multiset(c.heap.frees)[old(c.value).o.addr] == 1
  {
    ghost var a := c.value.o.addr;
    out := c.Apply(f);
    c.Drop();
    c.heap.FreedExactlyOnce(a);
  }
}
