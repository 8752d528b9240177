// The compact Cow: a pointer and an extent, with the owned/borrowed tag
// derived from the extent (src/imp/compact/mod.rs).
//
// `Abs()` is the value of the crate's enum the object stands for.  Every
// method states its effect on `Abs()` and on the heap; the heap effects show
// that each owned allocation is freed by exactly one owner.

module CompactCow {
  import opened Panics
  import opened Convert
  import opened Alloc
  import Reference

  class Cow<T> {
    const kind: Kind
    const heap: Heap
    var ptr: Ptr<T>
    var extent: Extent
    /** False once the value has been moved out of (`into_owned`) or dropped. */
    ghost var alive: bool

    ghost function Stored(): Parts<T>
      reads this
    {
      Parts(ptr, extent)
    }

    ghost predicate Valid()
      reads this, heap
    {
      alive && heap.Valid() && PartsValid(kind, heap.wide, Stored()) &&
      (Convert.IsOwned(extent) ==> ptr.addr in heap.live)
    }

    /** The allocation this Cow is responsible for freeing. */
    ghost function Owns(): set<nat>
      reads this
    {
      if Convert.IsOwned(extent) then {ptr.addr} else {}
    }

    ghost function Abs(): Reference.Cow<T>
      reads this, heap
      requires Valid()
    {
      if Convert.IsOwned(extent) then Reference.Owned(MakeOwned(kind, Stored()))
      else Reference.Borrowed(MakePtr(kind, Stored()))
    }

    ghost function Content(): seq<T>
      reads this, heap
      requires Valid()
    {
      Reference.Content(Abs())
    }

    constructor Borrowed(heap: Heap, kind: Kind, b: View<T>)
      requires heap.Valid() && |b.data| < UsizeLimit(heap.wide) && BorrowedFits(kind, heap.wide, |b.data|)
      ensures Valid() && this.kind == kind && this.heap == heap
      ensures Abs() == Reference.Borrowed(b) && Owns() == {}
    {
      var r := UnmakeBorrowed(kind, heap.wide, b);
      this.kind := kind;
      this.heap := heap;
      ptr := r.value.ptr;
      extent := r.value.extent;
      alive := true;
    }

    constructor Owned(heap: Heap, kind: Kind, o: Buf<T>)
      requires heap.Valid() && BufValid(kind, heap.wide, o) && OwnedFits(kind, heap.wide, o.cap)
      requires Allocation(o) <= heap.live
      ensures Valid() && this.kind == kind && this.heap == heap
      ensures Abs() == Reference.Adopt(o) && Owns() == Allocation(o)
    {
      var r := UnmakeOwned(kind, heap.wide, o);
      this.kind := kind;
      this.heap := heap;
      ptr := r.value.ptr;
      extent := r.value.extent;
      alive := true;
    }

    /** The field copy `Clone` makes of a borrowed Cow. */
    constructor FieldCopy(heap: Heap, kind: Kind, ptr: Ptr<T>, extent: Extent)
      requires heap.Valid() && PartsValid(kind, heap.wide, Parts(ptr, extent)) && !Convert.IsOwned(extent)
      ensures Valid() && this.kind == kind && this.heap == heap
      ensures this.ptr == ptr && this.extent == extent && Owns() == {}
    {
      this.kind := kind;
      this.heap := heap;
      this.ptr := ptr;
      this.extent := extent;
      alive := true;
    }

    function IsOwned(): (r: bool)
      reads this, heap
      ensures Valid() ==> (r <==> Abs().Owned?)
    {
      Convert.IsOwned(extent)
    }

    function IsBorrowed(): (r: bool)
      reads this, heap
      ensures Valid() ==> (r <==> Abs().Borrowed?)
      ensures r != IsOwned()
    {
      !Convert.IsOwned(extent)
    }

    /** `make_ref`: the same view whether the Cow is borrowed or owned. */
    function MakeRef(): (v: View<T>)
      reads this, heap
      requires Valid()
      ensures v == Reference.Deref(Abs())
    {
      MakePtr(kind, Parts(ptr, extent))
    }

    /**
     * `into_owned`: an owned Cow hands over its buffer as it is and its drop
     * is suppressed; a borrowed one returns a fresh copy.
     */
    method IntoOwned() returns (o: Buf<T>)
      requires Valid()
      modifies this`alive, heap
      ensures !alive && heap.Valid() && old(heap.next) <= heap.next
      ensures BufValid(kind, heap.wide, o) && o.data == old(Content())
      ensures old(IsOwned()) ==> o == old(Abs()).o && heap.live == old(heap.live) && heap.frees == old(heap.frees)
      ensures !old(IsOwned()) ==> o.cap == OwnedCapacity(kind, |o.data|) && (o.cap != 0 ==> old(heap.Unused(o.addr)))
      ensures !old(IsOwned()) ==> heap.live == old(heap.live) + Allocation(o) && heap.frees == old(heap.frees)
      ensures Allocation(o) <= heap.live
    {
      if IsOwned() {
        OwnedPartsBuf(kind, heap.wide, Parts(ptr, extent));
        o := MakeOwned(kind, Parts(ptr, extent));
      } else {
        o := heap.ToOwned(kind, MakeRef());
      }
      alive := false;
    }

    /**
     * The part of `apply` before the closure runs: an owned Cow moves its
     * buffer out and resets its extent to the borrowed default, so that self
     * owns nothing while the closure runs; a borrowed Cow clones its content.
     */
    method BeginApply() returns (o: Buf<T>)
      requires Valid()
      modifies this, heap
      ensures Valid() && !IsOwned() && Owns() == {} && ptr == old(ptr)
      ensures old(heap.next) <= heap.next && heap.frees == old(heap.frees)
      ensures extent == if old(IsOwned()) then Default(kind, heap.wide) else old(extent)
      ensures BufValid(kind, heap.wide, o) && Allocation(o) <= heap.live && o.data == old(Content())
      ensures heap.live - Allocation(o) == old(heap.live) - old(Owns())
      ensures old(IsOwned()) ==> o == old(Abs()).o
      ensures !old(IsOwned()) ==> o.cap == OwnedCapacity(kind, |o.data|) && (o.cap != 0 ==> old(heap.Unused(o.addr)))
      ensures !old(IsOwned()) && o.cap == 0 ==> o.addr == DANGLING
      ensures OwnedFits(kind, heap.wide, o.cap) && old(Owns()) <= Allocation(o)
    {
      if IsOwned() {
        OwnedPartsBuf(kind, heap.wide, Parts(ptr, extent));
        o := MakeOwned(kind, Parts(ptr, extent));
        extent := Default(kind, heap.wide);
      } else {
        o := heap.ToOwned(kind, MakeRef());
      }
    }

    /**
     * The part of `apply` after the closure returns: the mutated buffer is
     * decomposed again and written back.  When its capacity no longer fits
     * the extent the decomposition panics, and since the buffer was already
     * out of reach of any drop, it leaks.
     */
    method EndApply(o: Buf<T>) returns (out: Outcome)
      requires Valid() && !IsOwned() && BufValid(kind, heap.wide, o) && Allocation(o) <= heap.live
      modifies this
      ensures Valid()
      ensures out.Completed? <==> OwnedFits(kind, heap.wide, o.cap)
      ensures out.Completed? ==> Abs() == Reference.Adopt(o) && Owns() == Allocation(o)
      ensures out.Panicked? ==> out.panic == CapacityOutOfBounds && ptr == old(ptr) && extent == old(extent)
    {
      var r := UnmakeOwned(kind, heap.wide, o);
      if r.Abort? {
        return Panicked(r.panic);
      }
      ptr := r.value.ptr;
      extent := r.value.extent;
      return Completed;
    }

    /**
     * `apply(f)`.  On completion the content is f's result and the state is
     * that of the mutated buffer `buf`.  When f panics, the buffer is freed
     * through the local that held it, and self is left owning nothing: as it
     * was if it was borrowed, and with its pointer and the default extent if
     * it was owned.  When the mutated buffer's capacity does not fit the
     * extent, that buffer is a fresh allocation that leaks, and the original
     * one has already been freed.
     */
    method Apply(f: seq<T> -> Mutation<T>) returns (out: Outcome, ghost buf: Buf<T>)
      requires Valid()
      modifies this, heap
      ensures Valid() && old(heap.next) <= heap.next
      ensures out == Panicked(MutatorPanicked) <==> f(old(Content())).Panics?
      ensures out.Completed? ==> Content() == f(old(Content())).data
      ensures out.Completed? ==> Abs() == Reference.Adopt(buf) && BufValid(kind, heap.wide, buf)
      ensures out.Completed? && f(old(Content())).Rebuilds? ==> buf.cap == RebuiltCapacity(kind, f(old(Content())))
      ensures out.Completed? ==> heap.live - Owns() == old(heap.live) - old(Owns())
      ensures out.Completed? ==> forall a | a in Allocation(buf) :: a in old(Owns()) || old(heap.next) <= a
      ensures out.Panicked? ==> !IsOwned() && ptr == old(ptr)
      ensures out.Panicked? ==> extent == if old(IsOwned()) then Default(kind, heap.wide) else old(extent)
      ensures out.Panicked? && old(IsOwned()) && kind != CStr ==> Content() == []
      ensures out.Panicked? && old(IsOwned()) ==> old(ptr.addr) !in heap.live
      ensures out.Panicked? && kind == CStr ==> Content() == old(Content())
      ensures out.Panicked? && out.panic != CapacityOutOfBounds ==> heap.live == old(heap.live) - old(Owns())
      ensures out == Panicked(CapacityOutOfBounds) ==> heap.live == old(heap.live) - old(Owns()) + Allocation(buf)
      ensures out == Panicked(CapacityOutOfBounds) ==> buf.cap != 0 && old(heap.next) <= buf.addr
    {
      var o := BeginApply();
      buf := o;
      var m := f(o.data);
      if m.Panics? {
        heap.Release(o);
        return Panicked(MutatorPanicked), buf;
      }
      var r := heap.Replace(kind, o, m);
      if r.Abort? {
        heap.Release(o);
        return Panicked(r.panic), buf;
      }
      buf := r.value;
      out := EndApply(r.value);
    }

    /**
     * `apply` as intended: when f panics on an owned Cow, self is also pointed
     * away from the buffer it gave up, at an empty value outside the heap
     * (`unmake_borrowed` of an empty slice or C string), so that whatever
     * the kind, a panicking closure leaves self empty, borrowed, and
     * addressing no allocation.
     */
    method ApplyResetting(f: seq<T> -> Mutation<T>) returns (out: Outcome, ghost buf: Buf<T>)
      requires Valid()
      modifies this, heap
      ensures Valid() && old(heap.next) <= heap.next
      ensures out == Panicked(MutatorPanicked) <==> f(old(Content())).Panics?
      ensures out.Completed? ==> Content() == f(old(Content())).data
      ensures out.Completed? ==> Abs() == Reference.Adopt(buf) && BufValid(kind, heap.wide, buf)
      ensures out.Completed? ==> heap.live - Owns() == old(heap.live) - old(Owns())
      ensures out.Panicked? ==> !IsOwned() && extent == if old(IsOwned()) then Default(kind, heap.wide) else old(extent)
      ensures out.Panicked? && !old(IsOwned()) ==> ptr == old(ptr) && Content() == old(Content())
      ensures out.Completed? && f(old(Content())).Rebuilds? ==> buf.cap == RebuiltCapacity(kind, f(old(Content())))
      ensures out.Completed? ==> forall a | a in Allocation(buf) :: a in old(Owns()) || old(heap.next) <= a
      ensures out.Panicked? && old(IsOwned()) ==> Content() == [] && ptr.addr !in heap.live && ptr.addr !in heap.frees
      ensures out.Panicked? && old(IsOwned()) ==> old(ptr.addr) !in heap.live
      ensures out == Panicked(CapacityOutOfBounds) ==> buf.cap != 0 && old(heap.next) <= buf.addr
      ensures out.Panicked? && out.panic != CapacityOutOfBounds ==> heap.live == old(heap.live) - old(Owns())
      ensures out == Panicked(CapacityOutOfBounds) ==> heap.live == old(heap.live) - old(Owns()) + Allocation(buf)
    {
      var wasOwned := IsOwned();
      out, buf := Apply(f);
      if out.Panicked? && wasOwned {
        ptr := Ptr(DANGLING, []);
      }
    }

    /**
     * `Clone`: a borrowed Cow is copied field by field; an owned one clones
     * its content into a new buffer of exactly that length.
     */
    method Clone() returns (c: Cow<T>)
      requires Valid()
      modifies heap
      ensures fresh(c) && c.Valid() && Valid() && c.kind == kind && c.heap == heap
      ensures old(heap.next) <= heap.next && heap.frees == old(heap.frees)
      ensures c.Content() == Content()
      ensures !IsOwned() ==> c.ptr == ptr && c.extent == extent && heap.live == old(heap.live)
      ensures IsOwned() ==> (c.IsOwned() <==> OwnedCapacity(kind, |Content()|) != 0)
      ensures IsOwned() ==> heap.live == old(heap.live) + c.Owns() && (forall a | a in c.Owns() :: old(heap.Unused(a)))
    {
      if IsOwned() {
        var o := heap.ToOwned(kind, MakeRef());
        c := new Cow.Owned(heap, kind, o);
      } else {
        c := new Cow.FieldCopy(heap, kind, ptr, extent);
      }
    }

    /** `Drop`: frees the buffer exactly when the Cow is owned. */
    method Drop()
      requires Valid()
      modifies this`alive, heap
      ensures !alive && heap.Valid() && old(heap.next) <= heap.next
      ensures heap.live == old(heap.live) - old(Owns())
      ensures heap.frees == old(heap.frees) + (if old(IsOwned()) then [old(ptr.addr)] else [])
    {
      if IsOwned() {
        OwnedPartsBuf(kind, heap.wide, Parts(ptr, extent));
        heap.Release(MakeOwned(kind, Parts(ptr, extent)));
      }
      alive := false;
    }
  }

  // ---- lifetimes of one allocation ----

  /**
   * An owned Cow that is applied to and then dropped frees its allocation
   * exactly once, whether the closure returns, panics, or leaves a buffer
   * too large for the extent.
   */
  method ApplyThenDrop<T>(c: Cow<T>, f: seq<T> -> Mutation<T>) returns (out: Outcome)
    requires c.Valid() && c.IsOwned()
    modifies c, c.heap
    ensures c.heap.Valid()
    ensures old(c.ptr.addr) !in c.heap.live && multiset(c.heap.frees)[old(c.ptr.addr)] == 1
  {
    ghost var a := c.ptr.addr;
    ghost var buf;
    out, buf := c.Apply(f);
    c.Drop();
    c.heap.FreedExactlyOnce(a);
  }

  /**
   * `apply` as written, on an owned `Cow<CStr>` whose closure panics: self is
   * left valid and borrowed, but still points at the CString the unwinding
   * dropped, so `make_ptr` reads the bytes of a freed allocation.
   */
  method PanicLeavesCStrDangling<T>(c: Cow<T>) returns (out: Outcome)
    requires c.Valid() && c.IsOwned() && c.kind == CStr
    modifies c, c.heap
    ensures out == Panicked(MutatorPanicked)
    ensures c.Valid() && c.IsBorrowed() && c.Content() == old(c.Content())
    ensures c.ptr.addr == old(c.ptr.addr) && c.ptr.addr !in c.heap.live && c.ptr.addr in c.heap.frees
  {
    ghost var a := c.ptr.addr;
    ghost var buf;
    out, buf := c.Apply(s => Panics);
    c.heap.FreedExactlyOnce(a);
  }

  /** `into_owned` hands the allocation over: it is freed once, by the buffer's own drop. */
  method IntoOwnedThenDrop<T>(c: Cow<T>) returns (o: Buf<T>)
    requires c.Valid() && c.IsOwned()
    modifies c, c.heap
    ensures c.heap.Valid() && o.addr == old(c.ptr.addr)
    ensures o.addr !in c.heap.live && multiset(c.heap.frees)[o.addr] == 1
  {
    o := c.IntoOwned();
    c.heap.Release(o);
    c.heap.FreedExactlyOnce(o.addr);
  }

  /** Drops two Cows that share a heap and own different allocations. */
  method DropBoth<T>(c: Cow<T>, d: Cow<T>)
    requires c.Valid() && d.Valid() && c != d && c.heap == d.heap && c.Owns() !! d.Owns()
    modifies c`alive, d`alive, c.heap
    ensures c.heap.Valid() && old(c.heap.next) <= c.heap.next
    ensures c.heap.live == old(c.heap.live) - old(c.Owns()) - old(d.Owns())
  {
    c.Drop();
    assert d.Valid();
    d.Drop();
  }

  /** An owned Cow and its clone free two different allocations, each exactly once. */
  method CloneThenDropBoth<T>(c: Cow<T>) returns (d: Cow<T>)
    requires c.Valid() && c.IsOwned()
    modifies c, c.heap
    ensures fresh(d) && c.heap.Valid()
    ensures old(c.ptr.addr) !in c.heap.live && multiset(c.heap.frees)[old(c.ptr.addr)] == 1
    ensures d.IsOwned() ==> d.ptr.addr != old(c.ptr.addr)
    ensures d.IsOwned() ==> d.ptr.addr !in c.heap.live && multiset(c.heap.frees)[d.ptr.addr] == 1
  {
    ghost var a := c.ptr.addr;
    d := c.Clone();
    DropBoth(c, d);
    c.heap.FreedExactlyOnce(a);
    if d.IsOwned() {
      c.heap.FreedExactlyOnce(d.ptr.addr);
    }
  }
}
